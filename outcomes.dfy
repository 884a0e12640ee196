/** The result types shared by the address book: optional values, the
    exceptions the program raises, and what a command handler hands back. */
module Outcomes {

  datatype Option<+T> = None | Some(value: T)

  /** Every exception the modelled code can raise. */
  datatype Failure =
    | InvalidPhone      // ValueError from Phone.validate
    | DuplicatePhone    // ValueError from Record.add_phone
    | AddUsage          // ValueError from add_contact_command: fewer than two arguments
    | BirthdayUsage     // ValueError from add_birthday_command: not exactly two arguments
    | BadDate           // ValueError from strptime: not a DD.MM.YYYY date
    | NoAttribute       // AttributeError: a Phone used as a str, or a str used as a Phone
    | MissingArgument   // TypeError: edit_phone called with one argument
    | NoSuchDay         // ValueError from date.replace: 29 February in a common year
    | DateOverflow      // OverflowError from date + timedelta beyond the year 9999

  datatype Result<+T> = Ok(value: T) | Err(error: Failure)

  /** The text of the exceptions whose message the program itself writes;
      None for the ones whose text comes from the Python runtime. */
  function Message(f: Failure): Option<string>
  {
    match f
    case InvalidPhone => Some("Phone number must consist of 10 digits.")
    case DuplicatePhone => Some("Phone number already exists for this contact")
    case AddUsage => Some("Not enough arguments. Usage: add [name] [phone]")
    case BirthdayUsage => Some("Usage: add-birthday [name] [birthday in DD.MM.YYYY]")
    case _ => None
  }

  /** What a command handler produces: a string it returns, the text
      `str(e)` of an exception that was caught and returned (by the handler's
      own `except ValueError` or else by `input_error`), or an exception that
      escapes the handler and ends the interactive loop. */
  datatype Reply =
    | Says(text: string)
    | Caught(failure: Failure)
    | Raised(failure: Failure)
}
