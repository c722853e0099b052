/** Shared vocabulary of the model: optional values, results, and the error kinds
    that the terminal game raises (one variant per exception class it uses). */
module Common {

  datatype Option<+T> = None | Some(value: T)

  datatype Result<+T> = Ok(value: T) | Err(error: Error)

  /** Why a name was refused by the storage-unit name rule, in the order the rule checks. */
  datatype NameIssue =
    | Taken                     // another unit of the parent already has this name
    | Empty                     // the name has no characters
    | TooLong                   // the name has more than 50 characters
    | BadChars(name: string)    // the name holds one of < > : " / \ | ? *

  /** Why a username or a password was refused. */
  datatype LengthIssue = BelowMinimum | AboveMaximum

  datatype Error =
    | NameError(issue: NameIssue)       // SUNameError
    | InvalidContents                   // SUInvalidContents
    | InvalidParent                     // SUInvalidParent
    | ElementNotUnit                    // SUDirectoryElementError: the element is not a storage unit
    | ElementNameTaken                  // SUDirectoryElementError: a child already has that name
    | NotFound                          // a child lookup by name found nothing
    | RootDirError                      // RootDirException
    | NotADirectory                     // a directory operation applied to a File
    | Detached                          // a unit without a parent asked for its parent's contents
    | InvalidUsername(why: LengthIssue) // OSInvalidUsername
    | InvalidPassword(why: LengthIssue) // OSInvalidPassword
    | Corrupted                         // OSCorrupted
    | OsNotFound                        // OSNotFound
    | EmptyCommand                      // a command line without any token
    | NotIterable                       // TypeError: `filter` was handed a function where it iterates
    | Unset                             // AttributeError: a new Directory's contents read before they are first set

  /** The message text a name refusal carries. */
  function NameMessage(issue: NameIssue): string
  {
    match issue
    case Taken => "Another storage unit with this name already exists in the parent directory."
    case Empty => "Name cannot be empty."
    case TooLong => "Name is too long."
    case BadChars(n) => n + " is not a valid name."
  }
}
