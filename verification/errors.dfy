/** The exceptions the contact book raises, and the Option/Result shapes
    that return them as values instead of raising them. */
module Errors {

  /** Python's `None` or a present value. */
  datatype Option<+T> = None | Some(value: T)

  /** The `Field` subclasses whose constructor and setter validate. */
  datatype FieldKind = NameField | PhoneField | BirthdayField

  /** Why a `ValueError` was raised. */
  datatype Reason =
    | InvalidField(kind: FieldKind)   // Field.__init__ or the value setter
    | PhoneNotFound                   // Record.edit_phone found no equal phone
    | DuplicatePhone                  // `add`: the phone is already listed
    | PhoneConflict                   // `change`: the guard before edit_phone
    | ContactNotFound                 // `change`, `phone`, `delete` on an unknown name
    | LastPhone                       // `delete` on a contact with at most one phone
    | DayOutOfRange                   // date.replace onto 29 February of a common year
    | YearOutOfRange                  // date.replace outside years 1..9999

  /** The exception classes that can leave the core. */
  datatype Exception =
    | KeyError(key: Option<string>)
    | ValueError(reason: Reason)
    | IndexError
    | AttributeError

  /** A value, or the exception raised instead; usable with `:-`. */
  datatype Result<+T> = Ok(value: T) | Err(error: Exception) {

    predicate IsFailure() {
      Err?
    }

    function PropagateFailure<U>(): Result<U>
      requires Err?
    {
      Err(error)
    }

    function Extract(): T
      requires Ok?
    {
      value
    }
  }
}
