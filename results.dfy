/** Failure-carrying values used in place of the exceptions that the booking
    and auth functions throw. */
module Results {

  datatype Option<+T> = None | Some(value: T)

  datatype Result<+R, +E> = Success(value: R) | Failure(error: E) {

    /** The value on success, the given default otherwise. */
    function GetOr(default: R): R {
      match this
      case Success(v) => v
      case Failure(_) => default
    }

    /** Forgets the value: what the caller of a `void` function observes. */
    function ToOutcome(): Outcome<E> {
      match this
      case Success(_) => Pass
      case Failure(e) => Fail(e)
    }
  }

  /** The observable result of a JavaScript function that returns nothing
      or throws. */
  datatype Outcome<+E> = Pass | Fail(error: E)
}

/** The errors the booking and auth functions throw, one per `throw` site. */
module Errors {

  datatype Error =
    | EmailAlreadyRegistered   // register, duplicate email
    | InvalidCredentials       // login, no matching user
    | BookingsFull             // createBooking, day at capacity
    | DateFullyBooked          // updateBookingDate, target day at capacity
    | BookingNotFound          // updateBookingDate, unknown id

  /** The message each error carries to the user interface. */
  function Message(e: Error): (m: string)
    ensures |m| > 1 && m[|m| - 1] == '.'
  {
    match e
    case EmailAlreadyRegistered => "Email already registered."
    case InvalidCredentials => "Invalid email or password."
    case BookingsFull => "Sorry, bookings are full for that day."
    case DateFullyBooked => "That date is fully booked."
    case BookingNotFound => "Booking not found."
  }

  /** Different errors carry different messages, so the user interface can
      tell every failure apart from its text alone. */
  lemma MessagesDistinct(e1: Error, e2: Error)
    ensures Message(e1) == Message(e2) <==> e1 == e2
  {
  }
}
