/** The stateful layer of LisaBeautyCorner/app.js: the three localStorage
    records (users, session, bookings) become the fields of one object, and
    each auth or booking function becomes a method that reads a field,
    changes the value and writes it back, or throws and writes nothing. */
module App {
  import opened Results
  import opened Errors
  import Text
  import Accounts
  import Ledger

  class BeautyCorner {
    var users: seq<Accounts.User>
    var session: Option<Accounts.Session>
    var bookings: seq<Ledger.Booking>

    /** Emails are normalised and unique, ids are unique, the session names
        a stored user, and no day is over capacity. */
    ghost predicate Valid()
      reads this
    {
      && Accounts.DirectoryValid(users)
      && Accounts.SessionValid(users, session)
      && Ledger.LedgerValid(bookings)
    }

    /** The start-up code: an empty user list, an empty booking list, no
        session. */
    constructor ()
      ensures Valid()
      ensures users == [] && session == None && bookings == []
    {
      users := [];
      session := None;
      bookings := [];
    }

    /** register: on a duplicate email nothing is written; otherwise the
        user list gains the new user and nothing else changes. */
    method Register(name: string, email: string, password: string, id: string) returns (out: Outcome<Error>)
      requires Valid()
      requires Accounts.FreshUserId(users, id)
      modifies this`users
      ensures Valid()
      ensures var r := Accounts.Register(old(users), name, email, password, id);
        out == r.ToOutcome() && users == r.GetOr(old(users))
    {
      Accounts.RegisterStep(users, session, name, email, password, id);
      var e := Text.NormalizeEmail(email);
      var us := users;
      if Accounts.HasEmail(us, e) {
        return Fail(EmailAlreadyRegistered);
      }
      us := us + [Accounts.User(id, Text.Trim(name), e, password)];
      users := us;
      out := Pass;
    }

    /** login: on success the session becomes that of the first matching
        user; on failure nothing is written. */
    method Login(email: string, password: string) returns (out: Outcome<Error>)
      requires Valid()
      modifies this`session
      ensures Valid()
      ensures var r := Accounts.Login(users, email, password);
        out == r.ToOutcome() && session == (if r.Success? then Some(r.value) else old(session))
    {
      var e := Text.NormalizeEmail(email);
      var found := Accounts.FindUser(users, e, password);
      if found.None? {
        return Fail(InvalidCredentials);
      }
      var u := users[found.value];
      Accounts.SessionOfStored(users, found.value);
      session := Some(Accounts.SessionOf(u));
      out := Pass;
    }

    /** logout: the session is cleared and nothing else changes. */
    method Logout()
      requires Valid()
      modifies this`session
      ensures Valid()
      ensures session == None
    {
      session := None;
    }

    /** createBooking: when the day is full nothing is written; otherwise
        the booking list gains one active booking. */
    method CreateBooking(userId: string, service: string, apptDate: string, note: Option<string>,
                         id: string, createdAt: nat) returns (out: Outcome<Error>)
      requires Valid()
      requires Ledger.FreshBookingId(bookings, id)
      modifies this`bookings
      ensures Valid()
      ensures var r := Ledger.CreateBooking(old(bookings), userId, service, apptDate, note, id, createdAt);
        out == r.ToOutcome() && bookings == r.GetOr(old(bookings))
    {
      if Ledger.CountActiveByDate(bookings, apptDate) >= Ledger.MAX_PER_DAY {
        return Fail(BookingsFull);
      }
      Ledger.CreateKeepsLedgerValid(bookings, userId, service, apptDate, note, id, createdAt);
      var bs := bookings;
      bs := bs + [Ledger.Booking(id, userId, service, apptDate, Ledger.NoteOrEmpty(note), Ledger.Active, createdAt)];
      bookings := bs;
      out := Pass;
    }

    /** updateBookingDate: on an unknown id or a full target day nothing is
        written; otherwise the date of the first booking with that id is
        set in place. */
    method UpdateBookingDate(id: string, newDate: string) returns (out: Outcome<Error>)
      requires Valid()
      modifies this`bookings
      ensures Valid()
      ensures var r := Ledger.UpdateBookingDate(old(bookings), id, newDate);
        out == r.ToOutcome() && bookings == r.GetOr(old(bookings))
    {
      var bs := bookings;
      var idx := Ledger.FindIndex(bs, id);
      if idx.None? {
        return Fail(BookingNotFound);
      }
      var i := idx.value;
      var b := bs[i];
      if b.apptDate != newDate && Ledger.CountActiveByDate(bs, newDate) >= Ledger.MAX_PER_DAY {
        return Fail(DateFullyBooked);
      }
      Ledger.UpdateKeepsLedgerValid(bookings, id, newDate);
      bs := bs[i := b.(apptDate := newDate)];
      bookings := bs;
      out := Pass;
    }

    /** cancelBooking: an unknown id writes nothing; otherwise the status
        of the first booking with that id is set to canceled in place. */
    method CancelBooking(id: string)
      requires Valid()
      modifies this`bookings
      ensures Valid()
      ensures bookings == Ledger.CancelBooking(old(bookings), id)
    {
      var bs := bookings;
      var idx := Ledger.FindIndex(bs, id);
      if idx.None? {
        return;
      }
      Ledger.CancelKeepsLedgerValid(bookings, id);
      bs := bs[idx.value := bs[idx.value].(status := Ledger.Canceled)];
      bookings := bs;
    }
  }
}
