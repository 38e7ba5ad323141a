/** The booking ledger of LisaBeautyCorner/app.js: the stored list of
    bookings, the per-day capacity rule, the per-user listing, and
    create, reschedule and cancel as functions from the stored list to the
    new list. */
module Ledger {
  import opened Results
  import opened Errors

  /** The capacity of one calendar day: at most this many active bookings. */
  const MAX_PER_DAY: nat := 50

  datatype Status = Active | Canceled

  /** A stored booking. `apptDate` is the calendar day as the form gives it;
      `createdAt` is the creation instant (see README on its representation). */
  datatype Booking = Booking(
    id: string,
    userId: string,
    service: string,
    apptDate: string,
    note: string,
    status: Status,
    createdAt: nat)

  predicate ActiveOn(b: Booking, d: string) {
    b.apptDate == d && b.status == Active
  }

  /** countActiveByDate(d): the length of the list of active bookings on `d`. */
  function CountActiveByDate(bs: seq<Booking>, d: string): (n: nat)
    ensures n <= |bs|
  {
    if bs == [] then 0
    else CountActiveByDate(bs[..|bs| - 1], d) + (if ActiveOn(bs[|bs| - 1], d) then 1 else 0)
  }

  /** The count is the number of positions that hold an active booking on
      that day. */
  lemma {:induction false} CountActiveIsIndexCount(bs: seq<Booking>, d: string)
    ensures CountActiveByDate(bs, d) == |set i | 0 <= i < |bs| && ActiveOn(bs[i], d)|
  {
    if bs != [] {
      var n := |bs| - 1;
      var init := bs[..n];
      CountActiveIsIndexCount(init, d);
      var before := set i | 0 <= i < n && ActiveOn(init[i], d);
      var after := set i | 0 <= i < |bs| && ActiveOn(bs[i], d);
      if ActiveOn(bs[n], d) {
        assert after == before + {n};
      } else {
        assert after == before;
      }
    }
  }

  /** Appending one booking adds one to its day's count if it is active,
      and leaves every other count alone. */
  lemma CountAfterAppend(bs: seq<Booking>, b: Booking, d: string)
    ensures CountActiveByDate(bs + [b], d) == CountActiveByDate(bs, d) + (if ActiveOn(b, d) then 1 else 0)
  {
    assert (bs + [b])[..|bs|] == bs;
  }

  /** Replacing one booking changes each day's count by what the old and
      the new booking contribute to it. */
  lemma {:induction false} CountAfterUpdate(bs: seq<Booking>, i: nat, b: Booking, d: string)
    requires i < |bs|
    ensures CountActiveByDate(bs[i := b], d) + (if ActiveOn(bs[i], d) then 1 else 0)
         == CountActiveByDate(bs, d) + (if ActiveOn(b, d) then 1 else 0)
  {
    var n := |bs| - 1;
    if i == n {
      assert bs[i := b][..n] == bs[..n];
    } else {
      assert bs[i := b][..n] == bs[..n][i := b];
      CountAfterUpdate(bs[..n], i, b, d);
    }
  }

  /** The capacity invariant: no day holds more than MAX_PER_DAY active
      bookings. */
  ghost predicate WithinCapacity(bs: seq<Booking>) {
    forall d :: CountActiveByDate(bs, d) <= MAX_PER_DAY
  }

  ghost predicate IdsDistinct(bs: seq<Booking>) {
    forall i, j :: 0 <= i < j < |bs| ==> bs[i].id != bs[j].id
  }

  /** The ledger invariant kept by every operation. */
  ghost predicate LedgerValid(bs: seq<Booking>) {
    WithinCapacity(bs) && IdsDistinct(bs)
  }

  /** What `uid()` is trusted to deliver: an id no stored booking has. */
  ghost predicate FreshBookingId(bs: seq<Booking>, id: string) {
    forall i :: 0 <= i < |bs| ==> bs[i].id != id
  }

  /** `bookings.findIndex(b => b.id === id)`, with None for -1. */
  function FindIndex(bs: seq<Booking>, id: string): (r: Option<nat>)
    ensures r.Some? ==>
      r.value < |bs| && bs[r.value].id == id && forall j :: 0 <= j < r.value ==> bs[j].id != id
    ensures r.None? ==> forall j :: 0 <= j < |bs| ==> bs[j].id != id
  {
    if bs == [] then None
    else if bs[0].id == id then Some(0)
    else match FindIndex(bs[1..], id)
      case None =>
        assert forall j :: 1 <= j < |bs| ==> bs[j] == bs[1..][j - 1];
        None
      case Some(k) =>
        assert forall j :: 1 <= j < k + 1 ==> bs[j] == bs[1..][j - 1];
        Some(k + 1)
  }

  /** findIndex looks at ids only. */
  lemma {:induction false} FindIndexSameIds(a: seq<Booking>, b: seq<Booking>, id: string)
    requires |a| == |b|
    requires forall j :: 0 <= j < |a| ==> a[j].id == b[j].id
    ensures FindIndex(a, id) == FindIndex(b, id)
  {
    if a != [] {
      FindIndexSameIds(a[1..], b[1..], id);
    }
  }

  /** `note || ""`: a missing note is stored as the empty string. */
  function NoteOrEmpty(note: Option<string>): string {
    match note
    case None => ""
    case Some(s) => s
  }

  /** createBooking(userId, service, apptDate, note), with `id` and
      `createdAt` standing for `uid()` and the clock: fails exactly when the
      day is already at capacity, and otherwise appends one active booking. */
  function CreateBooking(bs: seq<Booking>, userId: string, service: string, apptDate: string,
                         note: Option<string>, id: string, createdAt: nat): (r: Result<seq<Booking>, Error>)
    ensures r.Failure? <==> CountActiveByDate(bs, apptDate) >= MAX_PER_DAY
    ensures r.Failure? ==> r.error == BookingsFull
    ensures r.Success? ==> |r.value| == |bs| + 1 && r.value[..|bs|] == bs
    ensures r.Success? ==> r.value[|bs|] == Booking(id, userId, service, apptDate, NoteOrEmpty(note), Active, createdAt)
  {
    if CountActiveByDate(bs, apptDate) >= MAX_PER_DAY then Failure(BookingsFull)
    else Success(bs + [Booking(id, userId, service, apptDate, NoteOrEmpty(note), Active, createdAt)])
  }

  /** A successful creation adds exactly one active booking to its day and
      keeps the ledger invariant: capacity is never exceeded. */
  lemma CreateKeepsLedgerValid(bs: seq<Booking>, userId: string, service: string, apptDate: string,
                               note: Option<string>, id: string, createdAt: nat)
    requires LedgerValid(bs)
    requires FreshBookingId(bs, id)
    ensures var r := CreateBooking(bs, userId, service, apptDate, note, id, createdAt);
      r.Success? ==>
        LedgerValid(r.value) && CountActiveByDate(r.value, apptDate) == CountActiveByDate(bs, apptDate) + 1
  {
    var r := CreateBooking(bs, userId, service, apptDate, note, id, createdAt);
    if r.Success? {
      var b := r.value[|bs|];
      assert r.value == bs + [b];
      forall d ensures CountActiveByDate(r.value, d) <= MAX_PER_DAY {
        CountAfterAppend(bs, b, d);
      }
      CountAfterAppend(bs, b, apptDate);
      forall i, j | 0 <= i < j < |r.value| ensures r.value[i].id != r.value[j].id {
        assert r.value[i] == bs[i];
        if j < |bs| { assert r.value[j] == bs[j]; }
      }
    }
  }

  /** On a day with one place left the next booking succeeds and fills the
      day, and the one after it fails: with MAX_PER_DAY = 50, the 50th
      booking of a day succeeds and the 51st fails. */
  lemma LastPlaceThenFull(bs: seq<Booking>, userId: string, service: string, apptDate: string,
                          note: Option<string>, id: string, createdAt: nat,
                          userId2: string, service2: string, note2: Option<string>, id2: string, createdAt2: nat)
    requires CountActiveByDate(bs, apptDate) == MAX_PER_DAY - 1
    ensures CreateBooking(bs, userId, service, apptDate, note, id, createdAt).Success?
    ensures CreateBooking(CreateBooking(bs, userId, service, apptDate, note, id, createdAt).value,
                          userId2, service2, apptDate, note2, id2, createdAt2) == Failure(BookingsFull)
  {
    var r := CreateBooking(bs, userId, service, apptDate, note, id, createdAt);
    var b := r.value[|bs|];
    assert r.value == bs + [b];
    CountAfterAppend(bs, b, apptDate);
  }

  /** updateBookingDate(id, newDate): fails when no booking has the id;
      otherwise, when the date really changes and the target day is at
      capacity, fails; otherwise sets the date of the first booking with
      that id. */
  function UpdateBookingDate(bs: seq<Booking>, id: string, newDate: string): (r: Result<seq<Booking>, Error>)
    ensures r == Failure(BookingNotFound) <==> forall j :: 0 <= j < |bs| ==> bs[j].id != id
    ensures r.Failure? ==> r.error == BookingNotFound || r.error == DateFullyBooked
    ensures r == Failure(DateFullyBooked) <==>
      FindIndex(bs, id).Some? && bs[FindIndex(bs, id).value].apptDate != newDate
      && CountActiveByDate(bs, newDate) >= MAX_PER_DAY
    ensures r.Success? ==> FindIndex(bs, id).Some? && |r.value| == |bs|
    ensures r.Success? ==> forall j :: 0 <= j < |bs| && j != FindIndex(bs, id).value ==> r.value[j] == bs[j]
    ensures r.Success? ==> r.value[FindIndex(bs, id).value] == bs[FindIndex(bs, id).value].(apptDate := newDate)
  {
    match FindIndex(bs, id)
    case None => Failure(BookingNotFound)
    case Some(i) =>
      if bs[i].apptDate != newDate && CountActiveByDate(bs, newDate) >= MAX_PER_DAY then Failure(DateFullyBooked)
      else Success(bs[i := bs[i].(apptDate := newDate)])
  }

  /** Rescheduling a booking to the date it already has never fails on
      capacity, whatever the load, and changes nothing. */
  lemma SameDateNeverFull(bs: seq<Booking>, i: nat)
    requires i < |bs| && FindIndex(bs, bs[i].id) == Some(i)
    ensures UpdateBookingDate(bs, bs[i].id, bs[i].apptDate) == Success(bs)
  {
    assert bs[i := bs[i].(apptDate := bs[i].apptDate)] == bs;
  }

  /** Rescheduling an existing booking to a different date fails exactly
      when the target day is already at capacity, and then with the
      date-fully-booked error. */
  lemma RescheduleFailsWhen(bs: seq<Booking>, i: nat, newDate: string)
    requires i < |bs| && FindIndex(bs, bs[i].id) == Some(i)
    requires bs[i].apptDate != newDate
    ensures UpdateBookingDate(bs, bs[i].id, newDate) == Failure(DateFullyBooked)
      <==> CountActiveByDate(bs, newDate) >= MAX_PER_DAY
    ensures UpdateBookingDate(bs, bs[i].id, newDate).Failure?
      <==> CountActiveByDate(bs, newDate) >= MAX_PER_DAY
  {
  }

  /** A successful reschedule keeps the ledger invariant: the target day
      gains at most the one booking that moved, no other day gains any. */
  lemma UpdateKeepsLedgerValid(bs: seq<Booking>, id: string, newDate: string)
    requires LedgerValid(bs)
    ensures UpdateBookingDate(bs, id, newDate).Success? ==> LedgerValid(UpdateBookingDate(bs, id, newDate).value)
  {
    var r := UpdateBookingDate(bs, id, newDate);
    if r.Success? {
      var i := FindIndex(bs, id).value;
      var b := bs[i].(apptDate := newDate);
      assert r.value == bs[i := b];
      forall d ensures CountActiveByDate(r.value, d) <= MAX_PER_DAY {
        CountAfterUpdate(bs, i, b, d);
      }
    }
  }

  /** cancelBooking(id): nothing happens when no booking has the id;
      otherwise the first booking with that id becomes canceled. */
  function CancelBooking(bs: seq<Booking>, id: string): (r: seq<Booking>)
    ensures |r| == |bs|
    ensures (forall j :: 0 <= j < |bs| ==> bs[j].id != id) ==> r == bs
    ensures forall j :: 0 <= j < |bs| ==> r[j] == bs[j] || (bs[j].id == id && r[j] == bs[j].(status := Canceled))
    ensures FindIndex(bs, id).Some? ==>
      forall j :: 0 <= j < |bs| && j != FindIndex(bs, id).value ==> r[j] == bs[j]
    ensures forall j :: 0 <= j < |bs| && bs[j].status == Canceled ==> r[j].status == Canceled
    ensures FindIndex(bs, id).Some? ==> r[FindIndex(bs, id).value].status == Canceled
  {
    match FindIndex(bs, id)
    case None => bs
    case Some(i) => bs[i := bs[i].(status := Canceled)]
  }

  /** Cancelling twice is cancelling once. */
  lemma CancelIdempotent(bs: seq<Booking>, id: string)
    ensures CancelBooking(CancelBooking(bs, id), id) == CancelBooking(bs, id)
  {
    var c := CancelBooking(bs, id);
    FindIndexSameIds(c, bs, id);
  }

  /** Cancelling an active booking frees exactly one place on its day and
      leaves every other day's count unchanged. */
  lemma CancelFreesOnePlace(bs: seq<Booking>, id: string, i: nat)
    requires FindIndex(bs, id) == Some(i) && bs[i].status == Active
    ensures CountActiveByDate(CancelBooking(bs, id), bs[i].apptDate) == CountActiveByDate(bs, bs[i].apptDate) - 1
    ensures forall d :: d != bs[i].apptDate ==> CountActiveByDate(CancelBooking(bs, id), d) == CountActiveByDate(bs, d)
  {
    var b := bs[i].(status := Canceled);
    assert CancelBooking(bs, id) == bs[i := b];
    CountAfterUpdate(bs, i, b, bs[i].apptDate);
    forall d | d != bs[i].apptDate ensures CountActiveByDate(CancelBooking(bs, id), d) == CountActiveByDate(bs, d) {
      CountAfterUpdate(bs, i, b, d);
    }
  }

  /** Cancelling keeps the ledger invariant. */
  lemma CancelKeepsLedgerValid(bs: seq<Booking>, id: string)
    requires LedgerValid(bs)
    ensures LedgerValid(CancelBooking(bs, id))
  {
    match FindIndex(bs, id)
    case None =>
    case Some(i) =>
      var b := bs[i].(status := Canceled);
      var c := bs[i := b];
      assert CancelBooking(bs, id) == c;
      forall d ensures CountActiveByDate(c, d) <= MAX_PER_DAY {
        CountAfterUpdate(bs, i, b, d);
      }
  }

  /** On a full day, cancelling one of its active bookings lets the next
      booking on that day through. */
  lemma CancelThenCreate(bs: seq<Booking>, id: string, i: nat, userId: string, service: string,
                         note: Option<string>, newId: string, createdAt: nat)
    requires WithinCapacity(bs)
    requires FindIndex(bs, id) == Some(i) && bs[i].status == Active
    requires CreateBooking(bs, userId, service, bs[i].apptDate, note, newId, createdAt).Failure?
    ensures CreateBooking(CancelBooking(bs, id), userId, service, bs[i].apptDate, note, newId, createdAt).Success?
  {
    CancelFreesOnePlace(bs, id, i);
  }

  /** `bookings.filter(b => b.user_id === userId)`. */
  function BookingsOf(bs: seq<Booking>, userId: string): (r: seq<Booking>)
    ensures |r| <= |bs|
    ensures forall b :: b in r <==> b in bs && b.userId == userId
    ensures forall b :: multiset(r)[b] == if b.userId == userId then multiset(bs)[b] else 0
  {
    if bs == [] then []
    else
      assert forall b :: b in bs <==> b == bs[0] || b in bs[1..];
      assert bs == [bs[0]] + bs[1..];
      (if bs[0].userId == userId then [bs[0]] else []) + BookingsOf(bs[1..], userId)
  }

  lemma {:induction false} CreatedAtAppend(a: seq<Booking>, b: seq<Booking>, t: nat)
    ensures CreatedAt(a + b, t) == CreatedAt(a, t) + CreatedAt(b, t)
  {
    if a != [] {
      assert (a + b)[1..] == a[1..] + b;
      CreatedAtAppend(a[1..], b, t);
    } else {
      assert a + b == b;
    }
  }

  /** The filter keeps the stored order: selecting one user's bookings and
      then those created at `t` gives the same sequence as selecting in the
      other order. */
  lemma {:induction false} BookingsOfKeepsOrder(bs: seq<Booking>, userId: string, t: nat)
    ensures CreatedAt(BookingsOf(bs, userId), t) == BookingsOf(CreatedAt(bs, t), userId)
  {
    if bs != [] {
      BookingsOfKeepsOrder(bs[1..], userId, t);
      var head := if bs[0].userId == userId then [bs[0]] else [];
      CreatedAtAppend(head, BookingsOf(bs[1..], userId), t);
      var c := CreatedAt(bs, t);
      if bs[0].createdAt == t {
        assert c == [bs[0]] + CreatedAt(bs[1..], t);
        assert c[0] == bs[0] && c[1..] == CreatedAt(bs[1..], t);
      } else {
        assert c == CreatedAt(bs[1..], t);
      }
    }
  }

  /** Most recently created first. */
  ghost predicate NewestFirst(s: seq<Booking>) {
    forall i, j :: 0 <= i < j < |s| ==> s[i].createdAt >= s[j].createdAt
  }

  /** The bookings of `s` created at instant `t`, in their order in `s`. */
  function CreatedAt(s: seq<Booking>, t: nat): seq<Booking> {
    if s == [] then []
    else (if s[0].createdAt == t then [s[0]] else []) + CreatedAt(s[1..], t)
  }

  /** One step of the sort: `x` goes in front of the first booking that is
      not newer than it. */
  function InsertNewestFirst(x: Booking, s: seq<Booking>): (r: seq<Booking>)
    ensures multiset(r) == multiset(s) + multiset{x}
  {
    if s == [] || s[0].createdAt <= x.createdAt then [x] + s
    else
      assert s == [s[0]] + s[1..];
      [s[0]] + InsertNewestFirst(x, s[1..])
  }

  /** Inserting into a list sorted newest first keeps it sorted. */
  lemma {:induction false} InsertNewestFirstSorted(x: Booking, s: seq<Booking>)
    requires NewestFirst(s)
    ensures NewestFirst(InsertNewestFirst(x, s))
  {
    if s == [] || s[0].createdAt <= x.createdAt {
      var r := [x] + s;
      forall i, j | 0 <= i < j < |r| ensures r[i].createdAt >= r[j].createdAt {
        if i == 0 {
          assert r[j] == s[j - 1];
        } else {
          assert r[i] == s[i - 1] && r[j] == s[j - 1];
        }
      }
    } else {
      var t := InsertNewestFirst(x, s[1..]);
      InsertNewestFirstSorted(x, s[1..]);
      forall k | 0 <= k < |t| ensures t[k].createdAt <= s[0].createdAt {
        assert t[k] in multiset(t);
        if t[k] != x {
          assert t[k] in multiset(s[1..]);
          var m :| 0 <= m < |s[1..]| && s[1..][m] == t[k];
          assert s[m + 1] == t[k];
        }
      }
      var r := [s[0]] + t;
      forall i, j | 0 <= i < j < |r| ensures r[i].createdAt >= r[j].createdAt {
        assert r[j] == t[j - 1];
        if i > 0 {
          assert r[i] == t[i - 1];
        }
      }
    }
  }

  /** `.sort((a, b) => b.created_at.localeCompare(a.created_at))`: a stable
      sort, most recently created first. */
  function SortNewestFirst(s: seq<Booking>): (r: seq<Booking>)
    ensures multiset(r) == multiset(s)
    ensures NewestFirst(r)
  {
    if s == [] then []
    else
      assert s == [s[0]] + s[1..];
      InsertNewestFirstSorted(s[0], SortNewestFirst(s[1..]));
      InsertNewestFirst(s[0], SortNewestFirst(s[1..]))
  }

  lemma {:induction false} InsertNewestFirstStable(x: Booking, s: seq<Booking>, t: nat)
    ensures CreatedAt(InsertNewestFirst(x, s), t) == (if x.createdAt == t then [x] else []) + CreatedAt(s, t)
  {
    if s == [] || s[0].createdAt <= x.createdAt {
      assert ([x] + s)[1..] == s;
    } else {
      InsertNewestFirstStable(x, s[1..], t);
      assert ([s[0]] + InsertNewestFirst(x, s[1..]))[1..] == InsertNewestFirst(x, s[1..]);
    }
  }

  /** The sort is stable: bookings created at the same instant keep their
      stored order. */
  lemma {:induction false} SortNewestFirstStable(s: seq<Booking>, t: nat)
    ensures CreatedAt(SortNewestFirst(s), t) == CreatedAt(s, t)
  {
    if s != [] {
      SortNewestFirstStable(s[1..], t);
      InsertNewestFirstStable(s[0], SortNewestFirst(s[1..]), t);
    }
  }

  /** userBookings(userId): exactly that user's bookings, most recently
      created first, ties in stored order. */
  function UserBookings(bs: seq<Booking>, userId: string): (r: seq<Booking>)
    ensures forall b :: b in r <==> b in bs && b.userId == userId
    ensures multiset(r) == multiset(BookingsOf(bs, userId))
    ensures NewestFirst(r)
    ensures forall t :: CreatedAt(r, t) == CreatedAt(BookingsOf(bs, userId), t)
    ensures forall t :: CreatedAt(r, t) == BookingsOf(CreatedAt(bs, t), userId)
  {
    var mine := BookingsOf(bs, userId);
    var r := SortNewestFirst(mine);
    assert forall b :: b in r <==> b in multiset(r);
    assert forall b :: b in mine <==> b in multiset(mine);
    forall t ensures CreatedAt(r, t) == CreatedAt(mine, t) {
      SortNewestFirstStable(mine, t);
    }
    forall t ensures CreatedAt(r, t) == BookingsOf(CreatedAt(bs, t), userId) {
      BookingsOfKeepsOrder(bs, userId, t);
    }
    r
  }
}
