/** The user table kept in a spreadsheet (`GoogleSheetsManager`).

    The worksheet is a sequence of rows of cell texts; row 1 of the sheet is
    index 0. A cell past the end of a row reads as "". `None` stands for the
    state in which no worksheet could be opened (`self.sheet is None`). */
module Sheets {
  import opened Wrappers
  import opened Strings
  import opened Numbers
  import opened DateTimes

  type Row = seq<string>
  type Table = seq<Row>

  /** The fifteen columns, in sheet order. */
  const HEADERS: seq<string> := [
    "user_id", "username", "first_name", "last_name", "phone",
    "date_registered", "status", "subscription_start", "subscription_end",
    "payment_status", "last_activity", "materials_viewed",
    "problems_selected", "consultation_requests", "notes"
  ]

  const UserIdCol: nat := 0
  const StatusCol: nat := 6
  const SubscriptionStartCol: nat := 7
  const SubscriptionEndCol: nat := 8
  const PaymentStatusCol: nat := 9
  const LastActivityCol: nat := 10
  const MaterialsViewedCol: nat := 11
  const ProblemsSelectedCol: nat := 12
  const ConsultationRequestsCol: nat := 13

  /** Status labels written by the automated logic. */
  const StatusNew: string := "новый"
  const StatusExpired: string := "истек"
  const StatusActive: string := "активная подписка"

  lemma HeadersDistinct()
    ensures |HEADERS| == 15
    ensures forall i, j :: 0 <= i < j < |HEADERS| ==> HEADERS[i] != HEADERS[j]
  {
  }

  /** The column of a key, counted from 0 (`HEADERS.index(key)`), or `None`
      for a key outside HEADERS (`key in HEADERS` is false). */
  function ColumnOf(key: string): (c: Option<nat>)
    ensures c.Some? ==> c.value < |HEADERS| && HEADERS[c.value] == key
    ensures c.None? ==> key !in HEADERS
  {
    if key == "user_id" then Some(0)
    else if key == "username" then Some(1)
    else if key == "first_name" then Some(2)
    else if key == "last_name" then Some(3)
    else if key == "phone" then Some(4)
    else if key == "date_registered" then Some(5)
    else if key == "status" then Some(6)
    else if key == "subscription_start" then Some(7)
    else if key == "subscription_end" then Some(8)
    else if key == "payment_status" then Some(9)
    else if key == "last_activity" then Some(10)
    else if key == "materials_viewed" then Some(11)
    else if key == "problems_selected" then Some(12)
    else if key == "consultation_requests" then Some(13)
    else if key == "notes" then Some(14)
    else None
  }

  lemma ColumnOfHeader(i: nat)
    requires i < |HEADERS|
    ensures ColumnOf(HEADERS[i]) == Some(i)
  {
    HeadersDistinct();
    assert HEADERS[i] in HEADERS;
  }

  /** A cell as `row_values` shows it: past the end of the row it is "". */
  function Cell(row: Row, i: nat): string
  {
    if i < |row| then row[i] else ""
  }

  /** `update_cell`: writes one cell, padding the row with "" if it is short. */
  function SetCell(row: Row, col: nat, v: string): (r: Row)
    ensures Cell(r, col) == v
    ensures forall j :: j != col ==> Cell(r, j) == Cell(row, j)
  {
    if col < |row| then row[col := v]
    else row + seq(col - |row|, _ => "") + [v]
  }

  /** `sheet.find(key)`: the first row, in row-major order, that has a cell
      equal to `key`. */
  function Find(t: Table, key: string): (r: Option<nat>)
    ensures r.Some? ==> r.value < |t| && key in t[r.value] &&
                        forall j :: 0 <= j < r.value ==> key !in t[j]
    ensures r.None? ==> forall j :: 0 <= j < |t| ==> key !in t[j]
    decreases |t|
  {
    if |t| == 0 then None
    else if key in t[0] then Some(0)
    else match Find(t[1..], key)
      case Some(i) => Some(i + 1)
      case None => None
  }

  /** The text the table stores a user id as: `str(user_id)`. */
  function UserKey(userId: int): string
  {
    IntText(userId)
  }

  /** The row `find(str(user_id))` lands on. */
  function Locate(t: Table, userId: int): Option<nat>
  {
    Find(t, UserKey(userId))
  }

  /** Replacing a found row by one that still holds the key keeps the lookup on it. */
  lemma {:induction false} FindAfterRowChange(t: Table, key: string, r: nat, row: Row)
    requires Find(t, key) == Some(r) && key in row
    ensures Find(t[r := row], key) == Some(r)
    decreases |t|
  {
    var u := t[r := row];
    if r > 0 {
      assert u[1..] == t[1..][r - 1 := row];
      FindAfterRowChange(t[1..], key, r - 1, row);
    }
  }

  /** Appending a row with the key to a table without it makes the new row the one found. */
  lemma {:induction false} FindAppended(t: Table, key: string, row: Row)
    requires Find(t, key).None? && key in row
    ensures Find(t + [row], key) == Some(|t|)
    decreases |t|
  {
    if |t| > 0 {
      assert (t + [row])[1..] == t[1..] + [row];
      FindAppended(t[1..], key, row);
    }
  }

  // ---------------------------------------------------------------------
  // update_user

  /** One `update_cell` of the update loop; keys outside HEADERS are skipped. */
  function ApplyOne(row: Row, update: (string, string)): Row
  {
    match ColumnOf(update.0)
    case Some(c) => SetCell(row, c, update.1)
    case None => row
  }

  /** The update loop, in the order the updates are given. */
  function ApplyUpdates(row: Row, updates: seq<(string, string)>): Row
    decreases |updates|
  {
    if |updates| == 0 then row
    else ApplyOne(ApplyUpdates(row, updates[..|updates| - 1]), updates[|updates| - 1])
  }

  /** The row after `update_user`: the updates, then `last_activity`. */
  function UpdatedRow(row: Row, updates: seq<(string, string)>, stamp: string): Row
  {
    SetCell(ApplyUpdates(row, updates), LastActivityCol, stamp)
  }

  /** The table after `update_user` wrote row `r`. */
  function Touch(t: Table, r: nat, updates: seq<(string, string)>, stamp: string): Table
    requires r < |t|
  {
    t[r := UpdatedRow(t[r], updates, stamp)]
  }

  /** The value the last update for column `c` carries, if any. */
  function LastWrite(updates: seq<(string, string)>, c: nat): Option<string>
    decreases |updates|
  {
    if |updates| == 0 then None
    else if ColumnOf(updates[|updates| - 1].0) == Some(c) then Some(updates[|updates| - 1].1)
    else LastWrite(updates[..|updates| - 1], c)
  }

  lemma {:induction false} ApplyUpdatesCells(row: Row, updates: seq<(string, string)>, c: nat)
    ensures Cell(ApplyUpdates(row, updates), c) ==
      match LastWrite(updates, c) case Some(v) => v case None => Cell(row, c)
    decreases |updates|
  {
    if |updates| > 0 {
      ApplyUpdatesCells(row, updates[..|updates| - 1], c);
    }
  }

  /** What `update_user` leaves in each cell of the row: `last_activity` is the
      stamp; any other column holds the last value written to it by a key in
      HEADERS, or its old value; keys outside HEADERS change nothing. */
  lemma UpdatedRowCells(row: Row, updates: seq<(string, string)>, stamp: string, c: nat)
    ensures Cell(UpdatedRow(row, updates, stamp), c) ==
      if c == LastActivityCol then stamp
      else match LastWrite(updates, c) case Some(v) => v case None => Cell(row, c)
  {
    ApplyUpdatesCells(row, updates, c);
  }

  /** A column no update names keeps its value (unless it is `last_activity`). */
  lemma {:induction false} LastWriteAbsent(updates: seq<(string, string)>, c: nat)
    requires forall k :: 0 <= k < |updates| ==> ColumnOf(updates[k].0) != Some(c)
    ensures LastWrite(updates, c).None?
    decreases |updates|
  {
    if |updates| > 0 {
      LastWriteAbsent(updates[..|updates| - 1], c);
    }
  }

  /** After `update_user` on a row whose first cell is the id, the same row is
      still the one found, as long as no update names `user_id`. */
  lemma TouchKeepsLocation(t: Table, userId: int, r: nat, updates: seq<(string, string)>, stamp: string)
    requires Locate(t, userId) == Some(r) && Cell(t[r], UserIdCol) == UserKey(userId)
    requires forall k :: 0 <= k < |updates| ==> ColumnOf(updates[k].0) != Some(UserIdCol)
    ensures Locate(Touch(t, r, updates, stamp), userId) == Some(r)
    ensures Cell(Touch(t, r, updates, stamp)[r], UserIdCol) == UserKey(userId)
  {
    var row := UpdatedRow(t[r], updates, stamp);
    LastWriteAbsent(updates, UserIdCol);
    UpdatedRowCells(t[r], updates, stamp, UserIdCol);
    assert Cell(row, UserIdCol) == UserKey(userId) != "";
    assert row[UserIdCol] in row;
    FindAfterRowChange(t, UserKey(userId), r, row);
  }

  // ---------------------------------------------------------------------
  // get_user

  const HeaderSet: set<string> := set h | h in HEADERS

  // ---------------------------------------------------------------------
  // add_user

  /** The fields the caller passes in `user_data`; `user_id` is required,
      the others default to "" (`user_data.get(..., '')`). */
  datatype NewUser = NewUser(userId: int, profile: map<string, string>)

  function ProfileField(u: NewUser, key: string): string
  {
    if key in u.profile then u.profile[key] else ""
  }

  /** The row `add_user` appends. */
  function NewRow(u: NewUser, now: DateTime): Row
    requires Valid(now)
  {
    [UserKey(u.userId), ProfileField(u, "username"), ProfileField(u, "first_name"),
     ProfileField(u, "last_name"), ProfileField(u, "phone"),
     Format(now), StatusNew, "", "", "FALSE", Format(now), "0", "", "0", ""]
  }

  /** The table after `add_user`: unchanged when the id is already present. */
  function AddUserTable(t: Table, u: NewUser, now: DateTime): Table
    requires Valid(now)
  {
    if Locate(t, u.userId).Some? then t else t + [NewRow(u, now)]
  }

  /** Adding a user that is present appends nothing. */
  lemma AddUserExisting(t: Table, u: NewUser, now: DateTime)
    requires Valid(now) && Locate(t, u.userId).Some?
    ensures AddUserTable(t, u, now) == t
  {
  }

  /** Adding a new user appends exactly one row of fifteen cells with the
      defaults, and that row is the one found for the id afterwards. */
  lemma AddUserNew(t: Table, u: NewUser, now: DateTime)
    requires Valid(now) && Locate(t, u.userId).None?
    ensures var t' := AddUserTable(t, u, now);
      |t'| == |t| + 1 && t'[..|t|] == t && |t'[|t|]| == |HEADERS| &&
      Locate(t', u.userId) == Some(|t|)
    ensures var row := AddUserTable(t, u, now)[|t|];
      Cell(row, UserIdCol) == UserKey(u.userId) &&
      Cell(row, StatusCol) == StatusNew && Cell(row, PaymentStatusCol) == "FALSE" &&
      Cell(row, SubscriptionStartCol) == "" && Cell(row, SubscriptionEndCol) == "" &&
      Cell(row, MaterialsViewedCol) == "0" && Cell(row, ConsultationRequestsCol) == "0" &&
      Cell(row, ProblemsSelectedCol) == "" && Cell(row, 14) == "" &&
      Cell(row, 5) == Format(now) && Cell(row, LastActivityCol) == Format(now)
  {
    var row := NewRow(u, now);
    assert row[0] == UserKey(u.userId);
    FindAppended(t, UserKey(u.userId), row);
    assert (t + [row])[..|t|] == t;
  }

  /** The lookup searches every cell, not only the `user_id` column: a row
      whose first name is "42" is taken for user 42, so `add_user` for 42
      appends nothing and no row with id 42 is ever created. */
  lemma AddUserCapturedByOtherColumn(now: DateTime)
    requires Valid(now)
    ensures var t := [HEADERS, ["7", "bob", "42"]];
      Locate(t, 42) == Some(1) && Cell(t[1], UserIdCol) != UserKey(42) &&
      AddUserTable(t, NewUser(42, map[]), now) == t
  {
    assert UserKey(42) == "42";
    assert "42" !in HEADERS by {
      forall i | 0 <= i < |HEADERS|
        ensures HEADERS[i] != "42"
      {
        assert |HEADERS[i]| > 2;
      }
    }
    var t := [HEADERS, ["7", "bob", "42"]];
    assert "42" in t[1] by { assert t[1][2] == "42"; }
    assert t[1..] == [t[1]] && t[1..][0] == t[1];
    assert Find(t[1..], "42") == Some(0);
    assert Find(t, "42") == Some(1);
  }

  /** Creation is idempotent: a second `add_user` of the same id changes nothing. */
  lemma AddUserIdempotent(t: Table, u: NewUser, now: DateTime, later: DateTime)
    requires Valid(now) && Valid(later)
    ensures AddUserTable(AddUserTable(t, u, now), u, later) == AddUserTable(t, u, now)
  {
    if Locate(t, u.userId).None? {
      AddUserNew(t, u, now);
    }
  }

  // ---------------------------------------------------------------------
  // check_payment_status

  /** `payment_status.upper() == 'TRUE'` */
  predicate PaidFlag(row: Row)
  {
    Upper(Cell(row, PaymentStatusCol)) == "TRUE"
  }

  /** A non-empty `subscription_end` that parses and that `now` is past;
      an end that does not parse is ignored. */
  predicate Expired(row: Row, now: DateTime)
  {
    var e := Cell(row, SubscriptionEndCol);
    e != "" && Parse(e).Some? && After(now, Parse(e).value)
  }

  /** The corrective write on expiry, in the order the source issues it. */
  const ExpiryUpdates: seq<(string, string)> := [("payment_status", "FALSE"), ("status", StatusExpired)]

  /** The answer of `check_payment_status`. */
  predicate PaymentCheck(sheet: Option<Table>, userId: int, now: DateTime)
  {
    match sheet
    case None => false
    case Some(t) =>
      match Locate(t, userId)
      case None => false
      case Some(r) => PaidFlag(t[r]) && !Expired(t[r], now)
  }

  /** The sheet after `check_payment_status`: written only on expiry. */
  function AfterPaymentCheck(sheet: Option<Table>, userId: int, now: DateTime): Option<Table>
    requires Valid(now)
  {
    match sheet
    case None => None
    case Some(t) =>
      match Locate(t, userId)
      case None => sheet
      case Some(r) => if Expired(t[r], now) then Some(Touch(t, r, ExpiryUpdates, Format(now))) else sheet
  }

  /** Only an expired subscription causes a write. */
  lemma PaymentCheckWritesOnlyOnExpiry(sheet: Option<Table>, userId: int, now: DateTime)
    requires Valid(now)
    ensures AfterPaymentCheck(sheet, userId, now) != sheet ==>
      sheet.Some? && Locate(sheet.value, userId).Some? &&
      Expired(sheet.value[Locate(sheet.value, userId).value], now)
  {
  }

  /** On expiry the row gets `payment_status` "FALSE" and status "истек"
      (whatever they were), keeps its end date, and a repeated check, at the
      same or any later time, answers false again. */
  lemma ExpiryCorrection(t: Table, userId: int, r: nat, now: DateTime, later: DateTime)
    requires Valid(now) && !After(now, later)
    requires Locate(t, userId) == Some(r) && Cell(t[r], UserIdCol) == UserKey(userId)
    requires Expired(t[r], now)
    ensures AfterPaymentCheck(Some(t), userId, now) == Some(Touch(t, r, ExpiryUpdates, Format(now)))
    ensures var t' := Touch(t, r, ExpiryUpdates, Format(now));
      Locate(t', userId) == Some(r) &&
      Cell(t'[r], PaymentStatusCol) == "FALSE" && Cell(t'[r], StatusCol) == StatusExpired &&
      Cell(t'[r], SubscriptionEndCol) == Cell(t[r], SubscriptionEndCol) &&
      !PaymentCheck(Some(t'), userId, later)
  {
    var stamp := Format(now);
    var t' := Touch(t, r, ExpiryUpdates, stamp);
    assert ColumnOf("payment_status") == Some(PaymentStatusCol) by { ColumnOfHeader(PaymentStatusCol); }
    assert ColumnOf("status") == Some(StatusCol) by { ColumnOfHeader(StatusCol); }
    TouchKeepsLocation(t, userId, r, ExpiryUpdates, stamp);
    UpdatedRowCells(t[r], ExpiryUpdates, stamp, PaymentStatusCol);
    UpdatedRowCells(t[r], ExpiryUpdates, stamp, StatusCol);
    UpdatedRowCells(t[r], ExpiryUpdates, stamp, SubscriptionEndCol);
    var e := Parse(Cell(t[r], SubscriptionEndCol)).value;
    assert LastWrite(ExpiryUpdates, SubscriptionEndCol).None? by {
      assert ExpiryUpdates[..1][..0] == [];
      assert LastWrite(ExpiryUpdates, SubscriptionEndCol) == LastWrite(ExpiryUpdates[..1], SubscriptionEndCol)
          == LastWrite(ExpiryUpdates[..1][..0], SubscriptionEndCol);
    }
    assert Cell(t'[r], SubscriptionEndCol) == Cell(t[r], SubscriptionEndCol);
    AfterStrictTotal(later, now, e);
    assert After(later, e);
    assert Expired(t'[r], later);
  }

  /** An end date that does not parse leaves the answer to the payment flag alone. */
  lemma UnparseableEndIgnored(t: Table, userId: int, now: DateTime)
    requires Valid(now) && Locate(t, userId).Some?
    requires Parse(Cell(t[Locate(t, userId).value], SubscriptionEndCol)).None?
    ensures PaymentCheck(Some(t), userId, now) == PaidFlag(t[Locate(t, userId).value])
    ensures AfterPaymentCheck(Some(t), userId, now) == Some(t)
  {
  }

  // ---------------------------------------------------------------------
  // set_subscription

  /** The updates `set_subscription` passes to `update_user`, in order. */
  function SubscriptionUpdates(start: DateTime, end: DateTime): seq<(string, string)>
    requires Valid(start) && Valid(end)
  {
    SubscriptionWrites(Format(start), Format(end))
  }

  /** The same updates over the date texts. */
  function SubscriptionWrites(startText: string, endText: string): seq<(string, string)>
  {
    [("payment_status", "TRUE"), ("status", StatusActive),
     ("subscription_start", startText), ("subscription_end", endText)]
  }

  /** The four cells a subscription writes, and the id cell it leaves. */
  lemma SubscribedRowCells(row: Row, startText: string, endText: string, stamp: string)
    ensures var row' := UpdatedRow(row, SubscriptionWrites(startText, endText), stamp);
      Cell(row', PaymentStatusCol) == "TRUE" && Cell(row', StatusCol) == StatusActive &&
      Cell(row', SubscriptionStartCol) == startText && Cell(row', SubscriptionEndCol) == endText &&
      Cell(row', UserIdCol) == Cell(row, UserIdCol)
  {
    var ups := SubscriptionWrites(startText, endText);
    assert ColumnOf("payment_status") == Some(PaymentStatusCol) by { ColumnOfHeader(PaymentStatusCol); }
    assert ColumnOf("status") == Some(StatusCol) by { ColumnOfHeader(StatusCol); }
    assert ColumnOf("subscription_start") == Some(SubscriptionStartCol) by { ColumnOfHeader(SubscriptionStartCol); }
    assert ColumnOf("subscription_end") == Some(SubscriptionEndCol) by { ColumnOfHeader(SubscriptionEndCol); }
    var u3, u2, u1 := ups[..3], ups[..3][..2], ups[..3][..2][..1];
    assert u1 == [("payment_status", "TRUE")];
    assert LastWrite(ups, SubscriptionEndCol) == Some(endText);
    assert LastWrite(ups, SubscriptionStartCol) == LastWrite(u3, SubscriptionStartCol) == Some(startText);
    assert LastWrite(ups, StatusCol) == LastWrite(u3, StatusCol) == LastWrite(u2, StatusCol) == Some(StatusActive);
    assert LastWrite(ups, PaymentStatusCol) == LastWrite(u3, PaymentStatusCol)
        == LastWrite(u2, PaymentStatusCol) == LastWrite(u1, PaymentStatusCol) == Some("TRUE");
    LastWriteAbsent(ups, UserIdCol);
    UpdatedRowCells(row, ups, stamp, PaymentStatusCol);
    UpdatedRowCells(row, ups, stamp, StatusCol);
    UpdatedRowCells(row, ups, stamp, SubscriptionStartCol);
    UpdatedRowCells(row, ups, stamp, SubscriptionEndCol);
    UpdatedRowCells(row, ups, stamp, UserIdCol);
  }

  /** The end date as written: `start.replace(day=start.day + days)`. */
  function SubscriptionEndAsWritten(start: DateTime, days: int): Option<DateTime>
    requires Valid(start)
  {
    ReplaceDay(start, start.day + days)
  }

  /** The end date evidently intended: `start + timedelta(days=days)`. */
  function SubscriptionEnd(start: DateTime, days: int): Option<DateTime>
    requires Valid(start)
  {
    AddDays(start, days)
  }

  /** The table after a subscription with the given end; `None` when the
      user is not found. */
  function SubscribeTable(t: Table, userId: int, now: DateTime, end: DateTime): Option<Table>
    requires Valid(now) && Valid(end)
  {
    match Locate(t, userId)
    case Some(r) => Some(Touch(t, r, SubscriptionUpdates(now, end), Format(now)))
    case None => None
  }

  /** With the default of 30 days, the end date as written exists only on the
      first day of a 31-day month; on every other day the method fails. */
  lemma SubscriptionEndAsWrittenThirty(start: DateTime)
    requires Valid(start)
    ensures SubscriptionEndAsWritten(start, 30).Some? <==>
      start.day == 1 && DaysInMonth(start.year, start.month) == 31
  {
    ReplaceDayThirty(start);
  }

  /** A concrete failure: on 2024-01-15 a 30-day subscription cannot be set. */
  lemma SubscriptionEndAsWrittenFailsMidMonth()
    ensures var start := DateTime(2024, 1, 15, 10, 0, 0, 0);
      Valid(start) && SubscriptionEndAsWritten(start, 30).None? &&
      SubscriptionEnd(start, 30).Some?
  {
    var start := DateTime(2024, 1, 15, 10, 0, 0, 0);
    assert DaysInMonth(2024, 1) == 31 && DaysInMonth(2024, 2) == 29;
    var jan31, feb1 := start.(day := 31), DateTime(2024, 2, 1, 10, 0, 0, 0);
    AddDaysWithinMonth(start, 16);
    AddDaysSplit(start, 16, 14);
    assert NextDay(jan31) == Some(feb1);
    assert AddDays(jan31, 14) == AddDays(feb1, 13);
    AddDaysWithinMonth(feb1, 13);
  }

  /** A row marked paid whose end parses to a moment not before `later` is active at `later`. */
  lemma ActiveRow(row: Row, end: DateTime, later: DateTime)
    requires Cell(row, PaymentStatusCol) == "TRUE" && Parse(Cell(row, SubscriptionEndCol)) == Some(end)
    requires !After(later, end)
    ensures PaidFlag(row) && !Expired(row, later)
  {
    assert Upper("TRUE") == "TRUE" by { UpperIsTrue("TRUE"); }
  }

  /** The intended behaviour: after a subscription is written, the check
      answers true at every moment up to the stored end (read back to the second). */
  lemma SubscriptionActiveAfterSet(t: Table, userId: int, r: nat, now: DateTime, end: DateTime, later: DateTime)
    requires Valid(now) && Valid(end)
    requires Locate(t, userId) == Some(r) && Cell(t[r], UserIdCol) == UserKey(userId)
    requires !After(later, end.(microsecond := 0))
    ensures SubscribeTable(t, userId, now, end) == Some(Touch(t, r, SubscriptionUpdates(now, end), Format(now)))
    ensures PaymentCheck(SubscribeTable(t, userId, now, end), userId, later)
  {
    var ups := SubscriptionUpdates(now, end);
    var stamp := Format(now);
    SubscribedRowCells(t[r], Format(now), Format(end), stamp);
    var row := UpdatedRow(t[r], ups, stamp);
    var t' := Touch(t, r, ups, stamp);
    assert t' == t[r := row] && t'[r] == row;
    assert Cell(row, UserIdCol) == UserKey(userId) != "";
    assert row[UserIdCol] in row;
    FindAfterRowChange(t, UserKey(userId), r, row);
    assert Locate(t', userId) == Some(r);
    ParseFormat(end);
    ActiveRow(row, end.(microsecond := 0), later);
  }

  /** Checked at the moment it was set, a corrected subscription of at least
      one day is active. */
  lemma SubscriptionActiveWhenSet(t: Table, userId: int, r: nat, now: DateTime, days: int)
    requires Valid(now) && days >= 1 && SubscriptionEnd(now, days).Some?
    requires Locate(t, userId) == Some(r) && Cell(t[r], UserIdCol) == UserKey(userId)
    ensures PaymentCheck(SubscribeTable(t, userId, now, SubscriptionEnd(now, days).value), userId, now)
  {
    var end := SubscriptionEnd(now, days).value;
    AddDaysLater(now, days);
    assert After(end.(microsecond := 0), now) by {
      assert end.year != now.year || end.month != now.month || end.day != now.day;
    }
    AfterStrictTotal(now, end.(microsecond := 0), now);
    SubscriptionActiveAfterSet(t, userId, r, now, end, now);
  }

  // ---------------------------------------------------------------------
  // increment_counter

  /** `user_data.get(field, '0')` */
  function CounterText(row: Row, field: string): string
  {
    match ColumnOf(field)
    case Some(c) => Cell(row, c)
    case None => "0"
  }

  /** The table after `increment_counter`; `None` when it returns False
      (user not found, or the cell is not an integer). */
  function IncrementTable(t: Table, userId: int, field: string, stamp: string): Option<Table>
  {
    match Locate(t, userId)
    case None => None
    case Some(r) =>
      match ParseInt(CounterText(t[r], field))
      case None => None
      case Some(n) => Some(Touch(t, r, [(field, IntText(n + 1))], stamp))
  }

  /** A counter cell holding n holds n + 1 afterwards; a cell that is not
      an integer causes no write. */
  lemma IncrementCounterNext(t: Table, userId: int, r: nat, field: string, c: nat, stamp: string)
    requires Locate(t, userId) == Some(r)
    requires ColumnOf(field) == Some(c) && c != LastActivityCol
    ensures ParseInt(Cell(t[r], c)).None? ==> IncrementTable(t, userId, field, stamp).None?
    ensures ParseInt(Cell(t[r], c)).Some? ==>
      var n := ParseInt(Cell(t[r], c)).value;
      IncrementTable(t, userId, field, stamp) == Some(Touch(t, r, [(field, IntText(n + 1))], stamp)) &&
      ParseInt(Cell(IncrementTable(t, userId, field, stamp).value[r], c)) == Some(n + 1)
  {
    if ParseInt(Cell(t[r], c)).Some? {
      var n := ParseInt(Cell(t[r], c)).value;
      CounterRowNext(t[r], field, c, stamp, n);
    }
  }

  /** Writing the text of `n + 1` to a counter column reads back as `n + 1`. */
  lemma CounterRowNext(row: Row, field: string, c: nat, stamp: string, n: int)
    requires ColumnOf(field) == Some(c) && c != LastActivityCol
    ensures ParseInt(Cell(UpdatedRow(row, [(field, IntText(n + 1))], stamp), c)) == Some(n + 1)
  {
    var ups := [(field, IntText(n + 1))];
    assert LastWrite(ups, c) == Some(IntText(n + 1));
    UpdatedRowCells(row, ups, stamp, c);
    ParseIntText(n + 1);
  }

  /** A field that is not a column reads as "0" and the write is skipped:
      only `last_activity` changes. */
  lemma IncrementUnknownField(t: Table, userId: int, r: nat, field: string, stamp: string)
    requires Locate(t, userId) == Some(r) && field !in HEADERS
    ensures IncrementTable(t, userId, field, stamp).Some?
    ensures forall c :: c != LastActivityCol ==>
      Cell(IncrementTable(t, userId, field, stamp).value[r], c) == Cell(t[r], c)
  {
    assert ParseInt("0") == Some(0);
    forall c | c != LastActivityCol
      ensures Cell(IncrementTable(t, userId, field, stamp).value[r], c) == Cell(t[r], c)
    {
      UpdatedRowCells(t[r], [(field, IntText(1))], stamp, c);
    }
  }

  /** One increment keeps the user's row and adds one to the counter. */
  lemma IncrementStep(t: Table, userId: int, r: nat, field: string, c: nat, stamp: string, m: int)
    requires Locate(t, userId) == Some(r) && Cell(t[r], UserIdCol) == UserKey(userId)
    requires ColumnOf(field) == Some(c) && c != LastActivityCol && c != UserIdCol
    requires ParseInt(Cell(t[r], c)) == Some(m)
    ensures IncrementTable(t, userId, field, stamp).Some?
    ensures var t' := IncrementTable(t, userId, field, stamp).value;
      Locate(t', userId) == Some(r) && Cell(t'[r], UserIdCol) == UserKey(userId) &&
      ParseInt(Cell(t'[r], c)) == Some(m + 1)
  {
    IncrementCounterNext(t, userId, r, field, c, stamp);
    var ups := [(field, IntText(m + 1))];
    TouchKeepsLocation(t, userId, r, ups, stamp);
  }

  /** Consecutive calls of `step`, one per stamp; `None` as soon as one of
      them fails. */
  function Repeat(step: (Table, string) -> Option<Table>, t: Table, stamps: seq<string>): Option<Table>
    decreases |stamps|
  {
    if |stamps| == 0 then Some(t)
    else
      match Repeat(step, t, stamps[..|stamps| - 1])
      case None => None
      case Some(u) => step(u, stamps[|stamps| - 1])
  }

  /** One `increment_counter` call, as a step of `Repeat`. */
  function IncrementCall(userId: int, field: string): (Table, string) -> Option<Table>
  {
    (u: Table, stamp: string) => IncrementTable(u, userId, field, stamp)
  }

  /** Consecutive `increment_counter` calls on the same user and field. */
  function IncrementRepeated(t: Table, userId: int, field: string, stamps: seq<string>): Option<Table>
  {
    Repeat(IncrementCall(userId, field), t, stamps)
  }

  /** The user is found in row `r`, whose id cell is kept, and column `c`
      reads as the integer `k`. */
  predicate CounterAt(t: Table, userId: int, r: nat, c: nat, k: int)
  {
    Locate(t, userId) == Some(r) && r < |t| && Cell(t[r], UserIdCol) == UserKey(userId) &&
    ParseInt(Cell(t[r], c)) == Some(k)
  }

  /** A step that moves every counter at k to k + 1. */
  ghost predicate Advances(step: (Table, string) -> Option<Table>, userId: int, r: nat, c: nat)
  {
    forall u, stamp, k :: CounterAt(u, userId, r, c, k) ==>
      step(u, stamp).Some? && CounterAt(step(u, stamp).value, userId, r, c, k + 1)
  }

  /** Repeating a step that advances the counter N times adds N. */
  lemma {:induction false} RepeatAdvances(step: (Table, string) -> Option<Table>, t: Table, stamps: seq<string>,
                                          userId: int, r: nat, c: nat, m: int)
    requires Advances(step, userId, r, c) && CounterAt(t, userId, r, c, m)
    ensures Repeat(step, t, stamps).Some?
    ensures CounterAt(Repeat(step, t, stamps).value, userId, r, c, m + |stamps|)
    decreases |stamps|
  {
    if |stamps| > 0 {
      var prefix := stamps[..|stamps| - 1];
      RepeatAdvances(step, t, prefix, userId, r, c, m);
      var u := Repeat(step, t, prefix).value;
      assert CounterAt(u, userId, r, c, m + |prefix|);
      assert m + |prefix| + 1 == m + |stamps|;
    }
  }

  /** One `increment_counter` call advances a counter column other than
      `user_id` and `last_activity`. */
  lemma IncrementAdvances(userId: int, r: nat, field: string, c: nat)
    requires ColumnOf(field) == Some(c) && c != LastActivityCol && c != UserIdCol
    ensures Advances(IncrementCall(userId, field), userId, r, c)
  {
    forall u, stamp, k | CounterAt(u, userId, r, c, k)
      ensures IncrementCall(userId, field)(u, stamp).Some?
      ensures CounterAt(IncrementCall(userId, field)(u, stamp).value, userId, r, c, k + 1)
    {
      IncrementStep(u, userId, r, field, c, stamp, k);
    }
  }

  /** N consecutive increments of a counter holding m all succeed and leave
      it at m + N, with the user still in the same row. */
  lemma IncrementRepeatedAdds(t: Table, userId: int, r: nat, field: string, c: nat,
                              stamps: seq<string>, m: int)
    requires ColumnOf(field) == Some(c) && c != LastActivityCol && c != UserIdCol
    requires Locate(t, userId) == Some(r) && Cell(t[r], UserIdCol) == UserKey(userId)
    requires ParseInt(Cell(t[r], c)) == Some(m)
    ensures IncrementRepeated(t, userId, field, stamps).Some?
    ensures var t' := IncrementRepeated(t, userId, field, stamps).value;
      Locate(t', userId) == Some(r) && ParseInt(Cell(t'[r], c)) == Some(m + |stamps|)
  {
    IncrementAdvances(userId, r, field, c);
    RepeatAdvances(IncrementCall(userId, field), t, stamps, userId, r, c, m);
  }

  // ---------------------------------------------------------------------
  // add_problem

  /** `problems.split(', ') if problems else []` */
  function ProblemList(cell: string): seq<string>
  {
    if cell == "" then [] else Split(cell)
  }

  /** The new `problems_selected` text: the problem is appended unless present. */
  function WithProblem(cell: string, problem: string): string
  {
    var list := ProblemList(cell);
    Join(if problem in list then list else list + [problem])
  }

  /** A problem already listed leaves the cell text exactly as it was. */
  lemma WithProblemPresent(cell: string, problem: string)
    requires problem in ProblemList(cell)
    ensures WithProblem(cell, problem) == cell
  {
    JoinSplit(cell);
  }

  /** A new problem is appended at the end; the listed ones keep their order. */
  lemma WithProblemAppends(cell: string, problem: string)
    requires problem != "" && !Contains(problem, Sep)
    requires problem !in ProblemList(cell)
    ensures ProblemList(WithProblem(cell, problem)) == ProblemList(cell) + [problem]
  {
    var list := ProblemList(cell) + [problem];
    if cell != "" {
      SplitPiecesPlain(cell);
    }
    assert forall i :: 0 <= i < |list| ==> !Contains(list[i], Sep);
    SplitJoin(list);
  }

  /** Afterwards the problem is in the list. */
  lemma WithProblemListed(cell: string, problem: string)
    requires problem != "" && !Contains(problem, Sep)
    ensures problem in ProblemList(WithProblem(cell, problem))
  {
    if problem in ProblemList(cell) {
      WithProblemPresent(cell, problem);
    } else {
      WithProblemAppends(cell, problem);
    }
  }

  predicate NoDuplicates(list: seq<string>)
  {
    forall i, j :: 0 <= i < j < |list| ==> list[i] != list[j]
  }

  /** "a, b" splits into "a" and "b"; "a, a, b" into "a", "a" and "b". */
  lemma SplitSeparatorSamples()
    ensures Split("a, b") == ["a", "b"] && Split("a, a, b") == ["a", "a", "b"]
  {
    assert !Contains("a", Sep) by { if Contains("a", Sep) { ContainsNecessary("a", Sep); } }
    assert !Contains("b", Sep) by { if Contains("b", Sep) { ContainsNecessary("b", Sep); } }
    SplitPlain("a");
    SplitPlain("b");
    assert "a, b" == "a" + Sep + "b";
    SplitFirst("a", "b");
    assert "a, a, b" == "a" + Sep + "a, b";
    SplitFirst("a", "a, b");
  }

  /** A problem title holding the separator breaks the list: adding "a, b"
      to "a" lists "a" twice and not "a, b". */
  lemma WithProblemSeparatorTitle()
    ensures WithProblem("a", "a, b") == "a, a, b"
    ensures ProblemList("a, a, b") == ["a", "a", "b"]
    ensures NoDuplicates(ProblemList("a")) && !NoDuplicates(ProblemList("a, a, b"))
    ensures "a, b" !in ProblemList(WithProblem("a", "a, b"))
  {
    SplitSeparatorSamples();
    assert !Contains("a", Sep) by { if Contains("a", Sep) { ContainsNecessary("a", Sep); } }
    SplitPlain("a");
    assert ProblemList("a") == ["a"];
    assert ["a"] + ["a, b"] == ["a", "a, b"];
    assert Join(["a", "a, b"]) == "a" + Sep + "a, b";
    assert ProblemList("a, a, b")[0] == ProblemList("a, a, b")[1];
  }

  /** A title holding the separator is never found listed, so every call
      appends it again and the cell grows. */
  lemma SeparatorTitleAlwaysAppended(cell: string, problem: string)
    requires Contains(problem, Sep)
    ensures problem !in ProblemList(cell)
    ensures WithProblem(cell, problem) == if cell == "" then problem else cell + Sep + problem
    ensures |WithProblem(cell, problem)| > |cell|
  {
    ContainsNecessary(problem, Sep);
    if cell != "" {
      var list := Split(cell);
      SplitPiecesPlain(cell);
      JoinSnoc(list, problem);
      JoinSplit(cell);
    }
  }

  /** No duplicate is introduced. */
  lemma WithProblemNoDuplicates(cell: string, problem: string)
    requires problem != "" && !Contains(problem, Sep)
    requires NoDuplicates(ProblemList(cell))
    ensures NoDuplicates(ProblemList(WithProblem(cell, problem)))
  {
    if problem in ProblemList(cell) {
      WithProblemPresent(cell, problem);
    } else {
      WithProblemAppends(cell, problem);
    }
  }

  /** The table after `add_problem`; `None` when the user is not found. */
  function AddProblemTable(t: Table, userId: int, problem: string, now: DateTime): Option<Table>
    requires Valid(now)
  {
    match Locate(t, userId)
    case None => None
    case Some(r) =>
      Some(Touch(t, r, [("problems_selected", WithProblem(Cell(t[r], ProblemsSelectedCol), problem))], Format(now)))
  }

  /** `add_problem` stores `WithProblem` of the old cell in `problems_selected`. */
  lemma AddProblemStores(t: Table, userId: int, problem: string, now: DateTime)
    requires Valid(now) && Locate(t, userId).Some?
    ensures var r := Locate(t, userId).value;
      Cell(AddProblemTable(t, userId, problem, now).value[r], ProblemsSelectedCol) ==
        WithProblem(Cell(t[r], ProblemsSelectedCol), problem)
  {
    var r := Locate(t, userId).value;
    ColumnOfHeader(ProblemsSelectedCol);
    UpdatedRowCells(t[r], [("problems_selected", WithProblem(Cell(t[r], ProblemsSelectedCol), problem))],
                    Format(now), ProblemsSelectedCol);
  }

  // ---------------------------------------------------------------------
  // The manager object

  class GoogleSheetsManager {
    /** `self.sheet`: `None` when no worksheet is connected. */
    var sheet: Option<Table>

    constructor(sheet: Option<Table>)
      ensures this.sheet == sheet
    {
      this.sheet := sheet;
    }

    /** `get_user`: the row found for the id as a dict over HEADERS, padded with "". */
    method GetUser(userId: int) returns (user: Option<map<string, string>>)
      ensures user.Some? <==> sheet.Some? && Locate(sheet.value, userId).Some?
      ensures user.Some? ==>
        var row := sheet.value[Locate(sheet.value, userId).value];
        user.value.Keys == HeaderSet &&
        (forall i :: 0 <= i < |HEADERS| ==> user.value[HEADERS[i]] == Cell(row, i)) &&
        (forall i :: |row| <= i < |HEADERS| ==> user.value[HEADERS[i]] == "")
    {
      if sheet.None? {
        return None;
      }
      var found := Find(sheet.value, UserKey(userId));
      if found.None? {
        return None;
      }
      var row := sheet.value[found.value];
      var data: map<string, string> := map[];
      var i := 0;
      HeadersDistinct();
      while i < |HEADERS|
        invariant 0 <= i <= |HEADERS|
        invariant forall k :: k in data <==> k in HEADERS[..i]
        invariant forall j :: 0 <= j < i ==> data[HEADERS[j]] == Cell(row, j)
      {
        assert HEADERS[..i + 1] == HEADERS[..i] + [HEADERS[i]];
        data := data[HEADERS[i] := if i < |row| then row[i] else ""];
        i := i + 1;
      }
      assert HEADERS[..i] == HEADERS;
      return Some(data);
    }

    /** `update_user` */
    method UpdateUser(userId: int, updates: seq<(string, string)>, now: DateTime) returns (ok: bool)
      requires Valid(now)
      modifies this
      ensures ok == (old(sheet).Some? && Locate(old(sheet).value, userId).Some?)
      ensures sheet == if ok then Some(Touch(old(sheet).value, Locate(old(sheet).value, userId).value, updates, Format(now)))
                       else old(sheet)
    {
      if sheet.None? {
        return false;
      }
      var t := sheet.value;
      var found := Find(t, UserKey(userId));
      if found.None? {
        return false;
      }
      var r := found.value;
      var i := 0;
      assert t[r := ApplyUpdates(t[r], updates[..0])] == t;
      while i < |updates|
        invariant 0 <= i <= |updates|
        invariant sheet == Some(t[r := ApplyUpdates(t[r], updates[..i])])
      {
        ghost var done := ApplyUpdates(t[r], updates[..i]);
        var (key, value) := updates[i];
        var col := ColumnOf(key);
        if col.Some? {
          sheet := Some(sheet.value[r := SetCell(sheet.value[r], col.value, value)]);
          assert t[r := done][r := SetCell(done, col.value, value)] == t[r := SetCell(done, col.value, value)];
        }
        assert updates[..i + 1][..i] == updates[..i];
        assert ApplyUpdates(t[r], updates[..i + 1]) == ApplyOne(done, updates[i]);
        i := i + 1;
      }
      assert updates[..|updates|] == updates;
      ghost var done := ApplyUpdates(t[r], updates);
      sheet := Some(sheet.value[r := SetCell(sheet.value[r], LastActivityCol, Format(now))]);
      assert t[r := done][r := SetCell(done, LastActivityCol, Format(now))] == t[r := UpdatedRow(t[r], updates, Format(now))];
      return true;
    }

    /** `add_user`: reports success and appends nothing when the id is already found. */
    method AddUser(u: NewUser, now: DateTime) returns (ok: bool)
      requires Valid(now)
      modifies this
      ensures ok == old(sheet).Some?
      ensures sheet == if ok then Some(AddUserTable(old(sheet).value, u, now)) else old(sheet)
    {
      if sheet.None? {
        return false;
      }
      var existing := GetUser(u.userId);
      if existing.Some? {
        return true;
      }
      sheet := Some(sheet.value + [NewRow(u, now)]);
      return true;
    }

    /** `check_payment_status`, with the lazy expiry write. */
    method CheckPaymentStatus(userId: int, now: DateTime) returns (active: bool)
      requires Valid(now)
      modifies this
      ensures active == PaymentCheck(old(sheet), userId, now)
      ensures sheet == AfterPaymentCheck(old(sheet), userId, now)
    {
      if sheet.None? {
        return false;
      }
      var user := GetUser(userId);
      if user.None? {
        return false;
      }
      var data := user.value;
      assert HEADERS[PaymentStatusCol] == "payment_status" && HEADERS[SubscriptionEndCol] == "subscription_end";
      var paymentStatus := Upper(if "payment_status" in data then data["payment_status"] else "FALSE");
      var subscriptionEnd := if "subscription_end" in data then data["subscription_end"] else "";
      if subscriptionEnd != "" {
        var endDate := Parse(subscriptionEnd);
        if endDate.Some? && After(now, endDate.value) {
          var _ := UpdateUser(userId, ExpiryUpdates, now);
          return false;
        }
      }
      return paymentStatus == "TRUE";
    }

    /** `set_subscription` as written: the end date keeps the month and adds
        `days` to the day of the month, failing with no write when that day
        does not exist. */
    method SetSubscription(userId: int, days: int, now: DateTime) returns (ok: bool)
      requires Valid(now)
      modifies this
      ensures ok == (old(sheet).Some? && SubscriptionEndAsWritten(now, days).Some? &&
                     Locate(old(sheet).value, userId).Some?)
      ensures sheet == if ok then SubscribeTable(old(sheet).value, userId, now, SubscriptionEndAsWritten(now, days).value)
                       else old(sheet)
    {
      if sheet.None? {
        return false;
      }
      var endDate := ReplaceDay(now, now.day + days);
      if endDate.None? {
        return false;
      }
      ok := UpdateUser(userId, SubscriptionUpdates(now, endDate.value), now);
    }

    /** `set_subscription` with the end date `now + timedelta(days=days)`. */
    method SetSubscriptionCorrected(userId: int, days: int, now: DateTime) returns (ok: bool)
      requires Valid(now)
      modifies this
      ensures ok == (old(sheet).Some? && SubscriptionEnd(now, days).Some? &&
                     Locate(old(sheet).value, userId).Some?)
      ensures sheet == if ok then SubscribeTable(old(sheet).value, userId, now, SubscriptionEnd(now, days).value)
                       else old(sheet)
    {
      if sheet.None? {
        return false;
      }
      var endDate := AddDays(now, days);
      if endDate.None? {
        return false;
      }
      ok := UpdateUser(userId, SubscriptionUpdates(now, endDate.value), now);
    }

    /** `increment_counter` */
    method IncrementCounter(userId: int, field: string, now: DateTime) returns (ok: bool)
      requires Valid(now)
      modifies this
      ensures ok == (old(sheet).Some? && IncrementTable(old(sheet).value, userId, field, Format(now)).Some?)
      ensures sheet == if ok then IncrementTable(old(sheet).value, userId, field, Format(now)) else old(sheet)
    {
      if sheet.None? {
        return false;
      }
      var user := GetUser(userId);
      if user.None? {
        return false;
      }
      var data := user.value;
      assert ColumnOf(field).Some? ==> HEADERS[ColumnOf(field).value] == field;
      var current := ParseInt(if field in data then data[field] else "0");
      if current.None? {
        return false;
      }
      ok := UpdateUser(userId, [(field, IntText(current.value + 1))], now);
    }

    /** `add_problem` */
    method AddProblem(userId: int, problem: string, now: DateTime) returns (ok: bool)
      requires Valid(now)
      modifies this
      ensures ok == (old(sheet).Some? && Locate(old(sheet).value, userId).Some?)
      ensures sheet == if ok then AddProblemTable(old(sheet).value, userId, problem, now) else old(sheet)
    {
      if sheet.None? {
        return false;
      }
      var user := GetUser(userId);
      if user.None? {
        return false;
      }
      var data := user.value;
      assert HEADERS[ProblemsSelectedCol] == "problems_selected";
      var problems := if "problems_selected" in data then data["problems_selected"] else "";
      var problemsList := if problems != "" then Split(problems) else [];
      if problem !in problemsList {
        problemsList := problemsList + [problem];
      }
      ok := UpdateUser(userId, [("problems_selected", Join(problemsList))], now);
    }
  }
}
