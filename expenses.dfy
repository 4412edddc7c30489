/** The in-memory expense collection: its records, and the transformations the `add`,
    `delete`, `list` and `summary` handlers apply to it once it has been read from the
    backing file. */
module Expenses {
  import opened Wrappers
  import Text

  /** One recorded expense. `amount` is a decimal number; `date` is text, normally
      `YYYY-MM-DD`, but a record read back from the file is taken as it is. */
  datatype Expense = Expense(id: string, description: string, amount: real, date: string)

  /** No two records share an id. */
  predicate UniqueIds(s: seq<Expense>)
  {
    forall i, j :: 0 <= i < |s| && 0 <= j < |s| && s[i].id == s[j].id ==> i == j
  }

  /** Every amount is at least zero. */
  predicate NonNegativeAmounts(s: seq<Expense>)
  {
    forall i :: 0 <= i < |s| ==> s[i].amount >= 0.0
  }

  /** The invariants the collection is meant to keep: unique ids and no negative amount. */
  predicate Valid(s: seq<Expense>)
  {
    UniqueIds(s) && NonNegativeAmounts(s)
  }

  predicate HasId(s: seq<Expense>, id: string)
  {
    exists i :: 0 <= i < |s| && s[i].id == id
  }

  // ---------------------------------------------------------------- add

  /** `timestamp.split('T')[0]`: the calendar-date part of an ISO-8601 timestamp, that is
      the text before its first `T`. */
  function DateOf(timestamp: string): (date: string)
    ensures |date| <= |timestamp| && date == timestamp[..|date|]
    ensures 'T' !in date
    ensures |date| == |timestamp| || timestamp[|date|] == 'T'
  {
    Text.FirstPiece(timestamp, 'T');
    Text.Split(timestamp, 'T')[0]
  }

  /** A date that was cut from a timestamp of the form `Y-M-DThh:mm:ss...` is `Y-M-D`.*/
  lemma DateOfIsoTimestamp(ymd: string, rest: string)
    requires 'T' !in ymd
    ensures DateOf(ymd + "T" + rest) == ymd
  {
    Text.SplitAfterPiece(ymd, rest, 'T');
  }

  /** The record `add` builds, appended to a valid collection, keeps it valid when its id
      is new and its amount is not negative. Whether `uuidv4()` gives a new id is not
      something the tracker checks. */
  lemma AppendKeepsValid(s: seq<Expense>, id: string, description: string, amount: real, timestamp: string)
    requires Valid(s) && !HasId(s, id) && amount >= 0.0
    ensures Valid(s + [Expense(id, description, amount, DateOf(timestamp))])
  {
  }

  // ---------------------------------------------------------------- delete

  /** `expenses.findIndex(e => e.id === id)`: the position of the first record with the
      id, or -1 when there is none. */
  method FindIndex(s: seq<Expense>, id: string) returns (k: int)
    ensures -1 <= k < |s|
    ensures k == -1 <==> !HasId(s, id)
    ensures 0 <= k ==> s[k].id == id && forall i :: 0 <= i < k ==> s[i].id != id
    ensures HasId(s, id) ==> k == FirstIndex(s, id)
  {
    k := 0;
    while k < |s|
      invariant 0 <= k <= |s|
      invariant forall i :: 0 <= i < k ==> s[i].id != id
    {
      if s[k].id == id {
        return;
      }
      k := k + 1;
    }
    k := -1;
  }

  /** Reference definition of deleting by id: drop the first record with that id and
      keep everything else, in order. */
  function RemoveFirst(s: seq<Expense>, id: string): seq<Expense>
  {
    if s == [] then []
    else if s[0].id == id then s[1..]
    else [s[0]] + RemoveFirst(s[1..], id)
  }

  /** Deleting an id that no record has changes nothing. */
  lemma {:induction false} RemoveFirstAbsent(s: seq<Expense>, id: string)
    requires !HasId(s, id)
    ensures RemoveFirst(s, id) == s
  {
    if s != [] {
      assert !HasId(s[1..], id) by {
        forall i | 0 <= i < |s[1..]| ensures s[1..][i].id != id {
          assert s[1..][i] == s[i + 1];
        }
      }
      RemoveFirstAbsent(s[1..], id);
      assert s == [s[0]] + s[1..];
    }
  }

  /** Deleting an id whose first record sits at `k` is `splice(k, 1)`: the records
      before `k` followed by those after it. */
  lemma {:induction false} RemoveFirstAt(s: seq<Expense>, id: string, k: nat)
    requires k < |s| && s[k].id == id
    requires forall i :: 0 <= i < k ==> s[i].id != id
    ensures RemoveFirst(s, id) == s[..k] + s[k + 1..]
  {
    if k == 0 {
      assert s[..0] + s[1..] == s[1..];
    } else {
      var t := s[1..];
      RemoveFirstAt(t, id, k - 1);
      assert t[..k - 1] + t[k..] == s[1..k] + s[k + 1..];
      assert s[..k] == [s[0]] + s[1..k];
    }
  }

  /** The position of the first record with the id, when some record has it. */
  function FirstIndex(s: seq<Expense>, id: string): (k: nat)
    requires HasId(s, id)
    ensures k < |s| && s[k].id == id
    ensures forall i :: 0 <= i < k ==> s[i].id != id
    decreases |s|
  {
    if s[0].id == id then 0
    else
      var j :| 0 <= j < |s| && s[j].id == id;
      assert s[1..][j - 1].id == id;
      1 + FirstIndex(s[1..], id)
  }

  /** Deleting an id that some record has removes the first such record and keeps the
      rest in order. */
  lemma RemoveFirstPresent(s: seq<Expense>, id: string)
    requires HasId(s, id)
    ensures RemoveFirst(s, id) == s[..FirstIndex(s, id)] + s[FirstIndex(s, id) + 1..]
  {
    RemoveFirstAt(s, id, FirstIndex(s, id));
  }

  /** What `splice(k, 1)` leaves: one record fewer, the records before `k` where they
      were, those after it one place down, and `s[k]` the only record lost. */
  lemma SpliceEffect(s: seq<Expense>, k: nat)
    requires k < |s|
    ensures var r := s[..k] + s[k + 1..];
      && |r| == |s| - 1
      && (forall i :: 0 <= i < k ==> r[i] == s[i])
      && (forall i :: k <= i < |r| ==> r[i] == s[i + 1])
      && multiset(r) + multiset{s[k]} == multiset(s)
  {
    assert s == s[..k] + [s[k]] + s[k + 1..];
  }

  /** `splice(k, 1)` keeps a valid collection valid and, as ids are unique, leaves no
      record with the id of the one it removed. */
  lemma SpliceKeepsValid(s: seq<Expense>, k: nat)
    requires Valid(s) && k < |s|
    ensures Valid(s[..k] + s[k + 1..])
    ensures !HasId(s[..k] + s[k + 1..], s[k].id)
  {
    var r := s[..k] + s[k + 1..];
    forall i | 0 <= i < |r|
      ensures r[i] == s[if i < k then i else i + 1]
    {
    }
    forall i, j | 0 <= i < |r| && 0 <= j < |r| && r[i].id == r[j].id
      ensures i == j
    {
      assert s[if i < k then i else i + 1].id == s[if j < k then j else j + 1].id;
    }
  }

  /** Deleting keeps a valid collection valid, and since ids are unique, no record with
      the deleted id remains. */
  lemma DeleteKeepsValid(s: seq<Expense>, id: string)
    requires Valid(s)
    ensures Valid(RemoveFirst(s, id))
    ensures !HasId(RemoveFirst(s, id), id)
  {
    if HasId(s, id) {
      RemoveFirstPresent(s, id);
      SpliceKeepsValid(s, FirstIndex(s, id));
    } else {
      RemoveFirstAbsent(s, id);
    }
  }

  // ---------------------------------------------------------------- summary

  /** `date.split('-')[1]`: the month segment of a date, `None` (JavaScript's
      `undefined`) when the date has no `-`. */
  function MonthSegment(date: string): Option<string>
  {
    var parts := Text.Split(date, '-');
    if |parts| >= 2 then Some(parts[1]) else None
  }

  /** The month segment of `Y-M-D` is `M`, exactly as written: a zero-padded month stays
      zero-padded. */
  lemma MonthSegmentOfDate(y: string, m: string, d: string)
    requires '-' !in y && '-' !in m
    ensures MonthSegment(y + "-" + m + "-" + d) == Some(m)
  {
    Text.SplitAfterPiece(m, d, '-');
    assert y + "-" + m + "-" + d == y + ['-'] + (m + ['-'] + d);
    Text.SplitAfterPiece(y, m + "-" + d, '-');
  }

  /** A date has no month segment exactly when it has no `-`. */
  lemma MonthSegmentAbsent(date: string)
    ensures MonthSegment(date) == None <==> '-' !in date
  {
    Text.SplitPieces(date, '-');
  }

  /** The property name under which `acc[month]` stores the total: JavaScript turns an
      `undefined` key into the text "undefined". */
  function KeyOf(month: Option<string>): string
  {
    match month
    case Some(m) => m
    case None => "undefined"
  }

  /** The test `expenseMonth === month`: an exact comparison of two values that are each
      text or `undefined`. */
  predicate InMonth(e: Expense, month: Option<string>)
  {
    MonthSegment(e.date) == month
  }

  /** `acc[key] || 0`: the entry under the key, or 0 when there is none. */
  function EntryOrZero(acc: map<string, real>, key: string): real
  {
    if key in acc then acc[key] else 0.0
  }

  /** One step of the reduction: a record in the month adds its amount to the entry under
      the month's key (starting from 0 when the entry is missing); any other record leaves
      the accumulator as it was. */
  function Step(acc: map<string, real>, e: Expense, month: Option<string>): map<string, real>
  {
    if InMonth(e, month) then
      var key := KeyOf(month);
      acc[key := EntryOrZero(acc, key) + e.amount]
    else acc
  }

  /** `expenses.reduce(Step, acc)`: the steps taken in storage order. */
  function Reduce(acc: map<string, real>, s: seq<Expense>, month: Option<string>): map<string, real>
    decreases |s|
  {
    if s == [] then acc else Reduce(Step(acc, s[0], month), s[1..], month)
  }

  /** The summary of a collection for a month, starting from the empty object `{}`. */
  function Summarize(s: seq<Expense>, month: Option<string>): map<string, real>
  {
    Reduce(map[], s, month)
  }

  /** The records in the month, in storage order. */
  function InMonthRecords(s: seq<Expense>, month: Option<string>): seq<Expense>
    decreases |s|
  {
    if s == [] then []
    else (if InMonth(s[0], month) then [s[0]] else []) + InMonthRecords(s[1..], month)
  }

  /** The filter keeps a record exactly when it is in the month. */
  lemma {:induction false} InMonthRecordsMembers(s: seq<Expense>, month: Option<string>)
    ensures forall e :: e in InMonthRecords(s, month) <==> e in s && InMonth(e, month)
    decreases |s|
  {
    if s != [] {
      InMonthRecordsMembers(s[1..], month);
      assert s == [s[0]] + s[1..];
    }
  }

  /** The sum of the amounts. */
  function Sum(s: seq<Expense>): real
    decreases |s|
  {
    if s == [] then 0.0 else s[0].amount + Sum(s[1..])
  }

  /** One step on a record in the month, from an accumulator that holds nothing but
      (possibly) the month's key, leaves exactly that key, grown by the amount. */
  lemma StepInMonth(acc: map<string, real>, e: Expense, month: Option<string>)
    requires acc.Keys <= {KeyOf(month)} && InMonth(e, month)
    ensures Step(acc, e, month) == map[KeyOf(month) := EntryOrZero(acc, KeyOf(month)) + e.amount]
  {
  }

  /** The reduction, from an accumulator that holds nothing but (possibly) the month's
      key, comes back untouched when no record is in the month, and otherwise has that
      one key, grown by the sum of the month's amounts. */
  lemma {:induction false} ReduceTotals(acc: map<string, real>, s: seq<Expense>, month: Option<string>)
    requires acc.Keys <= {KeyOf(month)}
    ensures InMonthRecords(s, month) == [] ==> Reduce(acc, s, month) == acc
    ensures InMonthRecords(s, month) != [] ==>
      Reduce(acc, s, month)
        == map[KeyOf(month) := EntryOrZero(acc, KeyOf(month)) + Sum(InMonthRecords(s, month))]
    decreases |s|
  {
    if s != [] {
      var key := KeyOf(month);
      var acc' := Step(acc, s[0], month);
      var m := InMonthRecords(s[1..], month);
      assert Reduce(acc, s, month) == Reduce(acc', s[1..], month);
      if InMonth(s[0], month) {
        var base := EntryOrZero(acc, key);
        StepInMonth(acc, s[0], month);
        assert EntryOrZero(acc', key) == base + s[0].amount;
        ReduceTotals(acc', s[1..], month);
        assert InMonthRecords(s, month) == [s[0]] + m;
        assert Sum(InMonthRecords(s, month)) == s[0].amount + Sum(m) by {
          assert ([s[0]] + m)[1..] == m;
        }
        if m == [] {
          assert Reduce(acc', s[1..], month) == acc';
          assert acc' == map[key := base + s[0].amount];
        } else {
          assert Reduce(acc, s, month) == map[key := (base + s[0].amount) + Sum(m)];
        }
      } else {
        assert acc' == acc;
        assert InMonthRecords(s, month) == m;
        ReduceTotals(acc, s[1..], month);
      }
    }
  }

  /** When no record is in the month, the filter keeps nothing. */
  lemma {:induction false} NoneInMonth(s: seq<Expense>, month: Option<string>)
    requires forall i :: 0 <= i < |s| ==> !InMonth(s[i], month)
    ensures InMonthRecords(s, month) == []
    decreases |s|
  {
    if s != [] {
      NoneInMonth(s[1..], month);
    }
  }

  /** The summary for a month: it is the empty object when no record is in the month,
      and otherwise it has the one key of the month, holding the sum of exactly the
      amounts of the records in the month. */
  lemma SummarizeTotals(s: seq<Expense>, month: Option<string>)
    ensures Summarize(s, month)
      == if InMonthRecords(s, month) == [] then map[]
         else map[KeyOf(month) := Sum(InMonthRecords(s, month))]
  {
    ReduceTotals(map[], s, month);
    assert EntryOrZero(map[], KeyOf(month)) == 0.0;
  }

  /** Without a month, a record is counted only when its date has no `-`; so when every
      date has one (as every date made by `add` from an ISO timestamp has), the summary
      stays the empty object. */
  lemma SummarizeWithoutMonth(s: seq<Expense>)
    requires forall i :: 0 <= i < |s| ==> '-' in s[i].date
    ensures Summarize(s, None) == map[]
  {
    forall i | 0 <= i < |s| ensures !InMonth(s[i], None) {
      MonthSegmentAbsent(s[i].date);
    }
    NoneInMonth(s, None);
    SummarizeTotals(s, None);
  }

  /** The month is compared as text: when every date's month segment is zero-padded
      (`"08"`), asking for the unpadded month (`"8"`) finds nothing. */
  lemma UnpaddedMonthMatchesNothing(s: seq<Expense>, digit: char)
    requires forall i :: 0 <= i < |s| ==> MonthSegment(s[i].date) == Some(['0', digit])
    ensures Summarize(s, Some([digit])) == map[]
  {
    assert ['0', digit] != [digit];
    NoneInMonth(s, Some([digit]));
    SummarizeTotals(s, Some([digit]));
  }

  /** One expense of 50 dated 2024-08-15: the summary for "08" holds 50 under "08", and
      the summary for "8" is empty. */
  lemma AugustScenario(id: string, description: string)
    ensures Summarize([Expense(id, description, 50.0, "2024-08-15")], Some("08")) == map["08" := 50.0]
    ensures Summarize([Expense(id, description, 50.0, "2024-08-15")], Some("8")) == map[]
  {
    var s := [Expense(id, description, 50.0, "2024-08-15")];
    MonthSegmentOfDate("2024", "08", "15");
    assert s[0].date == "2024" + "-" + "08" + "-" + "15";
    SummarizeTotals(s, Some("08"));
    assert InMonthRecords(s, Some("08")) == s;
    assert Sum(s) == 50.0;
    UnpaddedMonthMatchesNothing(s, '8');
  }

  // ---------------------------------------------------------------- list

  /** One printed line of the `list` output: its row number and the record's fields. */
  datatype Row = Row(number: nat, date: string, description: string, amount: real)

  /** The rows for `s`, numbered from `first` on. */
  function RowsFrom(s: seq<Expense>, first: nat): (rows: seq<Row>)
    ensures |rows| == |s|
    ensures forall i :: 0 <= i < |s| ==>
      rows[i] == Row(first + i, s[i].date, s[i].description, s[i].amount)
    decreases |s|
  {
    if s == [] then []
    else [Row(first, s[0].date, s[0].description, s[0].amount)] + RowsFrom(s[1..], first + 1)
  }

  /** `expenses.forEach((e, index) => ... index + 1 ...)`: one row per record, in storage
      order, numbered from 1. */
  function ListRows(s: seq<Expense>): (rows: seq<Row>)
    ensures |rows| == |s|
    ensures forall i :: 0 <= i < |s| ==> rows[i].number == i + 1
    ensures forall i :: 0 <= i < |s| ==>
      rows[i].date == s[i].date && rows[i].description == s[i].description
      && rows[i].amount == s[i].amount
  {
    RowsFrom(s, 1)
  }
}
