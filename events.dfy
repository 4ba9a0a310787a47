/**
  The historical event table and its lookup (src/db.rs): a table of dated
  events sorted by their derived order, searched for the binary-search
  insertion point of a date; the index is clamped to the last event and that
  one event is returned.
 */
module Events {
  import opened Calendar

  datatype Event = Event(date: Date, info: string)

  // ---------------------------------------------------------------- ordering

  /** Rust's `Ord` on `String`: lexicographic, a proper prefix coming first. */
  predicate StringLt(a: string, b: string)
  {
    |b| > 0 && (|a| == 0 || a[0] < b[0] || (a[0] == b[0] && StringLt(a[1..], b[1..])))
  }

  /** The derived `Ord` on `Event`: by date, then by text. */
  predicate EventLt(a: Event, b: Event)
  {
    DateLt(a.date, b.date) || (a.date == b.date && StringLt(a.info, b.info))
  }

  predicate EventLe(a: Event, b: Event)
  {
    EventLt(a, b) || a == b
  }

  lemma {:induction false} StringLtIrreflexive(a: string)
    ensures !StringLt(a, a)
  {
    if |a| > 0 {
      StringLtIrreflexive(a[1..]);
    }
  }

  lemma {:induction false} StringLtTransitive(a: string, b: string, c: string)
    requires StringLt(a, b) && StringLt(b, c)
    ensures StringLt(a, c)
  {
    if |a| > 0 && a[0] == b[0] && b[0] == c[0] {
      StringLtTransitive(a[1..], b[1..], c[1..]);
    }
  }

  lemma {:induction false} StringLtTotal(a: string, b: string)
    ensures StringLt(a, b) || a == b || StringLt(b, a)
  {
    if |a| > 0 && |b| > 0 && a[0] == b[0] {
      StringLtTotal(a[1..], b[1..]);
      if a[1..] == b[1..] {
        assert a == [a[0]] + a[1..] && b == [b[0]] + b[1..];
      }
    }
  }

  /** The derived order on events is a strict total order. */
  lemma EventOrderIsTotal(a: Event, b: Event, c: Event)
    ensures !EventLt(a, a)
    ensures EventLt(a, b) ==> !EventLt(b, a)
    ensures EventLt(a, b) && EventLt(b, c) ==> EventLt(a, c)
    ensures EventLt(a, b) || a == b || EventLt(b, a)
  {
    DateOrderIsTotal(a.date, b.date, c.date);
    StringLtIrreflexive(a.info);
    StringLtTotal(a.info, b.info);
    if StringLt(a.info, b.info) && StringLt(b.info, a.info) {
      StringLtTransitive(a.info, b.info, a.info);
    }
    if StringLt(a.info, b.info) && StringLt(b.info, c.info) {
      StringLtTransitive(a.info, b.info, c.info);
    }
  }

  lemma EventLeAntisymmetric(a: Event, b: Event)
    requires EventLe(a, b) && EventLe(b, a)
    ensures a == b
  {
    EventOrderIsTotal(a, b, a);
  }

  /** Ascending in the derived order, as `Vec::sort` leaves it. */
  predicate Sorted(s: seq<Event>)
  {
    forall i, j :: 0 <= i < j < |s| ==> EventLe(s[i], s[j])
  }

  /** Ascending by date, which is what `binary_search_by_key` on the date relies on. */
  predicate SortedByDate(s: seq<Event>)
  {
    forall i, j :: 0 <= i < j < |s| ==> DateLe(s[i].date, s[j].date)
  }

  lemma SortedIsSortedByDate(s: seq<Event>)
    requires Sorted(s)
    ensures SortedByDate(s)
  {
  }

  lemma SortedHeadIsLeast(a: seq<Event>, x: Event)
    requires Sorted(a) && x in multiset(a)
    ensures |a| > 0 && EventLe(a[0], x)
  {
    var i :| 0 <= i < |a| && a[i] == x;
  }

  lemma SortedTail(a: seq<Event>)
    requires Sorted(a) && |a| > 0
    ensures Sorted(a[1..])
  {
  }

  lemma TailMultisetsEqual(a: seq<Event>, b: seq<Event>)
    requires |a| > 0 && |b| > 0 && a[0] == b[0] && multiset(a) == multiset(b)
    ensures multiset(a[1..]) == multiset(b[1..])
  {
    assert a == [a[0]] + a[1..];
    assert b == [b[0]] + b[1..];
    assert multiset(a[1..]) == multiset(a) - multiset{a[0]};
    assert multiset(b[1..]) == multiset(b) - multiset{b[0]};
  }

  /** A sorted arrangement of given events is unique, so it is what sorting produces. */
  lemma {:induction false} SortedUnique(a: seq<Event>, b: seq<Event>)
    requires Sorted(a) && Sorted(b) && multiset(a) == multiset(b)
    ensures a == b
    decreases |a|
  {
    if |a| == 0 {
      assert |b| == |multiset(b)| == 0;
    } else {
      assert a[0] in multiset(a);
      SortedHeadIsLeast(b, a[0]);
      SortedHeadIsLeast(a, b[0]);
      EventLeAntisymmetric(a[0], b[0]);
      SortedTail(a);
      SortedTail(b);
      TailMultisetsEqual(a, b);
      SortedUnique(a[1..], b[1..]);
      assert a == [a[0]] + a[1..] && b == [b[0]] + b[1..];
    }
  }

  // ---------------------------------------------------------------- the table

  const Caesar := Event(Date(-44, March, 15), "Julius Caesar assasinated")
  const SeptemberEleven := Event(Date(2001, September, 11), "9/11")
  const PearlHarbour := Event(Date(1941, December, 7), "Pearl Harbour attacked")

  /** The events in the order they are pushed. */
  const Pushed: seq<Event> := [Caesar, SeptemberEleven, PearlHarbour]

  /** `DB`: the pushed events once sorted. */
  const Table: seq<Event> := [Caesar, PearlHarbour, SeptemberEleven]

  /** The table is the sorted arrangement of the pushed events, and the only one. */
  lemma TableIsSortedPushed(s: seq<Event>)
    ensures Sorted(Table) && multiset(Table) == multiset(Pushed)
    ensures Sorted(s) && multiset(s) == multiset(Pushed) ==> s == Table
  {
    if Sorted(s) && multiset(s) == multiset(Pushed) {
      SortedUnique(s, Table);
    }
  }

  // ---------------------------------------------------------------- lookup

  /** Rust's `Result<usize, usize>` from a binary search: `Ok(i)` or `Err(i)`. */
  datatype SearchResult = Found(index: nat) | NotFound(index: nat)

  /** Binary search for `key` among the dates of `events[lo..hi]`; everything before `lo` is
      earlier than `key` and everything from `hi` on is later. */
  function SearchRange(events: seq<Event>, key: Date, lo: nat, hi: nat): (r: SearchResult)
    requires SortedByDate(events) && lo <= hi <= |events|
    requires forall j :: 0 <= j < lo ==> DateLt(events[j].date, key)
    requires forall j :: hi <= j < |events| ==> DateLt(key, events[j].date)
    ensures lo <= r.index <= hi
    ensures r.Found? ==> r.index < hi && events[r.index].date == key
    ensures r.NotFound? ==>
      (forall j :: 0 <= j < r.index ==> DateLt(events[j].date, key)) &&
      (forall j :: r.index <= j < |events| ==> DateLt(key, events[j].date))
    decreases hi - lo
  {
    if lo == hi then NotFound(lo)
    else
      var mid := lo + (hi - lo) / 2;
      var d := events[mid].date;
      if DateLt(d, key) then
        assert forall j :: 0 <= j <= mid ==> DateLe(events[j].date, d);
        DateOrderTransitive(events, mid, key);
        SearchRange(events, key, mid + 1, hi)
      else if DateLt(key, d) then
        DateOrderTransitiveAfter(events, mid, key);
        SearchRange(events, key, lo, mid)
      else
        DateOrderIsTotal(d, key, key);
        Found(mid)
  }

  lemma DateOrderTransitive(events: seq<Event>, mid: nat, key: Date)
    requires SortedByDate(events) && mid < |events| && DateLt(events[mid].date, key)
    ensures forall j :: 0 <= j <= mid ==> DateLt(events[j].date, key)
  {
    forall j | 0 <= j <= mid
      ensures DateLt(events[j].date, key)
    {
      DateOrderIsTotal(events[j].date, events[mid].date, key);
    }
  }

  lemma DateOrderTransitiveAfter(events: seq<Event>, mid: nat, key: Date)
    requires SortedByDate(events) && mid < |events| && DateLt(key, events[mid].date)
    ensures forall j :: mid <= j < |events| ==> DateLt(key, events[j].date)
  {
    forall j | mid <= j < |events|
      ensures DateLt(key, events[j].date)
    {
      DateOrderIsTotal(key, events[mid].date, events[j].date);
    }
  }

  /** `binary_search_by_key(&date, |e| e.date)`: an index holding `key`, or else the insertion
      point, before which every date is earlier and from which every date is later. */
  function BinarySearchByDate(events: seq<Event>, key: Date): (r: SearchResult)
    requires SortedByDate(events)
    ensures r.index <= |events|
    ensures r.Found? ==> r.index < |events| && events[r.index].date == key
    ensures r.NotFound? ==>
      (forall j :: 0 <= j < r.index ==> DateLt(events[j].date, key)) &&
      (forall j :: r.index <= j < |events| ==> DateLt(key, events[j].date))
  {
    SearchRange(events, key, 0, |events|)
  }

  /** The search finds an index exactly when some event has the key's date. */
  lemma BinarySearchFoundIff(events: seq<Event>, key: Date)
    requires SortedByDate(events)
    ensures BinarySearchByDate(events, key).Found? <==>
      exists j :: 0 <= j < |events| && events[j].date == key
  {
    DateOrderIsTotal(key, key, key);
  }

  /** The index `get_events` reads: the search's index, clamped to the last event. */
  function LookupIndex(events: seq<Event>, date: Date): (k: nat)
    requires |events| > 0 && SortedByDate(events)
    ensures k < |events|
    ensures forall j :: 0 <= j < k ==> DateLe(events[j].date, date)
    ensures forall j :: k < j < |events| ==> DateLe(date, events[j].date)
    ensures (exists j :: 0 <= j < |events| && events[j].date == date) ==> events[k].date == date
    ensures DateLe(date, events[k].date) ||
      (k == |events| - 1 && forall j :: 0 <= j < |events| ==> DateLt(events[j].date, date))
  {
    var r := BinarySearchByDate(events, date);
    BinarySearchFoundIff(events, date);
    var i := match r case Found(i) => i case NotFound(i) => i;
    if i >= |events| then |events| - 1 else i
  }

  /** `get_events`: the single event at the clamped insertion point of `date`. The search needs
      a non-empty table, since `len - 1` would underflow on an empty one; `now` is unused. */
  method GetEvents(events: seq<Event>, now: Date, date: Date) returns (ret: seq<Event>)
    requires |events| > 0 && SortedByDate(events)
    ensures ret == [events[LookupIndex(events, date)]]
  {
    var baseIdx := match BinarySearchByDate(events, date)
      case Found(i) => i
      case NotFound(i) => i;
    if baseIdx >= |events| {
      baseIdx := |events| - 1;
    }
    ret := [];
    ret := ret + [events[baseIdx]];
    for i := 1 to 3 {
      var idx := baseIdx + i;
      if idx < |events| {
        // the program leaves the retrieval of the following events empty
      }
    }
  }

  /** Lookup in the table: Caesar up to his date, Pearl Harbour up to its date, 9/11 after that. */
  lemma TableLookup(date: Date)
    ensures SortedByDate(Table)
    ensures LookupIndex(Table, date) ==
      if DateLe(date, Caesar.date) then 0
      else if DateLe(date, PearlHarbour.date) then 1
      else 2
  {
    TableIsSortedPushed(Table);
    SortedIsSortedByDate(Table);
    var k := LookupIndex(Table, date);
    DateOrderIsTotal(date, Caesar.date, PearlHarbour.date);
    DateOrderIsTotal(date, PearlHarbour.date, SeptemberEleven.date);
    DateOrderIsTotal(Caesar.date, date, PearlHarbour.date);
    DateOrderIsTotal(PearlHarbour.date, date, SeptemberEleven.date);
    DateOrderIsTotal(Caesar.date, PearlHarbour.date, date);
  }
}
