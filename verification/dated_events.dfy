/**
 * Reading an event's `date` field and sorting event lists by it, the way
 * the events and home pages do with
 * `sort(key=lambda x: datetime.strptime(x["date"], "%Y-%m-%d"))`.
 */
module DatedEvents {
  import opened Wrappers
  import opened Json
  import opened EventStore
  import opened Dates
  import opened StableSort

  /**
   * Why a record has no usable date: no `date` key (`KeyError`), a value
   * that is not a string (`TypeError`), or a string that does not parse
   * (`ValueError`).
   */
  datatype DateError = MissingDate | DateNotText | UnparsableDate

  function EventDate(e: Event): (r: Result<Date, DateError>)
    ensures r.Success? <==> "date" in e && e["date"].Str? && ParseDate(e["date"].s).Some?
    ensures r.Success? ==> r.value == ParseDate(e["date"].s).value
  {
    if "date" !in e then Failure(MissingDate)
    else if !e["date"].Str? then Failure(DateNotText)
    else match ParseDate(e["date"].s)
      case None => Failure(UnparsableDate)
      case Some(d) => Success(d)
  }

  predicate Dated(e: Event) {
    EventDate(e).Success?
  }

  predicate AllDated(s: seq<Event>) {
    forall i :: 0 <= i < |s| ==> Dated(s[i])
  }

  /** The calendar date of a dated record. */
  function Day(e: Event): (d: Date)
    requires Dated(e)
    ensures ValidDate(d)
  {
    EventDate(e).value
  }

  /** The sort key of a record: its date's ordinal, negated for a newest-first sort. */
  function SortKey(e: Event, newestFirst: bool): int
    requires Dated(e)
  {
    if newestFirst then -Ordinal(Day(e)) else Ordinal(Day(e))
  }

  /** Every element carries the sort key of its own record. */
  predicate KeyedByDate(ks: seq<Keyed<Event>>, newestFirst: bool) {
    forall i :: 0 <= i < |ks| ==> Dated(ks[i].item) && ks[i].key == SortKey(ks[i].item, newestFirst)
  }

  /**
   * Computes every key before anything is sorted; the first record without
   * a usable date makes the whole step fail.
   */
  function KeyByDate(s: seq<Event>, newestFirst: bool): (r: Result<seq<Keyed<Event>>, DateError>)
    ensures r.Success? <==> AllDated(s)
    ensures r.Success? ==> Items(r.value) == s && KeyedByDate(r.value, newestFirst)
    decreases |s|
  {
    if s == [] then Success([])
    else match EventDate(s[0])
      case Failure(err) => Failure(err)
      case Success(d) =>
        match KeyByDate(s[1..], newestFirst)
        case Failure(err) =>
          assert !AllDated(s[1..]);
          Failure(err)
        case Success(rest) =>
          KeyedCons(s, rest, newestFirst);
          Success([Keyed(SortKey(s[0], newestFirst), s[0])] + rest)
  }

  /** Keying the head of a list in front of its keyed tail keys the whole list. */
  lemma KeyedCons(s: seq<Event>, rest: seq<Keyed<Event>>, newestFirst: bool)
    requires s != [] && Dated(s[0]) && AllDated(s[1..])
    requires Items(rest) == s[1..] && KeyedByDate(rest, newestFirst)
    ensures AllDated(s)
    ensures var ks := [Keyed(SortKey(s[0], newestFirst), s[0])] + rest;
      Items(ks) == s && KeyedByDate(ks, newestFirst)
  {
    var ks := [Keyed(SortKey(s[0], newestFirst), s[0])] + rest;
    assert ks[1..] == rest;
    assert s == [s[0]] + s[1..];
    assert forall i :: 1 <= i < |ks| ==> ks[i] == rest[i - 1];
    assert forall i :: 1 <= i < |s| ==> s[i] == s[1..][i - 1];
  }

  /** The records of `s` that fall on day `d`, in their order in `s`. */
  function OnDay(s: seq<Event>, d: Date): seq<Event>
    requires AllDated(s)
  {
    if s == [] then []
    else if Day(s[0]) == d then [s[0]] + OnDay(s[1..], d)
    else OnDay(s[1..], d)
  }

  /** Filtering decorated records by the key of day `d` is filtering the records by `d`. */
  lemma {:induction false} WithKeyIsOnDay(ks: seq<Keyed<Event>>, newestFirst: bool, d: Date)
    requires KeyedByDate(ks, newestFirst) && ValidDate(d)
    ensures AllDated(Items(ks))
    ensures Items(WithKey(ks, if newestFirst then -Ordinal(d) else Ordinal(d))) == OnDay(Items(ks), d)
    decreases |ks|
  {
    ItemsAt(ks);
    if ks != [] {
      assert KeyedByDate(ks[1..], newestFirst);
      WithKeyIsOnDay(ks[1..], newestFirst, d);
      OrdinalIsChronological(Day(ks[0].item), d);
      var k := if newestFirst then -Ordinal(d) else Ordinal(d);
      assert Items(ks)[1..] == Items(ks[1..]);
      assert Items(ks)[0] == ks[0].item;
      if ks[0].key == k {
        assert Items(WithKey(ks, k)) == [ks[0].item] + Items(WithKey(ks[1..], k));
      }
    }
  }

  /**
   * `sort(key=...)` on a list of records, oldest first or (`reverse=True`)
   * newest first; it fails outright, with no fallback, as soon as one record
   * has no usable date.
   */
  function SortedByDate(s: seq<Event>, newestFirst: bool): (r: Result<seq<Event>, DateError>)
    ensures r.Failure? <==> !AllDated(s)
    ensures r.Success? ==> |r.value| == |s|
  {
    var ks :- KeyByDate(s, newestFirst);
    ItemsAt(ks);
    ItemsAt(SortByKey(ks));
    Success(Items(SortByKey(ks)))
  }

  /** The sorted records are exactly the input records: a permutation that keeps every record intact. */
  lemma SortedByDateIsPermutation(s: seq<Event>, newestFirst: bool)
    requires AllDated(s)
    ensures SortedByDate(s, newestFirst).Success?
    ensures multiset(SortedByDate(s, newestFirst).value) == multiset(s)
    ensures AllDated(SortedByDate(s, newestFirst).value)
  {
    var ks := KeyByDate(s, newestFirst).value;
    var sorted := SortByKey(ks);
    SortItems(ks);
    ItemsAt(sorted);
    var r := Items(sorted);
    forall i | 0 <= i < |r|
      ensures Dated(r[i])
    {
      assert sorted[i] in multiset(ks);
    }
  }

  /** Records come out in date order: oldest first, or newest first with `reverse=True`. */
  lemma SortedByDateIsOrdered(s: seq<Event>, newestFirst: bool)
    requires AllDated(s)
    ensures SortedByDate(s, newestFirst).Success?
    ensures AllDated(SortedByDate(s, newestFirst).value)
    ensures var r := SortedByDate(s, newestFirst).value;
      forall i, j :: 0 <= i < j < |r| ==>
        if newestFirst then !Precedes(Day(r[i]), Day(r[j])) else !Precedes(Day(r[j]), Day(r[i]))
  {
    SortedByDateIsPermutation(s, newestFirst);
    var ks := KeyByDate(s, newestFirst).value;
    var sorted := SortByKey(ks);
    ItemsAt(sorted);
    var r := Items(sorted);
    forall i, j | 0 <= i < j < |r|
      ensures if newestFirst then !Precedes(Day(r[i]), Day(r[j])) else !Precedes(Day(r[j]), Day(r[i]))
    {
      assert sorted[i] in multiset(ks);
      assert sorted[j] in multiset(ks);
      assert sorted[i].key <= sorted[j].key;
      OrdinalIsChronological(Day(r[i]), Day(r[j]));
      OrdinalIsChronological(Day(r[j]), Day(r[i]));
    }
  }

  /** Records on the same day keep their stored order: the sort is stable. */
  lemma SortedByDateIsStable(s: seq<Event>, newestFirst: bool, d: Date)
    requires AllDated(s)
    ensures SortedByDate(s, newestFirst).Success?
    ensures AllDated(SortedByDate(s, newestFirst).value)
    ensures OnDay(SortedByDate(s, newestFirst).value, d) == OnDay(s, d)
  {
    SortedByDateIsPermutation(s, newestFirst);
    var ks := KeyByDate(s, newestFirst).value;
    var sorted := SortByKey(ks);
    assert KeyedByDate(sorted, newestFirst) by {
      forall i | 0 <= i < |sorted|
        ensures Dated(sorted[i].item) && sorted[i].key == SortKey(sorted[i].item, newestFirst)
      {
        assert sorted[i] in multiset(ks);
      }
    }
    if ValidDate(d) {
      var k := if newestFirst then -Ordinal(d) else Ordinal(d);
      SortIsStable(ks, k);
      WithKeyIsOnDay(ks, newestFirst, d);
      WithKeyIsOnDay(sorted, newestFirst, d);
    } else {
      NoRecordOnInvalidDay(Items(sorted), d);
      NoRecordOnInvalidDay(s, d);
    }
  }

  lemma {:induction false} NoRecordOnInvalidDay(s: seq<Event>, d: Date)
    requires AllDated(s) && !ValidDate(d)
    ensures OnDay(s, d) == []
    decreases |s|
  {
    if s != [] {
      NoRecordOnInvalidDay(s[1..], d);
    }
  }
}
