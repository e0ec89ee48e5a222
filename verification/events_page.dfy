/**
 * The public events page: every record gains a display date, then the
 * upcoming list is shown oldest first and the past list newest first.
 */
module EventsPage {
  import opened Wrappers
  import opened Json
  import opened EventStore
  import opened Dates
  import opened DatedEvents

  const FormattedDateKey: string := "formatted_date"

  /**
   * `event["formatted_date"] = format_event_date(event["date"])`: adds (or
   * overwrites) the display date and changes nothing else. A record without
   * a `date` key, or with a non-string date, makes the page fail.
   */
  function Annotate(e: Event): (r: Result<Event, DateError>)
    ensures r.Success? <==> "date" in e && e["date"].Str?
    ensures r.Success? ==> r.value.Keys == e.Keys + {"formatted_date"}
    ensures r.Success? ==> r.value["formatted_date"] == Str(FormatEventDate(e["date"].s))
    ensures r.Success? ==> forall k :: k in e && k != "formatted_date" ==> r.value[k] == e[k]
    ensures r.Success? ==> (Dated(r.value) <==> Dated(e))
    ensures r.Success? && Dated(e) ==> Day(r.value) == Day(e)
  {
    if "date" !in e then Failure(MissingDate)
    else if !e["date"].Str? then Failure(DateNotText)
    else Success(e[FormattedDateKey := Str(FormatEventDate(e["date"].s))])
  }

  predicate Annotatable(e: Event) {
    "date" in e && e["date"].Str?
  }

  /** The annotation loop over a list, stopping at the first record it cannot annotate. */
  function AnnotateAll(s: seq<Event>): (r: Result<seq<Event>, DateError>)
    ensures r.Success? <==> forall i :: 0 <= i < |s| ==> Annotatable(s[i])
    ensures r.Success? ==> |r.value| == |s|
    ensures r.Success? ==> forall i :: 0 <= i < |s| ==> Annotate(s[i]) == Success(r.value[i])
    decreases |s|
  {
    if s == [] then Success([])
    else
      var head :- Annotate(s[0]);
      var tail :- AnnotateAll(s[1..]);
      var r := [head] + tail;
      assert forall i :: 1 <= i < |s| ==> Annotate(s[i]) == Annotate(s[1..][i - 1]);
      assert forall i :: 1 <= i < |s| ==> r[i] == tail[i - 1];
      Success(r)
  }

  lemma {:induction false} AnnotateAllConcat(a: seq<Event>, b: seq<Event>)
    requires AnnotateAll(a + b).Success?
    ensures AnnotateAll(a).Success? && AnnotateAll(b).Success?
    ensures AnnotateAll(a + b).value == AnnotateAll(a).value + AnnotateAll(b).value
  {
    var ab := AnnotateAll(a + b).value;
    forall i | 0 <= i < |a|
      ensures Annotatable(a[i]) && Annotate(a[i]) == Success(ab[i])
    {
      assert (a + b)[i] == a[i];
    }
    forall i | 0 <= i < |b|
      ensures Annotatable(b[i]) && Annotate(b[i]) == Success(ab[|a| + i])
    {
      assert (a + b)[|a| + i] == b[i];
    }
    var ra, rb := AnnotateAll(a).value, AnnotateAll(b).value;
    assert ab == ra + rb by {
      assert |ab| == |ra| + |rb|;
      forall i | 0 <= i < |ab|
        ensures ab[i] == (ra + rb)[i]
      {
        if i < |a| {
          assert Annotate(a[i]) == Success(ab[i]) && Annotate(a[i]) == Success(ra[i]);
        } else {
          assert Annotate(b[i - |a|]) == Success(ab[i]) && Annotate(b[i - |a|]) == Success(rb[i - |a|]);
        }
      }
    }
  }

  /** Annotation keeps every record's date, so it keeps which records are dated. */
  lemma AnnotateAllKeepsDates(s: seq<Event>)
    requires AnnotateAll(s).Success?
    ensures AllDated(AnnotateAll(s).value) <==> AllDated(s)
  {
    var r := AnnotateAll(s).value;
    assert forall i :: 0 <= i < |s| ==> (Dated(r[i]) <==> Dated(s[i]));
  }

  datatype Listing = Listing(upcoming: seq<Event>, past: seq<Event>)

  /**
   * The `events` route: annotate every record of `upcoming + past`, then
   * sort upcoming oldest first and past newest first.
   */
  function EventsView(stored: Option<Collection>): (r: Result<Listing, DateError>)
    ensures var c := LoadEvents(stored);
      r.Failure? <==> !AllDated(c.upcoming) || !AllDated(c.past)
  {
    var c := LoadEvents(stored);
    var all :- AnnotateAll(c.upcoming + c.past);
    AnnotateAllConcat(c.upcoming, c.past);
    AnnotateAllKeepsDates(c.upcoming);
    AnnotateAllKeepsDates(c.past);
    var up :- SortedByDate(AnnotateAll(c.upcoming).value, false);
    var past :- SortedByDate(AnnotateAll(c.past).value, true);
    Success(Listing(up, past))
  }

  /** With no events file the page lists nothing. */
  lemma EventsViewOfMissingFile()
    ensures EventsView(None) == Success(Listing([], []))
  {
    assert AnnotateAll([] + []) == Success([]);
  }

  /**
   * A page that renders lists the annotated stored records, each list a
   * permutation of its stored list: upcoming oldest first and past newest
   * first, with records on the same day in their stored order.
   */
  lemma EventsViewSorted(stored: Option<Collection>)
    requires EventsView(stored).Success?
    ensures var c := LoadEvents(stored);
      && AnnotateAll(c.upcoming).Success? && AnnotateAll(c.past).Success?
      && var up, past := AnnotateAll(c.upcoming).value, AnnotateAll(c.past).value;
      && var page := EventsView(stored).value;
      && AllDated(up) && AllDated(past) && AllDated(page.upcoming) && AllDated(page.past)
      && multiset(page.upcoming) == multiset(up)
      && multiset(page.past) == multiset(past)
      && (forall i, j :: 0 <= i < j < |page.upcoming| ==> !Precedes(Day(page.upcoming[j]), Day(page.upcoming[i])))
      && (forall i, j :: 0 <= i < j < |page.past| ==> !Precedes(Day(page.past[i]), Day(page.past[j])))
      && (forall d :: OnDay(page.upcoming, d) == OnDay(up, d))
      && (forall d :: OnDay(page.past, d) == OnDay(past, d))
  {
    var c := LoadEvents(stored);
    AnnotateAllConcat(c.upcoming, c.past);
    AnnotateAllKeepsDates(c.upcoming);
    AnnotateAllKeepsDates(c.past);
    var up, past := AnnotateAll(c.upcoming).value, AnnotateAll(c.past).value;
    SortedByDateIsPermutation(up, false);
    SortedByDateIsPermutation(past, true);
    SortedByDateIsOrdered(up, false);
    SortedByDateIsOrdered(past, true);
    forall d | true
      ensures OnDay(SortedByDate(up, false).value, d) == OnDay(up, d)
      ensures OnDay(SortedByDate(past, true).value, d) == OnDay(past, d)
    {
      SortedByDateIsStable(up, false, d);
      SortedByDateIsStable(past, true, d);
    }
  }
}
