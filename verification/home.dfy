/** The home page's "next event": the earliest upcoming record. */
module Home {
  import opened Wrappers
  import opened EventStore
  import opened Dates
  import opened StableSort
  import opened DatedEvents

  /**
   * `get_next_event`: nothing for a missing file or an empty upcoming list,
   * otherwise the head of the upcoming list sorted oldest first.
   */
  function NextEvent(stored: Option<Collection>): (r: Result<Option<Event>, DateError>)
    ensures LoadEvents(stored).upcoming == [] ==> r == Success(None)
    ensures r.Failure? <==> !AllDated(LoadEvents(stored).upcoming)
    ensures r.Success? && LoadEvents(stored).upcoming != [] ==> r.value.Some?
  {
    var upcoming := LoadEvents(stored).upcoming;
    if upcoming == [] then Success(None)
    else
      var sorted :- SortedByDate(upcoming, false);
      Success(Some(sorted[0]))
  }

  /** Position `i` holds the earliest date, and no earlier position holds that date too. */
  predicate IsFirstEarliest(s: seq<Event>, i: int)
    requires AllDated(s)
  {
    && 0 <= i < |s|
    && (forall j :: 0 <= j < |s| ==> !Precedes(Day(s[j]), Day(s[i])))
    && (forall j :: 0 <= j < i ==> Precedes(Day(s[i]), Day(s[j])))
  }

  /**
   * When every upcoming date parses, the next event is the stored record
   * with the earliest date, and among records on that date the first one
   * in stored order.
   */
  lemma NextEventIsFirstEarliest(stored: Option<Collection>)
    requires LoadEvents(stored).upcoming != []
    requires AllDated(LoadEvents(stored).upcoming)
    ensures var upcoming := LoadEvents(stored).upcoming;
      exists i :: IsFirstEarliest(upcoming, i) && NextEvent(stored) == Success(Some(upcoming[i]))
  {
    var upcoming := LoadEvents(stored).upcoming;
    var ks := KeyByDate(upcoming, false).value;
    ItemsAt(ks);
    var sorted := SortByKey(ks);
    ItemsAt(sorted);
    SortHeadIsFirstMin(ks);
    var i := FirstMin(ks);
    assert upcoming[i] == ks[i].item;
    assert NextEvent(stored) == Success(Some(upcoming[i]));
    forall j | 0 <= j < |upcoming|
      ensures !Precedes(Day(upcoming[j]), Day(upcoming[i]))
      ensures j < i ==> Precedes(Day(upcoming[i]), Day(upcoming[j]))
    {
      assert ks[j].item == upcoming[j];
      OrdinalIsChronological(Day(upcoming[j]), Day(upcoming[i]));
      OrdinalIsChronological(Day(upcoming[i]), Day(upcoming[j]));
    }
    assert IsFirstEarliest(upcoming, i);
  }
}
