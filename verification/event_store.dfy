/**
 * The persisted event collection: two ordered lists of records, `upcoming`
 * and `past`, identified only by position.
 */
module EventStore {
  import opened Wrappers
  import opened Json

  /** One event record: a JSON object, so any key may appear beside the known ones. */
  type Event = map<string, Value>

  datatype Category = Upcoming | Past

  datatype Collection = Collection(upcoming: seq<Event>, past: seq<Event>) {

    function List(cat: Category): seq<Event> {
      if cat == Upcoming then upcoming else past
    }

    function WithList(cat: Category, events: seq<Event>): (c: Collection)
      ensures c.List(cat) == events
      ensures c.List(Opposite(cat)) == List(Opposite(cat))
    {
      if cat == Upcoming then Collection(events, past) else Collection(upcoming, events)
    }

    function Size(): nat {
      |upcoming| + |past|
    }
  }

  function Opposite(cat: Category): (o: Category)
    ensures o != cat
  {
    if cat == Upcoming then Past else Upcoming
  }

  /** The list names the handlers accept in a URL: exactly "upcoming" and "past". */
  function ParseCategory(name: string): (r: Option<Category>)
    ensures r == Some(Upcoming) <==> name == "upcoming"
    ensures r == Some(Past) <==> name == "past"
    ensures r.None? <==> name != "upcoming" && name != "past"
  {
    if name == "upcoming" then Some(Upcoming)
    else if name == "past" then Some(Past)
    else None
  }

  /**
   * `load_events`: the stored collection, or two empty lists when the file
   * does not exist (`None`).
   */
  function LoadEvents(stored: Option<Collection>): (c: Collection)
    ensures stored.None? ==> c.upcoming == [] && c.past == [] && c.Size() == 0
    ensures stored.Some? ==> c == stored.value
  {
    match stored
    case None => Collection([], [])
    case Some(c) => c
  }
}
