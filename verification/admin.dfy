/**
 * The admin area: a PIN login that sets a session cookie, and the four
 * handlers that add, edit, delete and move event records. Each handler is a
 * function of the session cookie, the stored collection (`None` when the
 * events file does not exist), the request's inputs and whether the final
 * write succeeds; it answers with an outcome and the collection it handed to
 * the writer, if any.
 */
module Admin {
  import opened Wrappers
  import opened Json
  import opened EventStore

  const AdminPin: string := "2025"

  /** The value the session cookie `admin_authenticated` carries once logged in. */
  const SessionFlag: string := "true"

  /** The session cookie's lifetime in seconds, recorded but not enforced here. */
  const SessionMaxAge: nat := 3600

  /** Every record written by the admin area names this organizer. */
  const Organizer: string := "MLSC MGMCOET"

  // ----- Login and the cookie gate -----

  function VerifyPin(pin: string): (ok: bool)
    ensures ok <==> pin == "2025"
  {
    pin == AdminPin
  }

  datatype LoginPage = SessionStarted(cookieValue: string, maxAge: nat) | PinRejected

  /** The login form's POST: the right PIN starts a session, any other re-shows the form. */
  function Login(pin: string): (page: LoginPage)
    ensures page.SessionStarted? <==> pin == "2025"
    ensures page.SessionStarted? ==> IsAuthenticated(Some(page.cookieValue)) && page.maxAge == 3600
  {
    if VerifyPin(pin) then SessionStarted(SessionFlag, SessionMaxAge) else PinRejected
  }

  /** The gate every admin page applies: the cookie must be present and exactly `"true"`. */
  function IsAuthenticated(cookie: Option<string>): (ok: bool)
    ensures ok <==> cookie.Some? && cookie.value == "true"
  {
    cookie == Some(SessionFlag)
  }

  /** The gate admits exactly the cookie value a successful login hands out. */
  lemma GateAdmitsLoginCookie(cookie: Option<string>)
    ensures IsAuthenticated(cookie) <==>
      exists pin :: Login(pin).SessionStarted? && cookie == Some(Login(pin).cookieValue)
  {
    if IsAuthenticated(cookie) {
      assert Login(AdminPin).SessionStarted?;
    }
  }

  // ----- The submitted form and the records built from it -----

  /**
   * The fields of the add and edit forms. The optional fields are `None`
   * when the form leaves them out.
   */
  datatype EventForm = EventForm(
    title: string,
    date: string,
    time: string,
    venue: string,
    description: string,
    registrationLink: Option<string>,
    galleryLink: Option<string>,
    attendees: Option<int>,
    image: Option<string>)

  /** A truthy optional text: present and not empty. */
  predicate Given(o: Option<string>) {
    o.Some? && o.value != ""
  }

  /** A truthy optional count: present and not zero. */
  predicate GivenCount(o: Option<int>) {
    o.Some? && o.value != 0
  }

  /** The keys every written record carries. */
  const CoreKeys: set<string> := {"title", "date", "time", "venue", "description", "organizer"}

  /** The keys that only the optional form fields set. */
  const OptionalKeys: set<string> := {"image", "registration_link", "gallery_link", "attendees"}

  /** The six fields the add and edit handlers always write. */
  function CoreFields(f: EventForm): (m: Event)
    ensures m.Keys == CoreKeys
    ensures m["title"] == Str(f.title) && m["date"] == Str(f.date) && m["time"] == Str(f.time)
    ensures m["venue"] == Str(f.venue) && m["description"] == Str(f.description)
    ensures m["organizer"] == Str("MLSC MGMCOET")
  {
    map["title" := Str(f.title), "date" := Str(f.date), "time" := Str(f.time),
        "venue" := Str(f.venue), "description" := Str(f.description), "organizer" := Str(Organizer)]
  }

  /** Key `k` is in `r` exactly when it is in `e`, with the same value. */
  predicate Kept(e: Event, r: Event, k: string) {
    (k in r <==> k in e) && (k in e ==> r[k] == e[k])
  }

  /** The names of the optional fields differ from each other and from the core fields. */
  lemma KeyNames()
    ensures "image" !in CoreKeys && "registration_link" !in CoreKeys
    ensures "gallery_link" !in CoreKeys && "attendees" !in CoreKeys
    ensures "image" != "registration_link" && "image" != "gallery_link" && "image" != "attendees"
    ensures "registration_link" != "gallery_link" && "registration_link" != "attendees"
    ensures "gallery_link" != "attendees"
  {
  }

  /**
   * The record the add handler builds: the core fields, the image when
   * given, and the fields of its list when given; a zero attendee count is
   * dropped like a missing one.
   */
  function NewRecord(cat: Category, f: EventForm): (e: Event)
    ensures forall k :: k in e ==> k in CoreKeys || k in OptionalKeys
    ensures forall k :: k in CoreKeys ==> k in e && e[k] == CoreFields(f)[k]
    ensures "image" in e <==> Given(f.image)
    ensures "registration_link" in e <==> cat == Upcoming && Given(f.registrationLink)
    ensures "gallery_link" in e <==> cat == Past && Given(f.galleryLink)
    ensures "attendees" in e <==> cat == Past && GivenCount(f.attendees)
    ensures "image" in e ==> e["image"] == Str(f.image.value)
    ensures "registration_link" in e ==> e["registration_link"] == Str(f.registrationLink.value)
    ensures "gallery_link" in e ==> e["gallery_link"] == Str(f.galleryLink.value)
    ensures "attendees" in e ==> e["attendees"] == Int(f.attendees.value)
  {
    KeyNames();
    var core := CoreFields(f);
    var withImage := if Given(f.image) then core["image" := Str(f.image.value)] else core;
    match cat
    case Upcoming =>
      if Given(f.registrationLink) then withImage["registration_link" := Str(f.registrationLink.value)] else withImage
    case Past =>
      var withGallery := if Given(f.galleryLink) then withImage["gallery_link" := Str(f.galleryLink.value)] else withImage;
      if GivenCount(f.attendees) then withGallery["attendees" := Int(f.attendees.value)] else withGallery
  }

  /** The part of an edit both lists share: the core fields overwritten, the image set when given. */
  function EditCommon(e: Event, f: EventForm): (w: Event)
    ensures forall k :: k in w ==> k in e || k in CoreKeys || k == "image"
    ensures forall k :: k in CoreKeys ==> k in w && w[k] == CoreFields(f)[k]
    ensures forall k :: k !in CoreKeys && k != "image" ==> Kept(e, w, k)
    ensures Given(f.image) ==> "image" in w && w["image"] == Str(f.image.value)
    ensures !Given(f.image) ==> Kept(e, w, "image")
    ensures Kept(e, w, "registration_link") && Kept(e, w, "gallery_link") && Kept(e, w, "attendees")
  {
    KeyNames();
    var updated := e + CoreFields(f);
    if Given(f.image) then updated["image" := Str(f.image.value)] else updated
  }

  /**
   * An edit of record `e` in list `cat`: the core fields are overwritten and
   * every other key kept, except that on an upcoming record an empty
   * registration link removes the stored one. On a past record the gallery
   * link and attendee count are only ever set, never removed.
   */
  function EditRecord(cat: Category, e: Event, f: EventForm): (r: Event)
    ensures forall k :: k in r ==> k in e || k in CoreKeys || k in OptionalKeys
    ensures forall k :: k in CoreKeys ==> k in r && r[k] == CoreFields(f)[k]
    ensures forall k :: k !in CoreKeys && k !in OptionalKeys ==> Kept(e, r, k)
    ensures Given(f.image) ==> "image" in r && r["image"] == Str(f.image.value)
    ensures !Given(f.image) ==> Kept(e, r, "image")
    ensures cat == Upcoming ==>
      && ("registration_link" in r <==> Given(f.registrationLink))
      && ("registration_link" in r ==> r["registration_link"] == Str(f.registrationLink.value))
      && Kept(e, r, "gallery_link") && Kept(e, r, "attendees")
    ensures cat == Past ==>
      && Kept(e, r, "registration_link")
      && (Given(f.galleryLink) ==> "gallery_link" in r && r["gallery_link"] == Str(f.galleryLink.value))
      && (!Given(f.galleryLink) ==> Kept(e, r, "gallery_link"))
      && (GivenCount(f.attendees) ==> "attendees" in r && r["attendees"] == Int(f.attendees.value))
      && (!GivenCount(f.attendees) ==> Kept(e, r, "attendees"))
  {
    KeyNames();
    var w := EditCommon(e, f);
    match cat
    case Upcoming => EditUpcomingFields(w, f)
    case Past => EditPastFields(w, f)
  }

  /** An upcoming record's own field: the registration link is set when given and removed otherwise. */
  function EditUpcomingFields(w: Event, f: EventForm): (r: Event)
    ensures forall k :: k != "registration_link" ==> Kept(w, r, k)
    ensures forall k :: k in CoreKeys || k == "image" ==> Kept(w, r, k)
    ensures forall k :: k !in CoreKeys && k !in OptionalKeys ==> Kept(w, r, k)
    ensures Kept(w, r, "gallery_link") && Kept(w, r, "attendees")
    ensures "registration_link" in r <==> Given(f.registrationLink)
    ensures "registration_link" in r ==> r["registration_link"] == Str(f.registrationLink.value)
  {
    KeyNames();
    if Given(f.registrationLink) then w["registration_link" := Str(f.registrationLink.value)]
    else w - {"registration_link"}
  }

  /** A past record's own fields: the gallery link and attendee count are set when given, else kept. */
  function EditPastFields(w: Event, f: EventForm): (r: Event)
    ensures forall k :: k != "gallery_link" && k != "attendees" ==> Kept(w, r, k)
    ensures forall k :: k in CoreKeys || k == "image" ==> Kept(w, r, k)
    ensures forall k :: k !in CoreKeys && k !in OptionalKeys ==> Kept(w, r, k)
    ensures Kept(w, r, "registration_link")
    ensures Given(f.galleryLink) ==> "gallery_link" in r && r["gallery_link"] == Str(f.galleryLink.value)
    ensures !Given(f.galleryLink) ==> Kept(w, r, "gallery_link")
    ensures GivenCount(f.attendees) ==> "attendees" in r && r["attendees"] == Int(f.attendees.value)
    ensures !GivenCount(f.attendees) ==> Kept(w, r, "attendees")
  {
    KeyNames();
    var withGallery := if Given(f.galleryLink) then w["gallery_link" := Str(f.galleryLink.value)] else w;
    if GivenCount(f.attendees) then withGallery["attendees" := Int(f.attendees.value)] else withGallery
  }

  /** A second identical edit leaves each key of the first edit's result as it was. */
  lemma EditRecordKeyStable(cat: Category, e: Event, f: EventForm, k: string)
    ensures Kept(EditRecord(cat, e, f), EditRecord(cat, EditRecord(cat, e, f), f), k)
  {
    KeyNames();
    if k in CoreKeys {
    } else if k == "image" {
    } else if k == "registration_link" {
    } else if k == "gallery_link" {
    } else if k == "attendees" {
    } else {
      assert k !in OptionalKeys;
    }
  }

  /** Submitting the same edit twice leaves the record as the first submission did. */
  lemma EditRecordIdempotent(cat: Category, e: Event, f: EventForm)
    ensures EditRecord(cat, EditRecord(cat, e, f), f) == EditRecord(cat, e, f)
  {
    var r1 := EditRecord(cat, e, f);
    var r2 := EditRecord(cat, r1, f);
    forall k
      ensures Kept(r1, r2, k)
    {
      EditRecordKeyStable(cat, e, f, k);
    }
    KeptEverywhere(r1, r2);
  }

  /** Records that agree on every key are equal. */
  lemma KeptEverywhere(e: Event, r: Event)
    requires forall k :: Kept(e, r, k)
    ensures r == e
  {
    forall k | k in r.Keys
      ensures k in e.Keys
    {
      assert Kept(e, r, k);
    }
    forall k | k in e.Keys
      ensures k in r.Keys && r[k] == e[k]
    {
      assert Kept(e, r, k);
    }
    assert r.Keys == e.Keys;
  }

  /** The clean-up before a record joins list `target`: fields of the other list are dropped. */
  function ShedFieldsFor(target: Category, e: Event): (r: Event)
    ensures target == Past ==> "registration_link" !in r
    ensures target == Upcoming ==> "attendees" !in r && "gallery_link" !in r
    ensures forall k :: k in r ==> k in e && r[k] == e[k]
    ensures forall k :: k in e && (if target == Past then k != "registration_link" else k != "attendees" && k != "gallery_link") ==> k in r
  {
    if target == Past then e - {"registration_link"} else e - {"attendees", "gallery_link"}
  }

  /** A record carries no field of the list it is not in. */
  predicate FitsCategory(cat: Category, e: Event) {
    if cat == Upcoming then "attendees" !in e && "gallery_link" !in e else "registration_link" !in e
  }

  predicate ListFits(cat: Category, l: seq<Event>) {
    forall i :: 0 <= i < |l| ==> FitsCategory(cat, l[i])
  }

  /** Every record in both lists fits its list. */
  predicate FieldsMatchCategory(c: Collection) {
    ListFits(Upcoming, c.upcoming) && ListFits(Past, c.past)
  }

  // ----- Finding the record a URL names -----

  /**
   * Where an index of a list of length `n` points, as Python list indexing
   * reads it: a negative index counts from the end.
   */
  function PythonPosition(index: int, n: nat): (p: int)
    requires 0 <= n + index && index < n
    ensures 0 <= p < n
    ensures index >= 0 ==> p == index
    ensures index < 0 ==> n - p == -index
  {
    if index >= 0 then index else n + index
  }

  /**
   * The result of the checks the edit, delete and move handlers share: an
   * unknown list name, an index at or past the end (the only bound checked),
   * an index before the start that the list access itself rejects, or a
   * position in a list.
   */
  datatype Slot = UnknownType | NoSuchIndex | BeforeStart | At(cat: Category, pos: nat)

  function Locate(c: Collection, eventType: string, index: int): (s: Slot)
    ensures s == UnknownType <==> eventType != "upcoming" && eventType != "past"
    ensures ParseCategory(eventType).Some? ==>
      var l := c.List(ParseCategory(eventType).value);
      && (s == NoSuchIndex <==> index >= |l|)
      && (s == BeforeStart <==> index < -|l|)
      && (s.At? <==> -|l| <= index < |l|)
    ensures s.At? ==> s.cat == ParseCategory(eventType).value && s.pos < |c.List(s.cat)|
    ensures s.At? ==> (index >= 0 ==> s.pos == index) && (index < 0 ==> s.pos == |c.List(s.cat)| + index)
  {
    match ParseCategory(eventType)
    case None => UnknownType
    case Some(cat) =>
      var n := |c.List(cat)|;
      if index >= n then NoSuchIndex
      else if index < -n then BeforeStart
      else At(cat, PythonPosition(index, n))
  }

  // ----- Handler outcomes -----

  datatype NotFoundReason = UnknownEventType | NoSuchEvent

  /**
   * What a handler answers: the login redirect, a 404, the uncaught
   * `IndexError` of a too-negative index, or the dashboard redirect after
   * the write succeeded or failed.
   */
  datatype Outcome = RedirectToLogin | NotFound(reason: NotFoundReason) | IndexError | Saved | SaveFailed

  /** An outcome and the collection handed to the writer (`None`: nothing was written). */
  datatype Response = Response(outcome: Outcome, written: Option<Collection>)

  /** The answer for a located slot that names no record. */
  function Refusal(s: Slot): (r: Response)
    requires !s.At?
    ensures r.written.None?
    ensures s == UnknownType <==> r.outcome == NotFound(UnknownEventType)
    ensures s == NoSuchIndex <==> r.outcome == NotFound(NoSuchEvent)
    ensures s == BeforeStart <==> r.outcome == IndexError
  {
    match s
    case UnknownType => Response(NotFound(UnknownEventType), None)
    case NoSuchIndex => Response(NotFound(NoSuchEvent), None)
    case BeforeStart => Response(IndexError, None)
  }

  /** Handing the changed collection to the writer, which succeeds or not. */
  function Commit(c: Collection, saveOk: bool): (r: Response)
    ensures r.written == Some(c)
    ensures r.outcome == Saved <==> saveOk
    ensures r.outcome == SaveFailed <==> !saveOk
  {
    Response(if saveOk then Saved else SaveFailed, Some(c))
  }

  // ----- List and collection edits -----

  /** `list.pop(pos)`: the list without its element at `pos`, the rest closing up. */
  function RemoveAt(l: seq<Event>, pos: nat): (r: seq<Event>)
    requires pos < |l|
    ensures |r| == |l| - 1
    ensures forall i :: 0 <= i < pos ==> r[i] == l[i]
    ensures forall i :: pos <= i < |r| ==> r[i] == l[i + 1]
    ensures multiset(r) + multiset{l[pos]} == multiset(l)
  {
    assert l == l[..pos] + [l[pos]] + l[pos + 1..];
    l[..pos] + l[pos + 1..]
  }

  /**
   * The move itself: the record at `pos` leaves list `cat` and joins the end
   * of the other list, without the fields that list does not use.
   */
  function Relocate(c: Collection, cat: Category, pos: nat): (m: Collection)
    requires pos < |c.List(cat)|
    ensures m.List(cat) == RemoveAt(c.List(cat), pos)
    ensures m.List(Opposite(cat)) == c.List(Opposite(cat)) + [ShedFieldsFor(Opposite(cat), c.List(cat)[pos])]
    ensures m.Size() == c.Size()
  {
    match cat
    case Upcoming => Collection(RemoveAt(c.upcoming, pos), c.past + [ShedFieldsFor(Past, c.upcoming[pos])])
    case Past => Collection(c.upcoming + [ShedFieldsFor(Upcoming, c.past[pos])], RemoveAt(c.past, pos))
  }

  // ----- The four handlers -----

  /**
   * `add_event`: a new record at the end of `upcoming` when the type is
   * exactly `"upcoming"`, and at the end of `past` for every other type.
   */
  function AddEvent(cookie: Option<string>, stored: Option<Collection>, eventType: string, f: EventForm, saveOk: bool): (r: Response)
    ensures !IsAuthenticated(cookie) ==> r == Response(RedirectToLogin, None)
    ensures IsAuthenticated(cookie) ==> r.written.Some? && (r.outcome == Saved <==> saveOk) && (r.outcome == SaveFailed <==> !saveOk)
    ensures IsAuthenticated(cookie) ==>
      var c, w := LoadEvents(stored), r.written.value;
      var cat := if eventType == "upcoming" then Upcoming else Past;
      && w.List(cat) == c.List(cat) + [NewRecord(cat, f)]
      && w.List(Opposite(cat)) == c.List(Opposite(cat))
      && w.Size() == c.Size() + 1
  {
    if !IsAuthenticated(cookie) then Response(RedirectToLogin, None)
    else
      var c := LoadEvents(stored);
      var cat := if eventType == "upcoming" then Upcoming else Past;
      Commit(c.WithList(cat, c.List(cat) + [NewRecord(cat, f)]), saveOk)
  }

  /** `edit_event`: the record at the index is replaced by its edited form, in place. */
  function EditEvent(cookie: Option<string>, stored: Option<Collection>, eventType: string, index: int, f: EventForm, saveOk: bool): (r: Response)
    ensures !IsAuthenticated(cookie) ==> r == Response(RedirectToLogin, None)
    ensures IsAuthenticated(cookie) && eventType != "upcoming" && eventType != "past" ==>
      r == Response(NotFound(UnknownEventType), None)
    ensures IsAuthenticated(cookie) && ParseCategory(eventType).Some? ==>
      var cat := ParseCategory(eventType).value;
      var l := LoadEvents(stored).List(cat);
      && (index >= |l| ==> r == Response(NotFound(NoSuchEvent), None))
      && (index < -|l| ==> r == Response(IndexError, None))
      && (-|l| <= index < |l| ==>
        var pos := PythonPosition(index, |l|);
        && r.written.Some? && (r.outcome == Saved <==> saveOk) && (r.outcome == SaveFailed <==> !saveOk)
        && r.written.value.List(cat) == l[pos := EditRecord(cat, l[pos], f)]
        && r.written.value.List(Opposite(cat)) == LoadEvents(stored).List(Opposite(cat)))
  {
    if !IsAuthenticated(cookie) then Response(RedirectToLogin, None)
    else
      var c := LoadEvents(stored);
      match Locate(c, eventType, index)
      case At(cat, pos) =>
        var l := c.List(cat);
        Commit(c.WithList(cat, l[pos := EditRecord(cat, l[pos], f)]), saveOk)
      case s => Refusal(s)
  }

  /** `delete_event`: the record at the index is removed and the rest close up. */
  function DeleteEvent(cookie: Option<string>, stored: Option<Collection>, eventType: string, index: int, saveOk: bool): (r: Response)
    ensures !IsAuthenticated(cookie) ==> r == Response(RedirectToLogin, None)
    ensures IsAuthenticated(cookie) && eventType != "upcoming" && eventType != "past" ==>
      r == Response(NotFound(UnknownEventType), None)
    ensures IsAuthenticated(cookie) && ParseCategory(eventType).Some? ==>
      var cat := ParseCategory(eventType).value;
      var l := LoadEvents(stored).List(cat);
      && (index >= |l| ==> r == Response(NotFound(NoSuchEvent), None))
      && (index < -|l| ==> r == Response(IndexError, None))
      && (-|l| <= index < |l| ==>
        var pos := PythonPosition(index, |l|);
        && r.written.Some? && (r.outcome == Saved <==> saveOk) && (r.outcome == SaveFailed <==> !saveOk)
        && var w := r.written.value.List(cat);
        && |w| == |l| - 1
        && (forall i :: 0 <= i < pos ==> w[i] == l[i])
        && (forall i :: pos <= i < |w| ==> w[i] == l[i + 1])
        && r.written.value.List(Opposite(cat)) == LoadEvents(stored).List(Opposite(cat)))
  {
    if !IsAuthenticated(cookie) then Response(RedirectToLogin, None)
    else
      var c := LoadEvents(stored);
      match Locate(c, eventType, index)
      case At(cat, pos) =>
        Commit(c.WithList(cat, RemoveAt(c.List(cat), pos)), saveOk)
      case s => Refusal(s)
  }

  /**
   * `move_event`: the record at the index leaves its list and, cleaned of
   * the fields the other list does not use, is appended to the other list.
   */
  function MoveEvent(cookie: Option<string>, stored: Option<Collection>, eventType: string, index: int, saveOk: bool): (r: Response)
    ensures !IsAuthenticated(cookie) ==> r == Response(RedirectToLogin, None)
    ensures IsAuthenticated(cookie) && eventType != "upcoming" && eventType != "past" ==>
      r == Response(NotFound(UnknownEventType), None)
    ensures IsAuthenticated(cookie) && ParseCategory(eventType).Some? ==>
      var cat := ParseCategory(eventType).value;
      var l := LoadEvents(stored).List(cat);
      var other := LoadEvents(stored).List(Opposite(cat));
      && (index >= |l| ==> r == Response(NotFound(NoSuchEvent), None))
      && (index < -|l| ==> r == Response(IndexError, None))
      && (-|l| <= index < |l| ==>
        var pos := PythonPosition(index, |l|);
        && r.written.Some? && (r.outcome == Saved <==> saveOk) && (r.outcome == SaveFailed <==> !saveOk)
        && var w := r.written.value.List(cat);
        && |w| == |l| - 1
        && (forall i :: 0 <= i < pos ==> w[i] == l[i])
        && (forall i :: pos <= i < |w| ==> w[i] == l[i + 1])
        && r.written.value.List(Opposite(cat)) == other + [ShedFieldsFor(Opposite(cat), l[pos])]
        && r.written.value.Size() == LoadEvents(stored).Size())
  {
    if !IsAuthenticated(cookie) then Response(RedirectToLogin, None)
    else
      var c := LoadEvents(stored);
      match Locate(c, eventType, index)
      case At(cat, pos) =>
        Commit(Relocate(c, cat, pos), saveOk)
      case s => Refusal(s)
  }

  // ----- The admin pages that only read -----

  /** What a reading admin page shows: the login redirect, a 404, a crash, or the page itself. */
  datatype View<T> = LoginRedirect | Missing(reason: NotFoundReason) | Crash | Page(content: T)

  /** The dashboard: both lists as stored, behind the cookie gate. */
  function Dashboard(cookie: Option<string>, stored: Option<Collection>): (v: View<Collection>)
    ensures v.Page? <==> IsAuthenticated(cookie)
    ensures v.Page? ==> v.content.upcoming == LoadEvents(stored).upcoming && v.content.past == LoadEvents(stored).past
    ensures !v.Page? ==> v == LoginRedirect
  {
    if !IsAuthenticated(cookie) then LoginRedirect else Page(LoadEvents(stored))
  }

  /** The edit form's GET: the record at the index, found by the same checks as the handlers. */
  function EditEventForm(cookie: Option<string>, stored: Option<Collection>, eventType: string, index: int): (v: View<Event>)
    ensures !IsAuthenticated(cookie) ==> v == LoginRedirect
    ensures IsAuthenticated(cookie) && eventType != "upcoming" && eventType != "past" ==> v == Missing(UnknownEventType)
    ensures IsAuthenticated(cookie) && ParseCategory(eventType).Some? ==>
      var l := LoadEvents(stored).List(ParseCategory(eventType).value);
      && (index >= |l| ==> v == Missing(NoSuchEvent))
      && (index < -|l| ==> v == Crash)
      && (-|l| <= index < |l| ==> v == Page(l[PythonPosition(index, |l|)]))
  {
    if !IsAuthenticated(cookie) then LoginRedirect
    else
      var c := LoadEvents(stored);
      match Locate(c, eventType, index)
      case At(cat, pos) => Page(c.List(cat)[pos])
      case UnknownType => Missing(UnknownEventType)
      case NoSuchIndex => Missing(NoSuchEvent)
      case BeforeStart => Crash
  }

  // ----- Properties across handlers -----

  /** A record the add handler builds fits the list it joins. */
  lemma NewRecordFits(cat: Category, f: EventForm)
    ensures FitsCategory(cat, NewRecord(cat, f))
  {
  }

  /** An edited record still fits its list if it did before. */
  lemma EditRecordFits(cat: Category, e: Event, f: EventForm)
    requires FitsCategory(cat, e)
    ensures FitsCategory(cat, EditRecord(cat, e, f))
  {
  }

  /**
   * Each handler that writes keeps every record free of the other list's
   * fields: add and edit never set them, and move sheds them.
   */
  lemma AddKeepsFieldsMatched(cookie: Option<string>, stored: Option<Collection>, eventType: string, f: EventForm, saveOk: bool)
    requires FieldsMatchCategory(LoadEvents(stored))
    ensures var r := AddEvent(cookie, stored, eventType, f, saveOk);
      r.written.Some? ==> FieldsMatchCategory(r.written.value)
  {
  }

  lemma EditKeepsFieldsMatched(cookie: Option<string>, stored: Option<Collection>, eventType: string, index: int, f: EventForm, saveOk: bool)
    requires FieldsMatchCategory(LoadEvents(stored))
    ensures var r := EditEvent(cookie, stored, eventType, index, f, saveOk);
      r.written.Some? ==> FieldsMatchCategory(r.written.value)
  {
  }

  lemma DeleteKeepsFieldsMatched(cookie: Option<string>, stored: Option<Collection>, eventType: string, index: int, saveOk: bool)
    requires FieldsMatchCategory(LoadEvents(stored))
    ensures var r := DeleteEvent(cookie, stored, eventType, index, saveOk);
      r.written.Some? ==> FieldsMatchCategory(r.written.value)
  {
  }

  lemma MoveKeepsFieldsMatched(cookie: Option<string>, stored: Option<Collection>, eventType: string, index: int, saveOk: bool)
    requires FieldsMatchCategory(LoadEvents(stored))
    ensures var r := MoveEvent(cookie, stored, eventType, index, saveOk);
      r.written.Some? ==> FieldsMatchCategory(r.written.value)
  {
  }

  /**
   * After a successful add, the new record is the last of its list, so the
   * edit form at index -1 shows exactly the record that was built.
   */
  lemma AddThenEditForm(cookie: Option<string>, stored: Option<Collection>, eventType: string, f: EventForm)
    requires IsAuthenticated(cookie)
    ensures var w := AddEvent(cookie, stored, eventType, f, true).written.value;
      var cat := if eventType == "upcoming" then Upcoming else Past;
      var listName := if cat == Upcoming then "upcoming" else "past";
      EditEventForm(cookie, Some(w), listName, -1) == Page(NewRecord(cat, f))
  {
  }

  /** After a successful edit, the edit form at the same index shows the edited record. */
  lemma EditThenEditForm(cookie: Option<string>, stored: Option<Collection>, eventType: string, index: int, f: EventForm)
    requires IsAuthenticated(cookie)
    requires ParseCategory(eventType).Some?
    requires -|LoadEvents(stored).List(ParseCategory(eventType).value)| <= index < |LoadEvents(stored).List(ParseCategory(eventType).value)|
    ensures var w := EditEvent(cookie, stored, eventType, index, f, true).written.value;
      var l := LoadEvents(stored).List(ParseCategory(eventType).value);
      EditEventForm(cookie, Some(w), eventType, index)
        == Page(EditRecord(ParseCategory(eventType).value, l[PythonPosition(index, |l|)], f))
  {
  }

  /**
   * A record with none of the list-specific fields, moved to the other list
   * and straight back (it is the last record there, index -1), returns
   * unchanged to the end of its original list.
   */
  lemma MoveAndMoveBack(cookie: Option<string>, stored: Option<Collection>, cat: Category, index: int)
    requires IsAuthenticated(cookie)
    requires var l := LoadEvents(stored).List(cat); -|l| <= index < |l|
    requires var l := LoadEvents(stored).List(cat);
      var e := l[PythonPosition(index, |l|)];
      "registration_link" !in e && "attendees" !in e && "gallery_link" !in e
    ensures var name := if cat == Upcoming then "upcoming" else "past";
      var back := if cat == Upcoming then "past" else "upcoming";
      var w1 := MoveEvent(cookie, stored, name, index, true).written.value;
      var w2 := MoveEvent(cookie, Some(w1), back, -1, true).written.value;
      var c := LoadEvents(stored);
      var pos := PythonPosition(index, |c.List(cat)|);
      && w2.List(cat) == c.List(cat)[..pos] + c.List(cat)[pos + 1..] + [c.List(cat)[pos]]
      && w2.List(Opposite(cat)) == c.List(Opposite(cat))
  {
    var name := if cat == Upcoming then "upcoming" else "past";
    var back := if cat == Upcoming then "past" else "upcoming";
    var c := LoadEvents(stored);
    var l := c.List(cat);
    var pos := PythonPosition(index, |l|);
    var e := l[pos];
    assert ShedFieldsFor(Opposite(cat), e) == e;
    assert ShedFieldsFor(cat, e) == e;
    var w1 := MoveEvent(cookie, stored, name, index, true).written.value;
    var rest := l[..pos] + l[pos + 1..];
    assert w1.List(cat) == rest;
    assert w1.List(Opposite(cat)) == c.List(Opposite(cat)) + [e];
    assert Opposite(Opposite(cat)) == cat;
  }

  /** An edit naming an index past the end of its list is refused and nothing is written. */
  lemma EditPastTheEnd(cookie: Option<string>, f: EventForm, a: Event, b: Event)
    requires IsAuthenticated(cookie)
    ensures EditEvent(cookie, Some(Collection([a, b], [])), "upcoming", 5, f, true) == Response(NotFound(NoSuchEvent), None)
    ensures EditEvent(cookie, Some(Collection([a, b], [])), "upcoming", -3, f, true) == Response(IndexError, None)
    ensures EditEvent(cookie, Some(Collection([a, b], [])), "upcoming", -1, f, true).written
      == Some(Collection([a, EditRecord(Upcoming, b, f)], []))
  {
    assert [a, b][1 := EditRecord(Upcoming, b, f)] == [a, EditRecord(Upcoming, b, f)];
  }
}
