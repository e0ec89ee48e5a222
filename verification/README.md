# Event management of the MLSC MGMCOET community site, in Dafny

This project models the event logic of a small FastAPI community website. The site stores its events in a data file as two ordered lists of JSON records, `upcoming` and `past`. Records are identified only by their position in a list. The model covers four pieces:

- **The admin area.** A PIN login sets the `admin_authenticated` cookie. Behind that gate, four handlers add, edit, delete and move records. Each handler is modelled as a pure function of:
  - the cookie;
  - the stored collection (`None` when the file does not exist);
  - the request's inputs;
  - a flag saying whether the final write succeeds.

  It returns an outcome, together with the collection it handed to the writer, if any.
- **The public events page.** Every record gains a display date, `"<Month> <DD>, <YYYY>"`. The upcoming list is then sorted oldest first and the past list newest first. Both sorts are stable, and both fail outright on any record whose date does not parse. So although the formatter falls back to the raw string for a date that does not parse, the sort parses the same date again and fails, and a rendered page never shows the fallback.
- **The home page's next event.** It is the earliest upcoming record, or nothing when the list is empty.
- **The about page's team list.** The teams are projected onto a fixed order of six team names.

Records are `map<string, Value>`, so records with extra keys are modelled too. Dates are parsed the way Python's `datetime.strptime(s, "%Y-%m-%d")` parses them:

- a four-digit year;
- a month and a day of one or two digits; the day may also be a space followed by a digit;
- the whole string must be used;
- the fields must form a real date of the proleptic Gregorian calendar, with years 1 to 9999.

Python's `sort(key=...)` is modelled as an insertion sort on precomputed keys. A sort with `reverse=True` is the same stable sort on negated keys.

The edit, delete and move handlers check only the upper bound of the index (`index >= len` gives a 404), so a negative index counts from the end of the list. An index below `-len` is not caught by any check, and the list access raises `IndexError`, which FastAPI answers with a server error. The model therefore has a fifth outcome, `IndexError`, beside login redirect, not found, saved and save failed.

Modules:

- `Wrappers`: `Option` and `Result`.
- `Json`: record values.
- `EventStore`: the collection and the missing-file default.
- `Dates`: the parse, the display format, and date order.
- `StableSort`: the stable keyed sort.
- `DatedEvents`: a record's date and sorting records by it.
- `EventsPage`, `Home`, `About`, `Admin`: one per router.

## Model

| member | source | states |
|---|---|---|
| `EventStore.LoadEvents` | routers/events.py:10-16 | A missing events file reads as two empty lists; an existing one is used as stored. |
| `EventStore.ParseCategory` | routers/admin.py:136-137 | Exactly the names "upcoming" and "past" name a list; every other string names none. |
| `Admin.VerifyPin` | routers/admin.py:13-17 | The PIN check accepts exactly the string "2025". |
| `Admin.Login` | routers/admin.py:42-53 | A session starts if and only if the PIN is "2025"; the cookie it sets passes the admin gate and lives 3600 seconds. |
| `Admin.IsAuthenticated` | routers/admin.py:59-60 | The admin gate admits a request exactly when the `admin_authenticated` cookie is present and equals "true". |
| `Admin.GateAdmitsLoginCookie` | routers/admin.py:45-47 | The gate admits exactly the cookie value that a successful login sets, and no other. |
| `Admin.NewRecord` | routers/admin.py:97-117 | An added record has the six core fields with organizer "MLSC MGMCOET" and no keys beyond the optional four; image iff non-empty; registration link only on upcoming and only if non-empty; gallery link and attendees only on past and only if truthy (a count of 0 is dropped). |
| `Admin.NewRecordFits` | routers/admin.py:109-118 | A record built by the add handler carries no field of the list it is not added to. |
| `Admin.EditRecord` | routers/admin.py:180-202 | An edit overwrites the six core fields and keeps every other key; the image is set only when non-empty; on upcoming the registration link is set when given and removed otherwise; on past the gallery link and attendees are set only when truthy and never removed. |
| `Admin.EditRecordFits` | routers/admin.py:193-202 | An edit of a record that fits its list gives a record that still fits it. |
| `Admin.EditRecordIdempotent` | routers/admin.py:180-202 | Applying the same edit twice gives the record a single edit gives. |
| `Admin.ShedFieldsFor` | routers/admin.py:257-267 | A record moving to past loses its registration link; one moving to upcoming loses attendees and gallery link; every other key is kept with its value. |
| `Admin.PythonPosition` | routers/admin.py:143 | An index in `[-len, len)` addresses a list element; a non-negative index is itself, and index -k is the k-th element from the end. |
| `Admin.Locate` | routers/admin.py:136-143 | The shared checks: an unknown list name; an index at or past the end; an index before `-len`, which no check catches; otherwise a position in the named list: the index itself when non-negative, and `len + index` when negative. Each outcome holds exactly under its condition. |
| `Admin.RemoveAt` | routers/admin.py:231 | `pop` leaves one element fewer: earlier elements stay, later ones shift down by one, and the removed element is the only one lost. |
| `Admin.Relocate` | routers/admin.py:253-269 | A move pops the record from its list and appends it, cleaned for the target list, to the end of the other list; the total number of events is unchanged. |
| `Admin.AddEvent` | routers/admin.py:77-126 | Without the cookie: a login redirect and nothing written. With it: the new record is appended to upcoming when the type is exactly "upcoming" and to past for any other type; the other list is unchanged; the outcome is saved or save-failed as the write went. |
| `Admin.EditEvent` | routers/admin.py:152-213 | Without the cookie: a login redirect and nothing written. An unknown type or an index `>= len`: not found and nothing written. An index below `-len`: IndexError. Otherwise exactly the addressed record is replaced by its edit, the other list is unchanged, and the outcome is saved exactly when the write succeeds and save-failed exactly when it does not. |
| `Admin.DeleteEvent` | routers/admin.py:215-236 | The same refusals as edit. Otherwise exactly the addressed record is removed, earlier records stay, later ones shift down, the other list is unchanged, and the outcome is saved or save-failed exactly as the write went. |
| `Admin.MoveEvent` | routers/admin.py:238-274 | The same refusals as edit. Otherwise the addressed record leaves its list, the rest closing up, and is appended cleaned to the other list; the event count is conserved, and the outcome is saved or save-failed exactly as the write went. |
| `Admin.Dashboard` | routers/admin.py:55-67 | The dashboard shows both stored lists exactly when the cookie is "true", and redirects to login otherwise. |
| `Admin.EditEventForm` | routers/admin.py:128-150 | The edit form applies the same gate and index checks as the handlers and shows the addressed record. |
| `Admin.AddKeepsFieldsMatched` | routers/admin.py:109-118 | If every record carries only the fields of its own list, an add keeps it so. |
| `Admin.EditKeepsFieldsMatched` | routers/admin.py:193-202 | If every record carries only the fields of its own list, an edit keeps it so. |
| `Admin.DeleteKeepsFieldsMatched` | routers/admin.py:231 | If every record carries only the fields of its own list, a delete keeps it so. |
| `Admin.MoveKeepsFieldsMatched` | routers/admin.py:257-269 | If every record carries only the fields of its own list, a move keeps it so. |
| `Admin.AddThenEditForm` | routers/admin.py:109-118 | After a successful add, the edit form at index -1 of the list it went to shows exactly the record built from the form. |
| `Admin.EditThenEditForm` | routers/admin.py:181-202 | After a successful edit, the edit form at the same index shows the edited record. |
| `Admin.MoveAndMoveBack` | routers/admin.py:254-269 | A record without list-specific fields, moved to the other list and back from index -1, returns unchanged to the end of its original list, and the other list is as before. |
| `Admin.EditPastTheEnd` | routers/admin.py:176-178 | On a two-record list, index 5 is not found and writes nothing, index -3 raises IndexError, and index -1 edits the last record. |
| `Dates.SplitDate` | routers/events.py:21 | The parse cuts the string into a four-character year, a one- or two-character month and the rest as the day, and these parts rebuild the string exactly. |
| `Dates.ParseDate` | routers/events.py:21 | Whatever parses is a real calendar date with a year from 1 to 9999. |
| `Dates.ParseLenientDate` | routers/events.py:21 | Every calendar date parses from a four-digit year, any month spelling `%m` accepts (two digits or one) and any day spelling `%d` accepts (two digits, one digit, or a space and a digit). |
| `Dates.ParsedSpelling` | routers/events.py:21 | Conversely, every string that parses is a four-digit year, a hyphen, one of those month spellings and a hyphen, then one of those day spellings of the parsed date. |
| `Dates.IsoParse` | routers/events.py:21 | On the zero-padded `YYYY-MM-DD` shape, the parse succeeds exactly when the digits form a real calendar date. |
| `Dates.ParseIsoDate` | routers/events.py:21 | Every calendar date printed as `YYYY-MM-DD` parses back to itself. |
| `Dates.IsoDateOfParse` | routers/events.py:21 | A zero-padded date string that parses is the canonical printing of its date. |
| `Dates.LongDate` | routers/events.py:22 | The display form is the English month name followed by a space, two digits that read as the day, a comma and a space, and four digits that read as the year. |
| `Dates.FormatEventDate` | routers/events.py:18-24 | A string that fails the parse, including calendar-invalid dates such as a non-leap 29 February, is returned unchanged. |
| `Dates.LongDateRoundTrip` | routers/events.py:22 | The display form `"<Month> <DD>, <YYYY>"` reads back as the date it was printed from. |
| `Dates.FormatRoundTrip` | routers/events.py:18-24 | The display form of a string that parses reads back as the parsed date. |
| `Dates.FormatIsoDate` | routers/events.py:21-22 | For a valid zero-padded date, the display form is the English month name, a space, the two day digits, a comma and a space, and the four year digits of the input. |
| `Dates.OrdinalIsChronological` | routers/events.py:39 | The integer sort key orders dates exactly as year, then month, then day; equal keys mean equal dates. |
| `Dates.IsoOrderIsChronological` | routers/events.py:39 | For zero-padded dates that parse, string order is chronological order. |
| `StableSort.SortByKey` | routers/events.py:39 | The sort returns a permutation of its input in ascending key order. |
| `StableSort.SortItems` | routers/events.py:39 | Sorting neither adds nor loses any decorated element. |
| `StableSort.SortIsStable` | routers/events.py:39-42 | For every key, the elements with that key keep their relative order. |
| `StableSort.SortHeadIsFirstMin` | routers/home.py:28-29 | The head of the sorted list is the first element, in input order, that holds the least key. |
| `DatedEvents.EventDate` | routers/events.py:39 | A record's date is usable exactly when the key exists, holds a string and the string parses. |
| `DatedEvents.KeyByDate` | routers/events.py:39 | Computing all sort keys succeeds exactly when every record has a usable date, and keeps the records in order. |
| `DatedEvents.SortedByDate` | routers/events.py:39-42 | The sort fails exactly when some record has no usable date; otherwise it keeps the length. |
| `DatedEvents.SortedByDateIsPermutation` | routers/events.py:39-42 | The sorted records are exactly the input records. |
| `DatedEvents.SortedByDateIsOrdered` | routers/events.py:39-42 | Sorted records are in nondecreasing date order, or nonincreasing with `reverse=True`. |
| `DatedEvents.SortedByDateIsStable` | routers/events.py:39-42 | Records on the same day keep their stored order, in both directions. |
| `EventsPage.Annotate` | routers/events.py:35-36 | Annotation succeeds exactly for a record with a string date. It adds `formatted_date` set to the formatted date, changes no other key, and keeps the record's date. |
| `EventsPage.AnnotateAll` | routers/events.py:35-36 | Annotating a list succeeds exactly when every record can be annotated, and annotates each record in place. |
| `EventsPage.AnnotateAllConcat` | routers/events.py:35 | Annotating `upcoming + past` annotates each list separately. |
| `EventsPage.EventsView` | routers/events.py:26-51 | The events page fails if and only if some record in the upcoming or the past list has no date string that parses. |
| `EventsPage.EventsViewOfMissingFile` | routers/events.py:10-16 | Without an events file the page lists nothing. |
| `EventsPage.EventsViewSorted` | routers/events.py:35-42 | A page that renders lists permutations of the annotated stored lists: upcoming oldest first and past newest first, with same-day records in stored order. |
| `Home.NextEvent` | routers/home.py:19-29 | A missing file or an empty upcoming list gives no event. Otherwise selection fails exactly when some upcoming date is unusable, and gives an event when none is. |
| `Home.NextEventIsFirstEarliest` | routers/home.py:27-29 | The next event is a stored upcoming record whose date is no later than any other, and the first in stored order among those on that date. |
| `About.LoadTeamData` | routers/about.py:9-15 | A missing team file reads as empty leadership and no teams. |
| `About.Organize` | routers/about.py:36-43 | The ordered team list has no more entries than there are ordered names; each entry is an ordered name that is a key of the file's teams, with that key's members unchanged. |
| `About.OrganizeCovers` | routers/about.py:37-39 | A team is listed if and only if its name is in the fixed order and is a key of the file's teams. |
| `About.OrganizeOrdered` | routers/about.py:27-43 | Listed teams follow the fixed order, not the file's, at strictly increasing positions, so no name appears twice. |
| `About.AboutView` | routers/about.py:18-52 | Leadership is passed through, and is `[]` when absent. At most six teams are shown, each named in the fixed order and in the file, with its members as stored. A missing file gives empty leadership and no teams. |
| `About.AboutViewTeams` | routers/about.py:27-43 | On the about page, a team is shown if and only if it is in both the order and the file, and the shown teams follow the fixed order. |

## Left out

- Reading and writing the data files (`load_events`, `save_events`, `load_team_data`). The stored data is an input, `None` when the file does not exist, and the outcome of the write is a boolean input. A failed write may leave the file truncated; that is not modelled.
- JSON as text: key order inside records, number formatting and indentation are not modelled; records are unordered maps.
- HTTP, templates and redirects. The model keeps only the cookie value and an outcome datatype. Success and error messages in redirect URLs, and re-rendered forms, are not modelled.
- Cookie expiry. The session's 3600-second lifetime is recorded but not enforced, because the model has no clock.
- The logout route, which only deletes the cookie.
- The GET pages for the login form, which is not gated, and the add form, which is behind the gate; both only render templates.
- Form validation by the framework: a missing required field or a non-integer `attendees` is refused before the handler runs. Forms are modelled after validation.
- A stored collection without an `upcoming` or `past` key. The model's collection always has both keys. In the code:
  - add raises `KeyError` before saving;
  - move raises `KeyError` when it appends to a missing target list, after the pop, so nothing is saved;
  - edit, delete and the edit form act on a detached empty list, so they answer not found or `IndexError`.
- A team file whose `teams` value is not an object. It is modelled as a map from names to member values.
- Concurrency and lost updates between requests.
- `main.py` (application wiring, static files, health check) and `static/js/main.js` (browser UI and a countdown on wall-clock time).
- Dates.ParseDate: accepts only ASCII digits. Python's `\d` also matches other Unicode decimal digits, so a few exotic strings that Python parses are rejected here.
- Dates.FormatEventDate: always prints the year with four digits. On platforms whose C library does not pad `%Y`, years below 1000 print shorter. English month names are fixed; other locales are not modelled.
