/** controllers/events_controller.py: events, their tags and their images.
    The session does not autoflush, so a query sees only what was committed:
    the tag lookups of one request do not see the tags that request added.
    Writes that are only added to the session are lost when a later error
    ends the request before the commit. File writes and unlinks are left
    out; the file system appears only as an existence oracle. */
module Events {
  import opened Http
  import opened Tables
  import opened Schema

  datatype ImageCreate = ImageCreate(imageUrl: string, imageDescription: string, imageTitle: string)

  /** The EventCreate request model; eventImages is optional. */
  datatype EventCreate = EventCreate(
    title: string,
    paragraph: string,
    image: string,
    venue: string,
    eventType: string,
    eventDate: Option<string>,
    description: string,
    registrationLink: string,
    tags: seq<string>,
    eventImages: Option<seq<ImageCreate>>)

  /** What `loads` and `EventCreate(**data)` make of the form field: not
      JSON; JSON the request model refuses; or the model with the keys the
      JSON object had. */
  datatype Payload = NotJson | Invalid | Parsed(keys: set<string>, event: EventCreate)

  datatype Upload = Upload(filename: string, contentType: string)

  const INVALID_JSON := Error(400, "Invalid JSON payload", false)
  const IMAGE_REQUIRED := Error(400, "Image field is required", false)
  const INVALID_FILE_TYPE := Error(400, "Invalid file type", false)
  const EVENT_NOT_FOUND := Error(404, "Event not found", false)
  const NO_IMAGES := Error(404, "No images found for this event", false)
  const IMAGE_NOT_FOUND := Error(404, "Image not found", false)
  const FILE_NOT_FOUND := Error(404, "File not found", false)

  const CREATE_TYPES := ["image/jpeg", "image/png"]
  const REPLACE_TYPES := ["image/jpeg", "image/png", "image/webp"]
  const UPDATED_DESCRIPTION := "Updated event image"

  predicate EventExists(events: Table<Event>, id: int) {
    id >= 0 && id in events.rows
  }

  /** The stored date: "TBA" when none is given. */
  function EventDate(d: Option<string>): string {
    if d.None? then "TBA" else d.value
  }

  /** The event row built from a request, with the given tag list. */
  function NewEvent(e: EventCreate, tagIds: seq<nat>): (ev: Event)
    ensures ev.tagIds == tagIds && ev.title == e.title && ev.image == e.image
    ensures ev.paragraph == e.paragraph && ev.venue == e.venue && ev.eventType == e.eventType
    ensures ev.description == e.description && ev.registrationLink == e.registrationLink
    ensures ev.eventDate == if e.eventDate.Some? then e.eventDate.value else "TBA"
  {
    Event(e.title, e.paragraph, e.image, e.venue, e.eventType, EventDate(e.eventDate),
          e.description, e.registrationLink, tagIds)
  }

  // ----- uploads -----

  predicate AllAllowed(uploads: seq<Upload>, allowed: seq<string>) {
    forall i :: 0 <= i < |uploads| ==> uploads[i].contentType in allowed
  }

  /** The content-type check loop: every upload must have an allowed type. */
  method CheckUploads(uploads: seq<Upload>, allowed: seq<string>) returns (ok: bool)
    ensures ok <==> AllAllowed(uploads, allowed)
    ensures !ok ==> exists i :: 0 <= i < |uploads| && uploads[i].contentType !in allowed
  {
    for i := 0 to |uploads|
      invariant forall j :: 0 <= j < i ==> uploads[j].contentType in allowed
    {
      if uploads[i].contentType !in allowed {
        return false;
      }
    }
    return true;
  }

  const UPLOAD_PREFIX := "uploads/events/event_"

  /** Where an upload is stored: uploads/events/event_{id}_{filename}. The
      path lies under the events upload directory and ends with the file
      name. */
  function UploadPath(eventId: nat, filename: string): (p: string)
    ensures |p| > |UPLOAD_PREFIX| + |filename|
    ensures p[..|UPLOAD_PREFIX|] == UPLOAD_PREFIX
    ensures p[|p| - |filename|..] == filename
  {
    UPLOAD_PREFIX + NatToString(eventId) + "_" + filename
  }

  /** The digits of the key end at the first "_" after the prefix. */
  lemma PathFields(eventId: nat, filename: string)
    ensures var p := UploadPath(eventId, filename); var n := |NatToString(eventId)|;
      && |p| == |UPLOAD_PREFIX| + n + 1 + |filename|
      && p[|UPLOAD_PREFIX| + n] == '_'
      && p[|UPLOAD_PREFIX|..|UPLOAD_PREFIX| + n] == NatToString(eventId)
      && p[|UPLOAD_PREFIX| + n + 1..] == filename
      && forall i :: |UPLOAD_PREFIX| <= i < |UPLOAD_PREFIX| + n ==> IsDigit(p[i])
  {
    var s := NatToString(eventId);
    var p := UploadPath(eventId, filename);
    assert p == UPLOAD_PREFIX + s + "_" + filename;
    forall i | |UPLOAD_PREFIX| <= i < |UPLOAD_PREFIX| + |s|
      ensures IsDigit(p[i])
    {
      assert p[i] == s[i - |UPLOAD_PREFIX|];
    }
  }

  /** Different images get different paths: the path determines both the
      event's key and the file name. */
  lemma {:induction false} UploadPathInjective(id1: nat, f1: string, id2: nat, f2: string)
    ensures UploadPath(id1, f1) == UploadPath(id2, f2) ==> id1 == id2 && f1 == f2
  {
    var p := UploadPath(id1, f1);
    if p == UploadPath(id2, f2) {
      PathFields(id1, f1);
      PathFields(id2, f2);
      var s1, s2 := NatToString(id1), NatToString(id2);
      var k := |UPLOAD_PREFIX|;
      assert |s1| == |s2|;
      assert s1 == p[k..k + |s1|] == s2;
      assert id1 == DigitsValue(s1) == id2;
    }
  }

  function UploadRecord(eventId: nat, upload: Upload, meta: ImageCreate): EventImage {
    EventImage(eventId, UploadPath(eventId, upload.filename), meta.imageDescription, Some(meta.imageTitle))
  }

  /** The image rows create_event adds: upload i is described by entry i of
      eventImages. There are none when some upload has no entry (the list
      is missing or too short), which raises in the handler. */
  function UploadedImages(eventId: nat, uploads: seq<Upload>, meta: Option<seq<ImageCreate>>)
    : (r: Option<seq<EventImage>>)
    ensures r.None? <==> |uploads| > 0 && (meta.None? || |meta.value| < |uploads|)
    ensures r.Some? ==> |r.value| == |uploads|
    ensures r.Some? ==> forall i :: 0 <= i < |uploads| ==>
      meta.Some? && r.value[i] == UploadRecord(eventId, uploads[i], meta.value[i])
  {
    if uploads == [] then Some([])
    else
      var i := |uploads| - 1;
      match UploadedImages(eventId, uploads[..i], meta)
      case None => None
      case Some(rows) =>
        if meta.None? || i >= |meta.value| then None
        else Some(rows + [UploadRecord(eventId, uploads[i], meta.value[i])])
  }

  // ----- tags -----

  function ByTagName(name: string): Tag -> bool {
    (t: Tag) => t.tagName == name
  }

  /** The number of names that no committed tag carries. */
  function Missing(committed: Table<Tag>, names: seq<string>): nat
    requires Tables.Valid(committed)
  {
    if names == [] then 0
    else Missing(committed, names[..|names| - 1])
         + (if First(committed, ByTagName(names[|names| - 1])).None? then 1 else 0)
  }

  /** Tag get-or-create as written: each name is looked up among the
      committed tags only; a name found there reuses the first such tag,
      any other name gets a new tag. The result is the tag table after the
      commit and the event's tag list, in input order. */
  function GetOrCreate(committed: Table<Tag>, names: seq<string>): (res: (Table<Tag>, seq<nat>))
    requires Tables.Valid(committed)
    ensures Tables.Valid(res.0) && |res.1| == |names|
    ensures res.0.nextId == committed.nextId + Missing(committed, names)
    ensures forall id :: id in res.0.rows <==> id in committed.rows || committed.nextId <= id < res.0.nextId
    ensures forall id :: id in committed.rows ==> res.0.rows[id] == committed.rows[id]
  {
    if names == [] then (committed, [])
    else
      var (t, ids) := GetOrCreate(committed, names[..|names| - 1]);
      var name := names[|names| - 1];
      match First(committed, ByTagName(name))
      case Some(id) => (t, ids + [id])
      case None =>
        var (t', id) := Insert(t, Tag(name));
        (t', ids + [id])
  }

  /** The i-th listed tag id names a tag called `names[i]`: the first
      committed one when there is one, otherwise a tag the request created. */
  ghost predicate TagLinked(committed: Table<Tag>, names: seq<string>, t: Table<Tag>, ids: seq<nat>, i: int)
    requires Tables.Valid(committed) && 0 <= i < |names| && |ids| == |names|
  {
    && ids[i] in t.rows && t.rows[ids[i]].tagName == names[i]
    && (First(committed, ByTagName(names[i])).Some? ==> ids[i] == First(committed, ByTagName(names[i])).value)
    && (First(committed, ByTagName(names[i])).None? ==> ids[i] !in committed.rows)
  }

  /** Every listed tag id is linked as `TagLinked` says. */
  lemma {:induction false} GetOrCreateLinks(committed: Table<Tag>, names: seq<string>)
    requires Tables.Valid(committed)
    ensures forall i :: 0 <= i < |names| ==>
      TagLinked(committed, names, GetOrCreate(committed, names).0, GetOrCreate(committed, names).1, i)
  {
    if names != [] {
      var n := |names| - 1;
      var prefix := names[..n];
      GetOrCreateLinks(committed, prefix);
      var (t, ids) := GetOrCreate(committed, prefix);
      var (t', ids') := GetOrCreate(committed, names);
      forall i | 0 <= i < |names| ensures TagLinked(committed, names, t', ids', i) {
        if i < n {
          assert TagLinked(committed, prefix, t, ids, i);
          assert ids'[i] == ids[i] && names[i] == prefix[i];
          assert t'.rows[ids[i]] == t.rows[ids[i]];
        } else {
          match First(committed, ByTagName(names[n]))
          case Some(id) =>
            assert ids' == ids + [id] && t' == t;
          case None =>
            assert ids' == ids + [t.nextId] && t' == Insert(t, Tag(names[n])).0;
        }
      }
    }
  }

  /** One more name keeps the ids resolved so far. */
  lemma GetOrCreateKeepsIds(committed: Table<Tag>, names: seq<string>, i: nat)
    requires Tables.Valid(committed) && i < |names| - 1
    ensures GetOrCreate(committed, names).1[i] == GetOrCreate(committed, names[..|names| - 1]).1[i]
  {
  }

  /** A step that either keeps the table or inserts one row keeps every
      existing row. */
  lemma StepKeepsRow(prev: Table<Tag>, res: Table<Tag>, r: Tag, reused: bool, k: nat)
    requires Tables.Valid(prev) && k in prev.rows
    requires reused ==> res == prev
    requires !reused ==> res == Insert(prev, r).0
    ensures k in res.rows && res.rows[k] == prev.rows[k]
  {
  }

  /** The last name reuses a committed tag, leaving the table as it was, or
      adds one row holding it under the next key. */
  lemma GetOrCreateLast(committed: Table<Tag>, names: seq<string>)
    requires Tables.Valid(committed) && names != []
    ensures var n := |names| - 1; var prev := GetOrCreate(committed, names[..n]);
      var res := GetOrCreate(committed, names);
      && (res.1[n] in committed.rows ==> res.0 == prev.0)
      && (res.1[n] !in committed.rows ==>
            && res.0 == Insert(prev.0, Tag(names[n])).0
            && res.1[n] == prev.0.nextId && res.0.nextId == prev.0.nextId + 1
            && res.0.rows[res.1[n]] == Tag(names[n]))
  {
    var n := |names| - 1;
    var prev := GetOrCreate(committed, names[..n]);
    match First(committed, ByTagName(names[n]))
    case Some(id) =>
      assert GetOrCreate(committed, names) == (prev.0, prev.1 + [id]);
    case None =>
      assert GetOrCreate(committed, names) == (Insert(prev.0, Tag(names[n])).0, prev.1 + [prev.0.nextId]);
      assert prev.0.nextId !in committed.rows;
  }

  /** The last name's id is a committed tag's or the next free key. */
  lemma GetOrCreateLastId(committed: Table<Tag>, names: seq<string>)
    requires Tables.Valid(committed) && names != []
    ensures var n := |names| - 1;
      GetOrCreate(committed, names).1[n] !in committed.rows ==>
        GetOrCreate(committed, names).1[n] == GetOrCreate(committed, names[..n]).0.nextId
  {
    GetOrCreateLast(committed, names);
  }

  /** An occurrence whose id is not a committed tag's got a new row holding
      its name. */
  lemma {:induction false} FreshRow(committed: Table<Tag>, names: seq<string>, i: nat)
    requires Tables.Valid(committed) && i < |names|
    ensures var res := GetOrCreate(committed, names);
      res.1[i] !in committed.rows ==>
        && committed.nextId <= res.1[i] < res.0.nextId
        && res.1[i] in res.0.rows && res.0.rows[res.1[i]] == Tag(names[i])
  {
    var n := |names| - 1;
    GetOrCreateLast(committed, names);
    if i < n {
      var prev := GetOrCreate(committed, names[..n]);
      FreshRow(committed, names[..n], i);
      GetOrCreateKeepsIds(committed, names, i);
      if prev.1[i] !in committed.rows {
        StepKeepsRow(prev.0, GetOrCreate(committed, names).0, Tag(names[n]), GetOrCreate(committed, names).1[n] in committed.rows, prev.1[i]);
        assert names[..n][i] == names[i];
      }
    }
  }

  /** A new id listed before the last name differs from the last name's id. */
  lemma FreshBeforeLast(committed: Table<Tag>, names: seq<string>, i: nat)
    requires Tables.Valid(committed) && i < |names| - 1
    ensures var res := GetOrCreate(committed, names);
      res.1[i] !in committed.rows ==> res.1[i] != res.1[|names| - 1]
  {
    var n := |names| - 1;
    var prev := GetOrCreate(committed, names[..n]);
    GetOrCreateKeepsIds(committed, names, i);
    if prev.1[i] !in committed.rows {
      GetOrCreateLastId(committed, names);
      FreshRow(committed, names[..n], i);
    }
  }

  /** Two occurrences never share a new row: an id that is not a committed
      tag's appears once. */
  lemma {:induction false} FreshDistinct(committed: Table<Tag>, names: seq<string>, i: nat, j: nat)
    requires Tables.Valid(committed) && i < j < |names|
    ensures var res := GetOrCreate(committed, names);
      res.1[i] !in committed.rows ==> res.1[i] != res.1[j]
  {
    var n := |names| - 1;
    if j < n {
      FreshDistinct(committed, names[..n], i, j);
      GetOrCreateKeepsIds(committed, names, i);
      GetOrCreateKeepsIds(committed, names, j);
    } else {
      FreshBeforeLast(committed, names, i);
    }
  }

  /** One more name keeps an occurrence's new row and its id. */
  lemma KeptCreated(committed: Table<Tag>, names: seq<string>, i: nat, id: nat)
    requires Tables.Valid(committed) && i < |names| - 1
    requires var prev := GetOrCreate(committed, names[..|names| - 1]);
      prev.1[i] == id && id in prev.0.rows && prev.0.rows[id] == Tag(names[i])
    ensures var res := GetOrCreate(committed, names);
      res.1[i] == id && id in res.0.rows && res.0.rows[id] == Tag(names[i])
  {
    var n := |names| - 1;
    var prev := GetOrCreate(committed, names[..n]);
    var res := GetOrCreate(committed, names);
    GetOrCreateLast(committed, names);
    GetOrCreateKeepsIds(committed, names, i);
    StepKeepsRow(prev.0, res.0, Tag(names[n]), res.1[n] in committed.rows, id);
  }

  /** A key the last name added is that name's id and holds its tag. */
  lemma LastCreated(committed: Table<Tag>, names: seq<string>, id: nat)
    requires Tables.Valid(committed) && names != []
    requires GetOrCreate(committed, names[..|names| - 1]).0.nextId <= id < GetOrCreate(committed, names).0.nextId
    ensures var res := GetOrCreate(committed, names); var n := |names| - 1;
      res.1[n] == id && id in res.0.rows && res.0.rows[id] == Tag(names[n])
  {
    GetOrCreateLast(committed, names);
  }

  /** Every new row is the tag of some occurrence, under that occurrence's id. */
  lemma {:induction false} CreatedForSomeName(committed: Table<Tag>, names: seq<string>, id: nat)
    requires Tables.Valid(committed)
    ensures var res := GetOrCreate(committed, names);
      committed.nextId <= id < res.0.nextId ==>
        exists i :: 0 <= i < |names| && res.1[i] == id && id in res.0.rows && res.0.rows[id] == Tag(names[i])
  {
    var res := GetOrCreate(committed, names);
    if names != [] && committed.nextId <= id < res.0.nextId {
      var n := |names| - 1;
      var prev := GetOrCreate(committed, names[..n]);
      if id < prev.0.nextId {
        CreatedForSomeName(committed, names[..n], id);
        var i :| 0 <= i < n && prev.1[i] == id && id in prev.0.rows && prev.0.rows[id] == Tag(names[..n][i]);
        assert names[..n][i] == names[i];
        KeptCreated(committed, names, i, id);
      } else {
        LastCreated(committed, names, id);
      }
    }
  }

  /** Each new row of one request is the tag of an occurrence whose id it is. */
  lemma GetOrCreateNewRows(committed: Table<Tag>, names: seq<string>)
    requires Tables.Valid(committed)
    ensures var res := GetOrCreate(committed, names);
      forall id :: committed.nextId <= id < res.0.nextId ==>
        exists i :: 0 <= i < |names| && res.1[i] == id && id in res.0.rows && res.0.rows[id] == Tag(names[i])
  {
    forall id | committed.nextId <= id < GetOrCreate(committed, names).0.nextId {
      CreatedForSomeName(committed, names, id);
    }
  }

  /** No two occurrences of one request share a new row. */
  lemma GetOrCreateNewIdsDistinct(committed: Table<Tag>, names: seq<string>)
    requires Tables.Valid(committed)
    ensures var res := GetOrCreate(committed, names);
      forall i, j :: 0 <= i < j < |names| && res.1[i] !in committed.rows ==> res.1[i] != res.1[j]
  {
    forall i, j | 0 <= i < j < |names| {
      FreshDistinct(committed, names, i, j);
    }
  }

  /** A name with no committed tag gets a new tag at each of its
      occurrences, for any request; `RepeatedNewNameCreatesTwoTags` is one
      instance. */
  lemma NewNameEachOccurrence(committed: Table<Tag>, names: seq<string>, i: nat, j: nat)
    requires Tables.Valid(committed) && i < j < |names| && names[i] == names[j]
    requires First(committed, ByTagName(names[i])).None?
    ensures var res := GetOrCreate(committed, names);
      && res.1[i] != res.1[j] && res.1[i] !in committed.rows && res.1[j] !in committed.rows
      && res.1[i] in res.0.rows && res.1[j] in res.0.rows
      && res.0.rows[res.1[i]] == Tag(names[i]) && res.0.rows[res.1[j]] == Tag(names[i])
  {
    var res := GetOrCreate(committed, names);
    GetOrCreateLinks(committed, names);
    assert TagLinked(committed, names, res.0, res.1, i);
    assert TagLinked(committed, names, res.0, res.1, j);
    FreshRow(committed, names, i);
    FreshRow(committed, names, j);
    FreshDistinct(committed, names, i, j);
  }

  /** Resolving one more name extends the result by that name's tag. */
  lemma GetOrCreateStep(committed: Table<Tag>, names: seq<string>, n: nat)
    requires Tables.Valid(committed) && n < |names|
    ensures var (t, ids) := GetOrCreate(committed, names[..n]);
      GetOrCreate(committed, names[..n + 1]) ==
        match First(committed, ByTagName(names[n]))
        case Some(id) => (t, ids + [id])
        case None => (Insert(t, Tag(names[n])).0, ids + [t.nextId])
  {
    assert names[..n + 1][..n] == names[..n];
  }

  /** The tag loop of create_event and update_event. */
  method ResolveTags(committed: Table<Tag>, names: seq<string>) returns (tags: Table<Tag>, ids: seq<nat>)
    requires Tables.Valid(committed)
    ensures (tags, ids) == GetOrCreate(committed, names)
  {
    tags, ids := committed, [];
    for i := 0 to |names|
      invariant (tags, ids) == GetOrCreate(committed, names[..i])
    {
      GetOrCreateStep(committed, names, i);
      var found := First(committed, ByTagName(names[i]));
      if found.Some? {
        ids := ids + [found.value];
      } else {
        var (tags', id) := Insert(tags, Tag(names[i]));
        tags, ids := tags', ids + [id];
      }
    }
    assert names[..|names|] == names;
  }

  /** When every name already has a committed tag, nothing is created. */
  lemma {:induction false} AllKnownCreatesNothing(committed: Table<Tag>, names: seq<string>)
    requires Tables.Valid(committed)
    requires forall i :: 0 <= i < |names| ==> First(committed, ByTagName(names[i])).Some?
    ensures GetOrCreate(committed, names).0 == committed
  {
    if names != [] {
      AllKnownCreatesNothing(committed, names[..|names| - 1]);
    }
  }

  /** Once committed, a second request with the same tags creates no tag. */
  lemma GetOrCreateSettles(committed: Table<Tag>, names: seq<string>)
    requires Tables.Valid(committed)
    ensures var after := GetOrCreate(committed, names).0;
      GetOrCreate(after, names).0 == after
  {
    var (after, ids) := GetOrCreate(committed, names);
    GetOrCreateLinks(committed, names);
    forall i | 0 <= i < |names| ensures First(after, ByTagName(names[i])).Some? {
      assert TagLinked(committed, names, after, ids, i);
      assert ByTagName(names[i])(after.rows[ids[i]]);
    }
    AllKnownCreatesNothing(after, names);
  }

  /** A new name given twice in one request creates two tags of that name. */
  lemma RepeatedNewNameCreatesTwoTags()
    ensures
      var (t, ids) := GetOrCreate(Empty(), ["news", "news"]);
      && ids == [1, 2]
      && t.rows == map[1 := Tag("news"), 2 := Tag("news")]
  {
    var e: Table<Tag> := Empty();
    assert ["news", "news"][..1] == ["news"];
    assert ["news"][..0] == [];
    var (t1, ids1) := GetOrCreate(e, ["news"]);
    assert t1.rows == map[1 := Tag("news")] && ids1 == [1];
  }

  /** No two tags share a name. */
  ghost predicate UniqueTagNames(t: Table<Tag>) {
    forall a, b :: a in t.rows && b in t.rows && a != b ==> t.rows[a].tagName != t.rows[b].tagName
  }

  /** Tag get-or-create as evidently intended: the lookup also sees the tags
      this request has already created. */
  function GetOrCreateIntended(t: Table<Tag>, names: seq<string>): (res: (Table<Tag>, seq<nat>))
    requires Tables.Valid(t)
    ensures Tables.Valid(res.0) && |res.1| == |names| && res.0.nextId >= t.nextId
    ensures forall id :: id in t.rows ==> id in res.0.rows && res.0.rows[id] == t.rows[id]
  {
    if names == [] then (t, [])
    else
      var (t1, ids) := GetOrCreateIntended(t, names[..|names| - 1]);
      var name := names[|names| - 1];
      match First(t1, ByTagName(name))
      case Some(id) => (t1, ids + [id])
      case None =>
        var (t2, id) := Insert(t1, Tag(name));
        (t2, ids + [id])
  }

  /** One more name keeps the ids and rows resolved so far and adds an id
      naming a tag of that name. */
  lemma IntendedStep(t: Table<Tag>, names: seq<string>)
    requires Tables.Valid(t) && names != []
    ensures var n := |names| - 1; var prev := GetOrCreateIntended(t, names[..n]);
      var res := GetOrCreateIntended(t, names);
      && (forall i :: 0 <= i < n ==> res.1[i] == prev.1[i])
      && (forall k :: k in prev.0.rows ==> k in res.0.rows && res.0.rows[k] == prev.0.rows[k])
      && res.1[n] in res.0.rows && res.0.rows[res.1[n]].tagName == names[n]
  {
    var n := |names| - 1;
    var prev := GetOrCreateIntended(t, names[..n]);
    match First(prev.0, ByTagName(names[n]))
    case Some(id) =>
      assert ByTagName(names[n])(prev.0.rows[id]);
    case None =>
  }

  /** With the intended lookup the i-th id names a tag called `names[i]`. */
  lemma {:induction false} IntendedLinkAt(t: Table<Tag>, names: seq<string>, i: nat)
    requires Tables.Valid(t) && i < |names|
    ensures var res := GetOrCreateIntended(t, names);
      res.1[i] in res.0.rows && res.0.rows[res.1[i]].tagName == names[i]
  {
    var n := |names| - 1;
    IntendedStep(t, names);
    if i < n {
      IntendedLinkAt(t, names[..n], i);
      assert names[..n][i] == names[i];
    }
  }

  /** With the intended lookup, tag names that were unique stay unique. */
  lemma {:induction false} IntendedKeepsUnique(t: Table<Tag>, names: seq<string>)
    requires Tables.Valid(t) && UniqueTagNames(t)
    ensures UniqueTagNames(GetOrCreateIntended(t, names).0)
  {
    if names != [] {
      var n := |names| - 1;
      IntendedKeepsUnique(t, names[..n]);
      var t1 := GetOrCreateIntended(t, names[..n]).0;
      var name := names[n];
      if First(t1, ByTagName(name)).None? {
        var t2 := Insert(t1, Tag(name)).0;
        assert GetOrCreateIntended(t, names).0 == t2;
        forall k | k in t1.rows ensures t1.rows[k].tagName != name {
          assert !ByTagName(name)(t1.rows[k]);
        }
      }
    }
  }

  /** With the intended lookup, equal names in one request share one tag. */
  lemma IntendedSharesRepeatedNames(t: Table<Tag>, names: seq<string>, i: nat, j: nat)
    requires Tables.Valid(t) && UniqueTagNames(t)
    requires i < |names| && j < |names| && names[i] == names[j]
    ensures GetOrCreateIntended(t, names).1[i] == GetOrCreateIntended(t, names).1[j]
  {
    var (t', ids) := GetOrCreateIntended(t, names);
    IntendedLinkAt(t, names, i);
    IntendedLinkAt(t, names, j);
    IntendedKeepsUnique(t, names);
    assert t'.rows[ids[i]].tagName == t'.rows[ids[j]].tagName;
  }

  // ----- create_event -----

  /** The checks create_event makes before it writes anything, in order:
      the caller's token, the JSON, the request model, the "image" key and
      the content types. */
  function CreateRefusal(user: Result<nat>, payload: Payload, uploads: seq<Upload>): (e: Option<Error>)
    ensures user.Fail? ==> e == Some(user.error)
    ensures user.Ok? && payload.NotJson? ==> e == Some(INVALID_JSON)
    ensures user.Ok? && payload.Invalid? ==> e == Some(UNEXPECTED)
    ensures user.Ok? && payload.Parsed? && "image" !in payload.keys ==> e == Some(IMAGE_REQUIRED)
    ensures user.Ok? && payload.Parsed? && "image" in payload.keys ==>
      (e.None? <==> AllAllowed(uploads, CREATE_TYPES)) && (e.Some? ==> e == Some(INVALID_FILE_TYPE))
  {
    if user.Fail? then Some(user.error)
    else if payload.NotJson? then Some(INVALID_JSON)
    else if payload.Invalid? then Some(UNEXPECTED)
    else if "image" !in payload.keys then Some(IMAGE_REQUIRED)
    else if !AllAllowed(uploads, CREATE_TYPES) then Some(INVALID_FILE_TYPE)
    else None
  }

  /** The image loop of create_event: one record per upload, described by
      the eventImages entry at the upload's index; None where an entry is
      missing, which raises. */
  method UploadRecords(eventId: nat, uploads: seq<Upload>, meta: Option<seq<ImageCreate>>)
    returns (rows: Option<seq<EventImage>>)
    ensures rows == UploadedImages(eventId, uploads, meta)
  {
    var done: seq<EventImage> := [];
    for i := 0 to |uploads|
      invariant UploadedImages(eventId, uploads[..i], meta) == Some(done)
    {
      assert uploads[..i + 1][..i] == uploads[..i];
      if meta.None? || i >= |meta.value| {
        return None;
      }
      done := done + [UploadRecord(eventId, uploads[i], meta.value[i])];
    }
    assert uploads[..|uploads|] == uploads;
    rows := Some(done);
  }

  /** The writes of create_event once its checks have passed. */
  method StoreEvent(db: Session, e: EventCreate, uploads: seq<Upload>) returns (r: Result<nat>)
    requires Tables.Valid(db.events) && Tables.Valid(db.tags) && Tables.Valid(db.images)
    modifies db`events, db`tags, db`images
    ensures Tables.Valid(db.events) && Tables.Valid(db.tags) && Tables.Valid(db.images)
    ensures
      var id := old(db.events).nextId;
      var rows := UploadedImages(id, uploads, e.eventImages);
      var (tags', tagIds) := GetOrCreate(old(db.tags), e.tags);
      && (rows.None? ==>
            && r == Fail(UNEXPECTED)
            && db.events == Insert(old(db.events), NewEvent(e, [])).0
            && db.tags == old(db.tags) && db.images == old(db.images))
      && (rows.Some? ==>
            && r == Ok(id)
            && db.events == Insert(old(db.events), NewEvent(e, tagIds)).0
            && db.tags == tags'
            && db.images == InsertAll(old(db.images), rows.value).0)
  {
    var (events', id) := Insert(db.events, NewEvent(e, []));
    db.events := events';
    // The tags and the image rows stay in the session until the last commit.
    var tags', tagIds := ResolveTags(db.tags, e.tags);
    var rows := UploadRecords(id, uploads, e.eventImages);
    if rows.None? {
      return Fail(UNEXPECTED);
    }
    UpdateInserted(old(db.events), NewEvent(e, []), NewEvent(e, tagIds));
    db.events := Update(db.events, id, NewEvent(e, tagIds));
    db.tags := tags';
    db.images := InsertAll(db.images, rows.value).0;
    r := Ok(id);
  }

  /** POST /event. The event row is committed first, without tags; the tags
      and the image rows are committed together at the end. An upload
      without an eventImages entry raises in between: the event row stays,
      without tags or images. The answer is the new event's key. */
  method CreateEvent(db: Session, user: Result<nat>, payload: Payload, uploads: seq<Upload>) returns (r: Result<nat>)
    requires Tables.Valid(db.events) && Tables.Valid(db.tags) && Tables.Valid(db.images)
    modifies db`events, db`tags, db`images
    ensures Tables.Valid(db.events) && Tables.Valid(db.tags) && Tables.Valid(db.images)
    ensures CreateRefusal(user, payload, uploads).Some? ==>
      && r == Fail(CreateRefusal(user, payload, uploads).value)
      && db.events == old(db.events) && db.tags == old(db.tags) && db.images == old(db.images)
    ensures CreateRefusal(user, payload, uploads).None? ==>
      var e := payload.event;
      var id := old(db.events).nextId;
      var rows := UploadedImages(id, uploads, e.eventImages);
      var (tags', tagIds) := GetOrCreate(old(db.tags), e.tags);
      && (rows.None? ==>
            && r == Fail(UNEXPECTED)
            && db.events == Insert(old(db.events), NewEvent(e, [])).0
            && db.tags == old(db.tags) && db.images == old(db.images))
      && (rows.Some? ==>
            && r == Ok(id)
            && db.events == Insert(old(db.events), NewEvent(e, tagIds)).0
            && db.tags == tags'
            && db.images == InsertAll(old(db.images), rows.value).0)
  {
    if user.Fail? {
      return Fail(user.error);
    }
    if payload.NotJson? {
      return Fail(INVALID_JSON);
    }
    if payload.Invalid? {
      return Fail(UNEXPECTED);
    }
    if "image" !in payload.keys {
      return Fail(IMAGE_REQUIRED);
    }
    var allowed := CheckUploads(uploads, CREATE_TYPES);
    if !allowed {
      return Fail(INVALID_FILE_TYPE);
    }
    r := StoreEvent(db, payload.event, uploads);
  }

  // ----- reads -----

  /** GET /event/{id}. */
  function GetEvent(events: Table<Event>, id: int): (r: Result<Event>)
    requires Tables.Valid(events)
    ensures r.Fail? <==> !EventExists(events, id)
    ensures r.Fail? ==> r.error == EVENT_NOT_FOUND
    ensures r.Ok? ==> r.value == events.rows[id]
  {
    if !EventExists(events, id) then Fail(EVENT_NOT_FOUND) else Ok(events.rows[id])
  }

  /** GET /events. */
  function GetAllEvents(events: Table<Event>): (r: seq<(nat, Event)>)
    requires Tables.Valid(events)
    ensures forall i :: 0 <= i < |r| ==> r[i].0 in events.rows && r[i].1 == events.rows[r[i].0]
    ensures forall i, j :: 0 <= i < j < |r| ==> r[i].0 < r[j].0
    ensures forall id :: id in events.rows ==> (id, events.rows[id]) in r
  {
    All(events)
  }

  /** GET /tags. */
  function GetAllTags(tags: Table<Tag>): (r: seq<(nat, Tag)>)
    requires Tables.Valid(tags)
    ensures forall i :: 0 <= i < |r| ==> r[i].0 in tags.rows && r[i].1 == tags.rows[r[i].0]
    ensures forall i, j :: 0 <= i < j < |r| ==> r[i].0 < r[j].0
    ensures forall id :: id in tags.rows ==> (id, tags.rows[id]) in r
  {
    All(tags)
  }

  /** GET /event-images. */
  function GetAllEventImages(images: Table<EventImage>): (r: seq<(nat, EventImage)>)
    requires Tables.Valid(images)
    ensures forall i :: 0 <= i < |r| ==> r[i].0 in images.rows && r[i].1 == images.rows[r[i].0]
    ensures forall i, j :: 0 <= i < j < |r| ==> r[i].0 < r[j].0
    ensures forall id :: id in images.rows ==> (id, images.rows[id]) in r
  {
    All(images)
  }

  function ForEvent(eventId: int): EventImage -> bool {
    (img: EventImage) => img.eventId == eventId
  }

  /** The keys of an event's images. */
  function ImagesOf(images: Table<EventImage>, eventId: int): (ks: set<nat>)
    ensures forall k :: k in ks <==> k in images.rows && images.rows[k].eventId == eventId
  {
    set k | k in images.rows && images.rows[k].eventId == eventId
  }

  /** GET /event/{id}/images: 404 when the event has no image, whether or
      not the event exists. */
  function GetEventImages(images: Table<EventImage>, eventId: int): (r: Result<seq<(nat, EventImage)>>)
    requires Tables.Valid(images)
    ensures r.Fail? <==> ImagesOf(images, eventId) == {}
    ensures r.Fail? ==> r.error == NO_IMAGES
    ensures r.Ok? ==> forall i :: 0 <= i < |r.value| ==>
      r.value[i].0 in images.rows && r.value[i].1 == images.rows[r.value[i].0] && r.value[i].1.eventId == eventId
    ensures r.Ok? ==> forall i, j :: 0 <= i < j < |r.value| ==> r.value[i].0 < r.value[j].0
    ensures r.Ok? ==> forall k :: k in ImagesOf(images, eventId) ==> (k, images.rows[k]) in r.value
  {
    var ids := Where(images, ForEvent(eventId));
    if ids == [] then
      assert forall k :: k in images.rows ==> !ForEvent(eventId)(images.rows[k]);
      assert ImagesOf(images, eventId) == {};
      Fail(NO_IMAGES)
    else
      var listed := Listing(images, ids);
      assert ids[0] in ImagesOf(images, eventId);
      assert forall k :: k in ImagesOf(images, eventId) ==> (k, images.rows[k]) in listed by {
        forall k | k in ImagesOf(images, eventId) ensures (k, images.rows[k]) in listed {
          assert ForEvent(eventId)(images.rows[k]);
          var i :| 0 <= i < |ids| && ids[i] == k;
          assert listed[i] == (k, images.rows[k]);
        }
      }
      Ok(listed)
  }

  /** GET /event-images/{id}/file: the stored path, when both the row and
      the file exist. */
  function DownloadEventImage(images: Table<EventImage>, imageId: int, fileExists: string -> bool): (r: Result<string>)
    ensures r.Fail? ==> r.error.code == 404
    ensures (imageId < 0 || imageId !in images.rows) ==> r == Fail(IMAGE_NOT_FOUND)
    ensures imageId >= 0 && imageId in images.rows ==>
      var path := images.rows[imageId].imageUrl;
      r == if fileExists(path) then Ok(path) else Fail(FILE_NOT_FOUND)
  {
    if imageId < 0 || imageId !in images.rows then Fail(IMAGE_NOT_FOUND)
    else
      var path := images.rows[imageId].imageUrl;
      if !fileExists(path) then Fail(FILE_NOT_FOUND) else Ok(path)
  }

  // ----- update_event -----

  /** The image rows update_event adds: url and description from the
      request, no title. */
  function Replacement(eventId: nat, metas: seq<ImageCreate>): (rows: seq<EventImage>)
    ensures |rows| == |metas|
    ensures forall i :: 0 <= i < |rows| ==>
      rows[i] == EventImage(eventId, metas[i].imageUrl, metas[i].imageDescription, None)
  {
    seq(|metas|, i requires 0 <= i < |metas| => EventImage(eventId, metas[i].imageUrl, metas[i].imageDescription, None))
  }

  /** The response model requires every image of the event to have a title. */
  predicate Renderable(rows: seq<EventImage>) {
    forall i :: 0 <= i < |rows| ==> rows[i].imageTitle.Some?
  }

  /** PUT /event/{id}: overwrite every field, rebuild the tag list, replace
      the event's images. eventImages missing raises before the commit, so
      nothing is stored. The images are stored without a title, which the
      response model refuses after the commit whenever there are any. */
  method UpdateEvent(db: Session, user: Result<nat>, eventId: int, req: EventCreate) returns (r: Result<nat>)
    requires Tables.Valid(db.events) && Tables.Valid(db.tags) && Tables.Valid(db.images)
    modifies db`events, db`tags, db`images
    ensures Tables.Valid(db.events) && Tables.Valid(db.tags) && Tables.Valid(db.images)
    ensures user.Fail? || !EventExists(old(db.events), eventId) || req.eventImages.None? ==>
      && r == (if user.Fail? then Fail(user.error)
               else if !EventExists(old(db.events), eventId) then Fail(EVENT_NOT_FOUND)
               else Fail(UNEXPECTED))
      && db.events == old(db.events) && db.tags == old(db.tags) && db.images == old(db.images)
    ensures user.Ok? && EventExists(old(db.events), eventId) && req.eventImages.Some? ==>
      var (tags', tagIds) := GetOrCreate(old(db.tags), req.tags);
      var rows := Replacement(eventId, req.eventImages.value);
      && db.tags == tags'
      && db.events == Update(old(db.events), eventId, NewEvent(req, tagIds))
      && db.images == InsertAll(Delete(old(db.images), ImagesOf(old(db.images), eventId)), rows).0
      && r == (if Renderable(rows) then Ok(eventId) else Fail(UNEXPECTED))
  {
    if user.Fail? {
      return Fail(user.error);
    }
    if !EventExists(db.events, eventId) {
      return Fail(EVENT_NOT_FOUND);
    }
    if req.eventImages.None? {
      return Fail(UNEXPECTED);
    }
    var tags', tagIds := ResolveTags(db.tags, req.tags);
    var kept := Delete(db.images, ImagesOf(db.images, eventId));
    var rows := Replacement(eventId, req.eventImages.value);
    var images := InsertEach(kept, rows);
    db.events := Update(db.events, eventId, NewEvent(req, tagIds));
    db.tags := tags';
    db.images := images;
    if Renderable(rows) {
      r := Ok(eventId);
    } else {
      r := Fail(UNEXPECTED);
    }
  }

  /** Any replacement image makes update_event answer 500 after its commit. */
  lemma ReplacementNotRenderable(eventId: nat, metas: seq<ImageCreate>)
    ensures Renderable(Replacement(eventId, metas)) <==> metas == []
  {
    if metas != [] {
      assert Replacement(eventId, metas)[0].imageTitle.None?;
    }
  }

  /** The replacement rows as evidently intended: with the requested title. */
  function ReplacementIntended(eventId: nat, metas: seq<ImageCreate>): (rows: seq<EventImage>)
    ensures |rows| == |metas| && Renderable(rows)
    ensures forall i :: 0 <= i < |rows| ==>
      rows[i] == EventImage(eventId, metas[i].imageUrl, metas[i].imageDescription, Some(metas[i].imageTitle))
  {
    seq(|metas|, i requires 0 <= i < |metas| =>
      EventImage(eventId, metas[i].imageUrl, metas[i].imageDescription, Some(metas[i].imageTitle)))
  }

  // ----- update_event_partial -----

  /** The partial update model: None marks a field that was not sent. */
  datatype EventUpdateRequest = EventUpdateRequest(
    title: Option<string>,
    paragraph: Option<string>,
    image: Option<string>,
    venue: Option<string>,
    eventType: Option<string>,
    eventDate: Option<string>,
    description: Option<string>,
    registrationLink: Option<string>)

  datatype Field = Title | Paragraph | Image | Venue | EventType | EventDateField | Description | RegistrationLink

  /** The dump entry of one field: present only when the field was sent. */
  function Opt(o: Option<string>, f: Field): seq<(Field, string)> {
    if o.Some? then [(f, o.value)] else []
  }

  /** The request's value for a field: None when it was not sent. */
  function Sent(u: EventUpdateRequest, f: Field): Option<string> {
    match f
    case Title => u.title
    case Paragraph => u.paragraph
    case Image => u.image
    case Venue => u.venue
    case EventType => u.eventType
    case EventDateField => u.eventDate
    case Description => u.description
    case RegistrationLink => u.registrationLink
  }

  /** An event's value for a field. */
  function Stored(e: Event, f: Field): string {
    match f
    case Title => e.title
    case Paragraph => e.paragraph
    case Image => e.image
    case Venue => e.venue
    case EventType => e.eventType
    case EventDateField => e.eventDate
    case Description => e.description
    case RegistrationLink => e.registrationLink
  }

  /** A field's position in the request model's declaration. */
  function Rank(f: Field): nat {
    match f
    case Title => 0
    case Paragraph => 1
    case Image => 2
    case Venue => 3
    case EventType => 4
    case EventDateField => 5
    case Description => 6
    case RegistrationLink => 7
  }

  /** d is the dump of the fields declared before position r: the sent ones
      with their values, each once, in declaration order. */
  ghost predicate DumpOf(u: EventUpdateRequest, d: seq<(Field, string)>, r: nat) {
    && |d| <= r
    && (forall i :: 0 <= i < |d| ==> Rank(d[i].0) < r && Sent(u, d[i].0) == Some(d[i].1))
    && (forall f :: Rank(f) < r && Sent(u, f).Some? ==> (f, Sent(u, f).value) in d)
    && (forall i, j :: 0 <= i < j < |d| ==> Rank(d[i].0) < Rank(d[j].0))
  }

  lemma RankInjective(f: Field, g: Field)
    ensures Rank(f) == Rank(g) ==> f == g
  {
  }

  /** Dumping the next declared field extends the dump by that field if sent. */
  lemma DumpStep(u: EventUpdateRequest, d: seq<(Field, string)>, f: Field)
    requires DumpOf(u, d, Rank(f))
    ensures DumpOf(u, d + Opt(Sent(u, f), f), Rank(f) + 1)
  {
    var d' := d + Opt(Sent(u, f), f);
    forall g | Rank(g) < Rank(f) + 1 && Sent(u, g).Some?
      ensures (g, Sent(u, g).value) in d'
    {
      RankInjective(f, g);
      if Rank(g) < Rank(f) {
        assert (g, Sent(u, g).value) in d;
      } else {
        assert d'[|d|] == (g, Sent(u, g).value);
      }
    }
  }

  /** A dump of all eight fields holds every sent field. */
  lemma DumpAll(u: EventUpdateRequest, d: seq<(Field, string)>)
    requires DumpOf(u, d, 8)
    ensures |d| <= 8
    ensures forall i :: 0 <= i < |d| ==> Sent(u, d[i].0) == Some(d[i].1)
    ensures forall f :: Sent(u, f).Some? ==> (f, Sent(u, f).value) in d
    ensures forall i, j :: 0 <= i < j < |d| ==> Rank(d[i].0) < Rank(d[j].0)
  {
    assert forall f :: Rank(f) < 8;
  }

  /** `model_dump(exclude_unset=True)`: exactly the sent fields with their
      values, each once, in declaration order. */
  function ModelDump(u: EventUpdateRequest): (d: seq<(Field, string)>)
    ensures |d| <= 8
    ensures forall i :: 0 <= i < |d| ==> Sent(u, d[i].0) == Some(d[i].1)
    ensures forall f :: Sent(u, f).Some? ==> (f, Sent(u, f).value) in d
    ensures forall i, j :: 0 <= i < j < |d| ==> Rank(d[i].0) < Rank(d[j].0)
  {
    var d1 := Opt(u.title, Title);
    DumpStep(u, [], Title);
    assert [] + d1 == d1;
    var d2 := d1 + Opt(u.paragraph, Paragraph);
    DumpStep(u, d1, Paragraph);
    var d3 := d2 + Opt(u.image, Image);
    DumpStep(u, d2, Image);
    var d4 := d3 + Opt(u.venue, Venue);
    DumpStep(u, d3, Venue);
    var d5 := d4 + Opt(u.eventType, EventType);
    DumpStep(u, d4, EventType);
    var d6 := d5 + Opt(u.eventDate, EventDateField);
    DumpStep(u, d5, EventDateField);
    var d7 := d6 + Opt(u.description, Description);
    DumpStep(u, d6, Description);
    var d8 := d7 + Opt(u.registrationLink, RegistrationLink);
    DumpStep(u, d7, RegistrationLink);
    DumpAll(u, d8);
    d8
  }

  /** `setattr(event, key, value)`. */
  function SetField(e: Event, f: Field, v: string): Event {
    match f
    case Title => e.(title := v)
    case Paragraph => e.(paragraph := v)
    case Image => e.(image := v)
    case Venue => e.(venue := v)
    case EventType => e.(eventType := v)
    case EventDateField => e.(eventDate := v)
    case Description => e.(description := v)
    case RegistrationLink => e.(registrationLink := v)
  }

  function SetAll(e: Event, d: seq<(Field, string)>): Event {
    if d == [] then e else SetField(SetAll(e, d[..|d| - 1]), d[|d| - 1].0, d[|d| - 1].1)
  }

  function Or(o: Option<string>, s: string): string {
    if o.Some? then o.value else s
  }

  /** The event with every sent field replaced and every other one kept. */
  function Patched(e: Event, u: EventUpdateRequest): (p: Event)
    ensures p.tagIds == e.tagIds
    ensures forall f :: Sent(u, f).Some? ==> Stored(p, f) == Sent(u, f).value
    ensures forall f :: Sent(u, f).None? ==> Stored(p, f) == Stored(e, f)
  {
    Event(Or(u.title, e.title), Or(u.paragraph, e.paragraph), Or(u.image, e.image), Or(u.venue, e.venue),
          Or(u.eventType, e.eventType), Or(u.eventDate, e.eventDate), Or(u.description, e.description),
          Or(u.registrationLink, e.registrationLink), e.tagIds)
  }

  /** Setting a field only when it was sent. */
  function Apply(e: Event, o: Option<string>, f: Field): Event {
    if o.Some? then SetField(e, f, o.value) else e
  }

  lemma SetAllStep(e: Event, d: seq<(Field, string)>, o: Option<string>, f: Field)
    ensures SetAll(e, d + Opt(o, f)) == Apply(SetAll(e, d), o, f)
  {
    if o.Some? {
      assert (d + Opt(o, f))[..|d|] == d;
    } else {
      assert d + Opt(o, f) == d;
    }
  }

  /** The setattr loop over the dump is the patch. */
  lemma SetAllIsPatch(e: Event, u: EventUpdateRequest)
    ensures SetAll(e, ModelDump(u)) == Patched(e, u)
  {
    var d1 := Opt(u.title, Title);
    var d2 := d1 + Opt(u.paragraph, Paragraph);
    var d3 := d2 + Opt(u.image, Image);
    var d4 := d3 + Opt(u.venue, Venue);
    var d5 := d4 + Opt(u.eventType, EventType);
    var d6 := d5 + Opt(u.eventDate, EventDateField);
    var d7 := d6 + Opt(u.description, Description);
    var d8 := d7 + Opt(u.registrationLink, RegistrationLink);
    assert [] + d1 == d1;
    var e1 := e.(title := Or(u.title, e.title));
    assert SetAll(e, d1) == e1 by { SetAllStep(e, [], u.title, Title); }
    var e2 := e1.(paragraph := Or(u.paragraph, e.paragraph));
    assert SetAll(e, d2) == e2 by { SetAllStep(e, d1, u.paragraph, Paragraph); }
    var e3 := e2.(image := Or(u.image, e.image));
    assert SetAll(e, d3) == e3 by { SetAllStep(e, d2, u.image, Image); }
    var e4 := e3.(venue := Or(u.venue, e.venue));
    assert SetAll(e, d4) == e4 by { SetAllStep(e, d3, u.venue, Venue); }
    var e5 := e4.(eventType := Or(u.eventType, e.eventType));
    assert SetAll(e, d5) == e5 by { SetAllStep(e, d4, u.eventType, EventType); }
    var e6 := e5.(eventDate := Or(u.eventDate, e.eventDate));
    assert SetAll(e, d6) == e6 by { SetAllStep(e, d5, u.eventDate, EventDateField); }
    var e7 := e6.(description := Or(u.description, e.description));
    assert SetAll(e, d7) == e7 by { SetAllStep(e, d6, u.description, Description); }
    SetAllStep(e, d7, u.registrationLink, RegistrationLink);
  }

  /** Applying the same patch twice is applying it once. */
  lemma PatchIdempotent(e: Event, u: EventUpdateRequest)
    ensures Patched(Patched(e, u), u) == Patched(e, u)
  {
  }

  /** PATCH /events/{id}: set the sent fields, keep the rest. No token is
      required. */
  method UpdateEventPartial(db: Session, eventId: int, u: EventUpdateRequest) returns (r: Result<Event>)
    requires Tables.Valid(db.events)
    modifies db`events
    ensures Tables.Valid(db.events)
    ensures !EventExists(old(db.events), eventId) ==> r == Fail(EVENT_NOT_FOUND) && db.events == old(db.events)
    ensures EventExists(old(db.events), eventId) ==>
      var patched := Patched(old(db.events).rows[eventId], u);
      db.events == Update(old(db.events), eventId, patched) && r == Ok(patched)
  {
    if !EventExists(db.events, eventId) {
      return Fail(EVENT_NOT_FOUND);
    }
    var e0 := db.events.rows[eventId];
    var dump := ModelDump(u);
    var e := e0;
    for i := 0 to |dump|
      invariant e == SetAll(e0, dump[..i])
    {
      assert dump[..i + 1][..i] == dump[..i];
      e := SetField(e, dump[i].0, dump[i].1);
    }
    assert dump[..|dump|] == dump;
    SetAllIsPatch(e0, u);
    db.events := Update(db.events, eventId, e);
    r := Ok(e);
  }

  // ----- deletes and image replacement -----

  /** DELETE /event/{id}: remove the event row (its tag links go with it).
      Its image rows are left in the table. */
  method DeleteEvent(db: Session, user: Result<nat>, eventId: int) returns (r: Result<string>)
    requires Tables.Valid(db.events)
    modifies db`events
    ensures Tables.Valid(db.events)
    ensures user.Fail? ==> r == Fail(user.error) && db.events == old(db.events)
    ensures user.Ok? && !EventExists(old(db.events), eventId) ==>
      r == Fail(EVENT_NOT_FOUND) && db.events == old(db.events)
    ensures user.Ok? && EventExists(old(db.events), eventId) ==>
      r == Ok("Event deleted successfully") && db.events == Delete(old(db.events), {eventId})
  {
    if user.Fail? {
      return Fail(user.error);
    }
    if !EventExists(db.events, eventId) {
      return Fail(EVENT_NOT_FOUND);
    }
    db.events := Delete(db.events, {eventId});
    r := Ok("Event deleted successfully");
  }

  /** DELETE /event/{id}/images/{image_id}: only an image of that event. */
  method DeleteEventImage(db: Session, eventId: int, imageId: int) returns (r: Result<string>)
    requires Tables.Valid(db.images)
    modifies db`images
    ensures Tables.Valid(db.images)
    ensures r.Fail? <==> imageId < 0 || imageId !in old(db.images).rows || old(db.images).rows[imageId].eventId != eventId
    ensures r.Fail? ==> r.error == IMAGE_NOT_FOUND && db.images == old(db.images)
    ensures r.Ok? ==> r.value == "Image deleted successfully" && db.images == Delete(old(db.images), {imageId})
  {
    if imageId < 0 || imageId !in db.images.rows || db.images.rows[imageId].eventId != eventId {
      return Fail(IMAGE_NOT_FOUND);
    }
    db.images := Delete(db.images, {imageId});
    r := Ok("Image deleted successfully");
  }

  function ReplacedRecord(eventId: nat, upload: Upload): EventImage {
    EventImage(eventId, UploadPath(eventId, upload.filename), UPDATED_DESCRIPTION, Some(upload.filename))
  }

  /** PUT /event/{id}/images: delete the event's images, then add one row per
      upload; a disallowed type (JPEG, PNG and WebP are allowed) raises
      before the commit, so nothing changes. */
  method UpdateEventImages(db: Session, eventId: int, uploads: seq<Upload>) returns (r: Result<string>)
    requires Tables.Valid(db.images)
    modifies db`images
    ensures Tables.Valid(db.images)
    ensures !EventExists(db.events, eventId) ==> r == Fail(EVENT_NOT_FOUND) && db.images == old(db.images)
    ensures EventExists(db.events, eventId) && !AllAllowed(uploads, REPLACE_TYPES) ==>
      r == Fail(INVALID_FILE_TYPE) && db.images == old(db.images)
    ensures EventExists(db.events, eventId) && AllAllowed(uploads, REPLACE_TYPES) ==>
      && r == Ok("Event images updated successfully")
      && db.images == InsertAll(Delete(old(db.images), ImagesOf(old(db.images), eventId)),
                                seq(|uploads|, i requires 0 <= i < |uploads| => ReplacedRecord(eventId, uploads[i]))).0
  {
    if !EventExists(db.events, eventId) {
      return Fail(EVENT_NOT_FOUND);
    }
    var kept := Delete(db.images, ImagesOf(db.images, eventId));
    var rows: seq<EventImage> := [];
    for i := 0 to |uploads|
      invariant db.images == old(db.images)
      invariant forall j :: 0 <= j < i ==> uploads[j].contentType in REPLACE_TYPES
      invariant |rows| == i && forall j :: 0 <= j < i ==> rows[j] == ReplacedRecord(eventId, uploads[j])
    {
      if uploads[i].contentType !in REPLACE_TYPES {
        return Fail(INVALID_FILE_TYPE);
      }
      rows := rows + [ReplacedRecord(eventId, uploads[i])];
    }
    assert rows == seq(|uploads|, i requires 0 <= i < |uploads| => ReplacedRecord(eventId, uploads[i]));
    db.images := InsertAll(kept, rows).0;
    r := Ok("Event images updated successfully");
  }

  /** After a replacement, the event's images are exactly the new uploads. */
  lemma ReplacedImagesAreTheUploads(images: Table<EventImage>, eventId: nat, uploads: seq<Upload>)
    requires Tables.Valid(images)
    ensures
      var rows := seq(|uploads|, i requires 0 <= i < |uploads| => ReplacedRecord(eventId, uploads[i]));
      var after := InsertAll(Delete(images, ImagesOf(images, eventId)), rows).0;
      Where(after, ForEvent(eventId)) == Range(images.nextId, |uploads|)
  {
    var rows := seq(|uploads|, i requires 0 <= i < |uploads| => ReplacedRecord(eventId, uploads[i]));
    var kept := Delete(images, ImagesOf(images, eventId));
    assert forall k :: k in kept.rows ==> !ForEvent(eventId)(kept.rows[k]);
    WhereNone(kept, ForEvent(eventId));
    WhereInsertAllMatching(kept, ForEvent(eventId), rows);
    assert [] + Range(images.nextId, |uploads|) == Range(images.nextId, |uploads|);
  }
}
