/**
 The `pictures` table and the rules that decide what a Drive file or change does to
 it: the `^image/` filter, the metadata a record is built from, `INSERT OR IGNORE`,
 delete by id, and the per-page effects of a full listing and of a change page.
 The table is a map from id (its primary key) to record.
 */
module Catalog {
  import opened Wrappers
  import opened Drive
  import CaptureTime

  /** One row of the `pictures` table. */
  datatype Picture = Picture(
    id: string,
    ext: string,
    author: Option<string>,
    added: int,
    taken: Option<int>,
    location: Option<string>)

  type Table = map<string, Picture>

  /** `mimeRegex.test(mimeType)` with `mimeRegex = /^image\//`. */
  predicate IsImage(mimeType: string) {
    "image/" <= mimeType
  }

  /** A location still awaiting geocoding: `location LIKE '{%'`, or `location[0] === '{'` on a non-empty string. */
  predicate IsPending(location: Option<string>) {
    location.Some? && |location.value| > 0 && location.value[0] == '{'
  }

  /** The body of `JSON.stringify({lat, lon})`: a key whose value is undefined is left out. */
  function CoordsFields(c: Coords): string {
    match (c.latitude, c.longitude)
    case (Some(lat), Some(lon)) => "\"lat\":" + lat + ",\"lon\":" + lon
    case (Some(lat), None) => "\"lat\":" + lat
    case (None, Some(lon)) => "\"lon\":" + lon
    case (None, None) => ""
  }

  /** The pending-geocode marker stored in `location`: the serialised coordinates. */
  function CoordsMarker(c: Coords): (marker: string)
    ensures IsPending(Some(marker))
    ensures |marker| >= 2 && marker[|marker| - 1] == '}'
  {
    "{" + CoordsFields(c) + "}"
  }

  /** `file.owners && file.owners[0] && file.owners[0].displayName`. */
  function Author(owners: seq<Owner>): (author: Option<string>)
    ensures |owners| == 0 ==> author == None
    ensures |owners| > 0 ==> author == owners[0].displayName
  {
    if |owners| == 0 then None else owners[0].displayName
  }

  /**
   The capture time: a truthy string is normalised and parsed (`unixOf` stands for
   `moment(...).unix()`), a truthy number is used as it is, anything else is absent.
   */
  function Taken(md: Option<MediaMetadata>, unixOf: string -> int): (taken: Option<int>)
    ensures md.None? || md.value.time.None? ==> taken == None
    ensures md.Some? && md.value.time == Some(TimeNumber(0)) ==> taken == None
    ensures md.Some? && md.value.time == Some(TimeText("")) ==> taken == None
    ensures md.Some? && md.value.time.Some? && md.value.time.value.TimeNumber? && md.value.time.value.seconds != 0 ==>
              taken == Some(md.value.time.value.seconds)
    ensures md.Some? && md.value.time.Some? && md.value.time.value.TimeText? && md.value.time.value.text != "" ==>
              taken == Some(unixOf(CaptureTime.NormalizeSeparators(md.value.time.value.text)))
  {
    match md
    case None => None
    case Some(m) =>
      match m.time
      case None => None
      case Some(TimeText(text)) => if text == "" then None else Some(unixOf(CaptureTime.NormalizeSeparators(text)))
      case Some(TimeNumber(seconds)) => if seconds == 0 then None else Some(seconds)
  }

  /** The location column: the coordinates marker when the metadata has a location, otherwise null. */
  function Location(md: Option<MediaMetadata>): (location: Option<string>)
    ensures location.Some? <==> md.Some? && md.value.location.Some?
    ensures location.Some? ==> IsPending(location)
  {
    if md.Some? && md.value.location.Some? then Some(CoordsMarker(md.value.location.value)) else None
  }

  /** The row `addFile` inserts for a file. */
  function Record(f: File, unixOf: string -> int): (p: Picture)
    ensures p.id == f.id && p.ext == f.fileExtension
    ensures p.added == unixOf(f.createdTime)
    ensures p.author == Author(f.owners)
    ensures p.taken == Taken(f.imageMediaMetadata, unixOf)
    ensures p.location.Some? <==> f.imageMediaMetadata.Some? && f.imageMediaMetadata.value.location.Some?
    ensures p.location.Some? ==> IsPending(p.location)
  {
    Picture(f.id, f.fileExtension, Author(f.owners), unixOf(f.createdTime), Taken(f.imageMediaMetadata, unixOf), Location(f.imageMediaMetadata))
  }

  /** `INSERT OR IGNORE`: an existing row with the same key wins. */
  function InsertOrIgnore(t: Table, p: Picture): (r: Table)
    ensures r.Keys == t.Keys + {p.id}
    ensures forall id :: id in t ==> r[id] == t[id]
    ensures p.id !in t ==> r[p.id] == p
  {
    if p.id in t then t else t[p.id := p]
  }

  /** `addFile`: files whose MIME type is not an image type are skipped; the rest are inserted or ignored. */
  function AddFile(t: Table, f: File, unixOf: string -> int): (r: Table)
    ensures !IsImage(f.mimeType) ==> r == t
    ensures f.id in t ==> r == t
    ensures IsImage(f.mimeType) && f.id !in t ==>
              r.Keys == t.Keys + {f.id} && r[f.id] == Record(f, unixOf) && forall id :: id in t ==> r[id] == t[id]
  {
    if !IsImage(f.mimeType) then t else InsertOrIgnore(t, Record(f, unixOf))
  }

  /** `removeFile`: `DELETE ... WHERE id = ?` removes that row and no other. */
  function RemoveFile(t: Table, id: string): (r: Table)
    ensures id !in r
    ensures r.Keys == t.Keys - {id}
    ensures forall k :: k in r ==> r[k] == t[k]
  {
    t - {id}
  }

  /** A file of a full listing that the listing adds: not trashed and an image. */
  predicate Eligible(f: File) {
    !f.trashed && IsImage(f.mimeType)
  }

  /** The effect of one entry of a full listing: trashed files are skipped, the rest go through `addFile`. */
  function ListedFileEffect(t: Table, f: File, unixOf: string -> int): (r: Table)
    ensures !Eligible(f) ==> r == t
    ensures Eligible(f) ==> r == InsertOrIgnore(t, Record(f, unixOf))
  {
    if f.trashed then t else AddFile(t, f, unixOf)
  }

  /** The ids a listing of `files` adds when they are not yet in the table. */
  function EligibleIds(files: seq<File>): set<string> {
    set f | f in files && Eligible(f) :: f.id
  }

  /**
   The table after the entries of a full listing, applied in order. Exactly the
   eligible ids are added and no existing row is changed (first write wins).
   */
  function ApplyListing(t: Table, files: seq<File>, unixOf: string -> int): (r: Table)
    ensures r.Keys == t.Keys + EligibleIds(files)
    ensures forall id :: id in t ==> r[id] == t[id]
    decreases |files|
  {
    if files == [] then t
    else
      var init := files[..|files| - 1];
      assert EligibleIds(files) == EligibleIds(init) + EligibleIds([files[|files| - 1]]);
      ListedFileEffect(ApplyListing(t, init, unixOf), files[|files| - 1], unixOf)
  }

  /**
   An id that a listing adds gets the record of its first eligible entry: later
   entries with the same id are ignored.
   */
  lemma {:induction false} ApplyListingFirstWins(t: Table, files: seq<File>, k: nat, unixOf: string -> int)
    requires k < |files| && Eligible(files[k]) && files[k].id !in t
    requires forall j :: 0 <= j < k ==> !(Eligible(files[j]) && files[j].id == files[k].id)
    ensures files[k].id in ApplyListing(t, files, unixOf)
    ensures ApplyListing(t, files, unixOf)[files[k].id] == Record(files[k], unixOf)
    decreases |files|
  {
    var init := files[..|files| - 1];
    if k == |files| - 1 {
      forall f | f in init && Eligible(f)
        ensures f.id != files[k].id
      {
        var j :| 0 <= j < |init| && init[j] == f;
        assert files[j] == f;
      }
      assert files[k].id !in ApplyListing(t, init, unixOf);
    } else {
      assert init[k] == files[k];
      ApplyListingFirstWins(t, init, k, unixOf);
    }
  }

  /** A listing whose eligible ids are all present leaves the table as it is. */
  lemma {:induction false} ApplyListingFixed(t: Table, files: seq<File>, unixOf: string -> int)
    requires EligibleIds(files) <= t.Keys
    ensures ApplyListing(t, files, unixOf) == t
    decreases |files|
  {
    if files != [] {
      var init := files[..|files| - 1];
      assert EligibleIds(files) == EligibleIds(init) + EligibleIds([files[|files| - 1]]);
      ApplyListingFixed(t, init, unixOf);
    }
  }

  /** Applying the same listing twice yields the same table as applying it once. */
  lemma ApplyListingIdempotent(t: Table, files: seq<File>, unixOf: string -> int)
    ensures ApplyListing(ApplyListing(t, files, unixOf), files, unixOf) == ApplyListing(t, files, unixOf)
  {
    ApplyListingFixed(ApplyListing(t, files, unixOf), files, unixOf);
  }

  /** A listing adds no record for an id it only ever shows as trashed (or as a non-image). */
  lemma TrashedNeverAdded(t: Table, files: seq<File>, id: string, unixOf: string -> int)
    requires id !in t
    requires forall f :: f in files && f.id == id ==> !Eligible(f)
    ensures id !in ApplyListing(t, files, unixOf)
  {
  }

  /** Applying a listing in two parts is applying it whole. */
  lemma {:induction false} ApplyListingAppend(t: Table, a: seq<File>, b: seq<File>, unixOf: string -> int)
    ensures ApplyListing(t, a + b, unixOf) == ApplyListing(ApplyListing(t, a, unixOf), b, unixOf)
    decreases |b|
  {
    if b != [] {
      var init := b[..|b| - 1];
      var last := b[|b| - 1];
      assert (a + b)[..|a + b| - 1] == a + init;
      assert (a + b)[|a + b| - 1] == last;
      ApplyListingAppend(t, a, init, unixOf);
      calc {
        ApplyListing(t, a + b, unixOf);
        ListedFileEffect(ApplyListing(t, a + init, unixOf), last, unixOf);
        ListedFileEffect(ApplyListing(ApplyListing(t, a, unixOf), init, unixOf), last, unixOf);
        ApplyListing(ApplyListing(t, a, unixOf), b, unixOf);
      }
    } else {
      assert a + b == a;
    }
  }

  /** A removal: the change is a removal or its file is trashed. */
  predicate IsRemoval(c: Change) {
    c.removed || (c.file.Some? && c.file.value.trashed)
  }

  /**
   The effect of one change of an incremental page: only `file` changes count; a
   removal deletes the row with the change's `fileId`; a change carrying a file goes
   through `addFile`.
   */
  function ChangeEffect(t: Table, c: Change, unixOf: string -> int): (r: Table)
    ensures c.kind != "file" ==> r == t
    ensures c.kind == "file" && IsRemoval(c) ==> r == RemoveFile(t, c.fileId)
    ensures c.kind == "file" && !IsRemoval(c) && c.file.Some? ==> r == AddFile(t, c.file.value, unixOf)
    ensures c.kind == "file" && !IsRemoval(c) && c.file.None? ==> r == t
  {
    if c.kind != "file" then t
    else if IsRemoval(c) then RemoveFile(t, c.fileId)
    else if c.file.Some? then AddFile(t, c.file.value, unixOf)
    else t
  }

  /** The table after the changes of a page, applied in order. */
  function ApplyChanges(t: Table, changes: seq<Change>, unixOf: string -> int): Table
    decreases |changes|
  {
    if changes == [] then t
    else ChangeEffect(ApplyChanges(t, changes[..|changes| - 1], unixOf), changes[|changes| - 1], unixOf)
  }

  /** Applying the changes of two pages in turn is applying their concatenation. */
  lemma {:induction false} ApplyChangesAppend(t: Table, a: seq<Change>, b: seq<Change>, unixOf: string -> int)
    ensures ApplyChanges(t, a + b, unixOf) == ApplyChanges(ApplyChanges(t, a, unixOf), b, unixOf)
    decreases |b|
  {
    if b != [] {
      var init := b[..|b| - 1];
      var last := b[|b| - 1];
      assert (a + b)[..|a + b| - 1] == a + init;
      assert (a + b)[|a + b| - 1] == last;
      ApplyChangesAppend(t, a, init, unixOf);
      calc {
        ApplyChanges(t, a + b, unixOf);
        ChangeEffect(ApplyChanges(t, a + init, unixOf), last, unixOf);
        ChangeEffect(ApplyChanges(ApplyChanges(t, a, unixOf), init, unixOf), last, unixOf);
        ApplyChanges(ApplyChanges(t, a, unixOf), b, unixOf);
      }
    } else {
      assert a + b == a;
    }
  }

  /** `UPDATE ... SET location = ? WHERE id = ?`: only that row's location changes; a missing row is no update. */
  function SetLocation(t: Table, id: string, location: Option<string>): (r: Table)
    ensures r.Keys == t.Keys
    ensures id in t ==> r[id] == t[id].(location := location)
    ensures forall k :: k in t && k != id ==> r[k] == t[k]
  {
    if id in t then t[id := t[id].(location := location)] else t
  }

  /** The ids a change can touch: its `fileId` for a removal, its file's id for an addition. */
  predicate Touches(c: Change, id: string) {
    c.kind == "file" && (if IsRemoval(c) then c.fileId == id else c.file.Some? && c.file.value.id == id)
  }

  /** A record whose id no change of the page touches is left exactly as it was. */
  lemma {:induction false} ApplyChangesUntouched(t: Table, changes: seq<Change>, id: string, unixOf: string -> int)
    requires forall k :: 0 <= k < |changes| ==> !Touches(changes[k], id)
    ensures var r := ApplyChanges(t, changes, unixOf);
            (id in r <==> id in t) && (id in t ==> r[id] == t[id])
    decreases |changes|
  {
    if changes != [] {
      ApplyChangesUntouched(t, changes[..|changes| - 1], id, unixOf);
    }
  }

  /**
   After a page, no record is left for an id whose last touching change is a
   removal: the deletion is not undone by anything that follows it.
   */
  lemma {:induction false} ApplyChangesRemoved(t: Table, changes: seq<Change>, i: nat, unixOf: string -> int)
    requires i < |changes| && changes[i].kind == "file" && IsRemoval(changes[i])
    requires forall k :: i < k < |changes| ==> !Touches(changes[k], changes[i].fileId)
    ensures changes[i].fileId !in ApplyChanges(t, changes, unixOf)
    decreases |changes|
  {
    var init := changes[..|changes| - 1];
    if i < |changes| - 1 {
      ApplyChangesRemoved(t, init, i, unixOf);
    }
  }

  /** Changes whose type is not `file` have no effect on the table. */
  lemma {:induction false} ApplyChangesIgnoresOtherKinds(t: Table, changes: seq<Change>, unixOf: string -> int)
    requires forall k :: 0 <= k < |changes| ==> changes[k].kind != "file"
    ensures ApplyChanges(t, changes, unixOf) == t
    decreases |changes|
  {
    if changes != [] {
      ApplyChangesIgnoresOtherKinds(t, changes[..|changes| - 1], unixOf);
    }
  }
}
