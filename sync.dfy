/**
 The picture manager's state and the operations that change it: `syncFiles` (the
 full listing when no cursor is stored, the incremental change pass otherwise),
 `addFile`, `removeFile` and the two halves of `geocodeLocations`. The `pictures`
 table, the stored `changesPageToken` and the `isGeocoding` flag become fields.
 */
module Sync {
  import opened Wrappers
  import opened Drive
  import opened Catalog
  import opened Geocode

  /** How a pass ended: the loop ran out of pages, a request threw, or the answers given end while it still wants more. */
  datatype Ending = Completed | Aborted | Unfinished

  /** What the full-listing loop did: the files it handed on, the number of requests it made, how it ended. */
  datatype ListingOutcome = ListingOutcome(files: seq<File>, requests: nat, ending: Ending)

  /** What the incremental loop did: the changes it applied, the last cursor value it wrote, its requests, how it ended. */
  datatype ChangesOutcome = ChangesOutcome(changes: seq<Change>, written: Option<string>, requests: nat, ending: Ending)

  /**
   One iteration of the full-listing loop on an answer that is not a rejection: the
   files it hands on and the `nextPageToken` it leaves. An answer without data
   keeps the previous token.
   */
  function ListingStep(next: Option<string>, resp: ListResponse): (Option<string>, seq<File>) {
    if resp.Listed? then (resp.list.nextPageToken, resp.list.files) else (next, [])
  }

  /**
   The full-listing `do/while` loop over the successive answers `resps`, entered with
   `next` as its `nextPageToken`. Its body always runs once; it runs again only while
   the token is truthy. A rejected request ends the whole pass.
   */
  function ListingRun(next: Option<string>, resps: seq<ListResponse>): (r: ListingOutcome)
    ensures r.requests <= |resps|
    ensures r.ending == Unfinished ==> r.requests == |resps|
    ensures r.ending == Completed ==> r.requests > 0
    decreases |resps|
  {
    if resps == [] then ListingOutcome([], 0, Unfinished)
    else if resps[0].ListFailed? then ListingOutcome([], 1, Aborted)
    else
      var (next', files) := ListingStep(next, resps[0]);
      if Truthy(next') then ListingAfter(files, 1, ListingRun(next', resps[1..]))
      else ListingOutcome(files, 1, Completed)
  }

  /** The files of the listed pages among `rs`, in order; other answers contribute nothing. */
  function ListedFiles(rs: seq<ListResponse>): seq<File>
    decreases |rs|
  {
    if rs == [] then [] else (if rs[0].Listed? then rs[0].list.files else []) + ListedFiles(rs[1..])
  }

  /** A file is among the listed files exactly when one of the listed pages holds it. */
  lemma {:induction false} ListedFilesMembers(rs: seq<ListResponse>, f: File)
    ensures f in ListedFiles(rs) <==> exists k :: 0 <= k < |rs| && rs[k].Listed? && f in rs[k].list.files
    decreases |rs|
  {
    if rs != [] {
      ListedFilesMembers(rs[1..], f);
      if f in ListedFiles(rs) {
        if !(rs[0].Listed? && f in rs[0].list.files) {
          var j :| 0 <= j < |rs[1..]| && rs[1..][j].Listed? && f in rs[1..][j].list.files;
          assert rs[j + 1] == rs[1..][j];
        }
      }
      if exists k :: 0 <= k < |rs| && rs[k].Listed? && f in rs[k].list.files {
        var k :| 0 <= k < |rs| && rs[k].Listed? && f in rs[k].list.files;
        if k > 0 {
          assert rs[1..][k - 1] == rs[k];
        }
      }
    }
  }

  /** The files the listing hands on are those of the pages among the answers it consumed, in order. */
  lemma {:induction false} ListingRunFiles(next: Option<string>, resps: seq<ListResponse>)
    ensures ListingRun(next, resps).files == ListedFiles(resps[..ListingRun(next, resps).requests])
    decreases |resps|
  {
    if resps != [] && !resps[0].ListFailed? {
      var (next', files) := ListingStep(next, resps[0]);
      var r := ListingRun(next, resps);
      if Truthy(next') {
        var rest := ListingRun(next', resps[1..]);
        ListingRunFiles(next', resps[1..]);
        assert resps[..r.requests][1..] == resps[1..][..rest.requests];
      } else {
        assert resps[..1][1..] == [];
      }
    } else if resps != [] {
      assert resps[..1][1..] == [];
    }
  }

  /** A file is handed on exactly when a page among the answers the listing consumed holds it. */
  lemma ListingRunFilesListed(next: Option<string>, resps: seq<ListResponse>, f: File)
    ensures f in ListingRun(next, resps).files <==>
              exists k :: 0 <= k < ListingRun(next, resps).requests && resps[k].Listed? && f in resps[k].list.files
  {
    var r := ListingRun(next, resps);
    ListingRunFiles(next, resps);
    ListedFilesMembers(resps[..r.requests], f);
    assert forall k :: 0 <= k < r.requests ==> resps[..r.requests][k] == resps[k];
  }

  /** The cursor a change page writes: its `newStartPageToken`, when truthy and different from the token the pass read. */
  function CursorWrite(pageToken: string, page: ChangeList): (w: Option<string>)
    ensures w.Some? <==> Truthy(page.newStartPageToken) && page.newStartPageToken.value != pageToken
    ensures w.Some? ==> w == page.newStartPageToken
  {
    if Truthy(page.newStartPageToken) && page.newStartPageToken.value != pageToken then page.newStartPageToken else None
  }

  /** One iteration of the incremental loop: the token it leaves, the changes it applies and the cursor it writes. */
  function ChangeStep(pageToken: string, next: Option<string>, resp: ChangeResponse): (Option<string>, seq<Change>, Option<string>) {
    if resp.ChangesListed? then (resp.list.nextPageToken, resp.list.changes, CursorWrite(pageToken, resp.list))
    else (next, [], None)
  }

  /**
   The incremental `do/while` loop over the successive answers `resps`, entered with
   `next` as its `nextPageToken`. Every request carries the token `pageToken` read at
   the start of the pass. A failed request is caught, reads as an answer without data
   and keeps the previous `nextPageToken`.
   */
  function ChangeRun(pageToken: string, next: Option<string>, resps: seq<ChangeResponse>): (r: ChangesOutcome)
    ensures r.ending != Aborted
    ensures r.requests <= |resps|
    ensures r.ending == Unfinished ==> r.requests == |resps|
    ensures r.written.Some? ==> r.written.value != pageToken && r.written.value != ""
    decreases |resps|
  {
    if resps == [] then ChangesOutcome([], None, 0, Unfinished)
    else
      var (next', changes, w) := ChangeStep(pageToken, next, resps[0]);
      if Truthy(next') then ChangesAfter(changes, w, 1, ChangeRun(pageToken, next', resps[1..]))
      else ChangesOutcome(changes, w, 1, Completed)
  }

  /** The changes of the listed pages among `rs`, in order; answers without data contribute nothing. */
  function PageChanges(rs: seq<ChangeResponse>): seq<Change>
    decreases |rs|
  {
    if rs == [] then [] else (if rs[0].ChangesListed? then rs[0].list.changes else []) + PageChanges(rs[1..])
  }

  /** The cursor one answer writes: a listed page's `CursorWrite`, nothing for an answer without data. */
  function PageWrite(pageToken: string, resp: ChangeResponse): (w: Option<string>)
    ensures w.Some? <==> resp.ChangesListed? && CursorWrite(pageToken, resp.list).Some?
    ensures w.Some? ==> w == resp.list.newStartPageToken
  {
    if resp.ChangesListed? then CursorWrite(pageToken, resp.list) else None
  }

  /** The cursor value a sequence of answers leaves: the write of the last answer that writes one. */
  function LastWrite(pageToken: string, rs: seq<ChangeResponse>): Option<string>
    decreases |rs|
  {
    if rs == [] then None
    else
      var rest := LastWrite(pageToken, rs[1..]);
      if rest.Some? then rest else PageWrite(pageToken, rs[0])
  }

  /** `LastWrite` is the write of an answer after which no answer writes; there is none exactly when no answer writes. */
  lemma {:induction false} LastWriteIsLast(pageToken: string, rs: seq<ChangeResponse>)
    ensures LastWrite(pageToken, rs).None? <==> forall k :: 0 <= k < |rs| ==> PageWrite(pageToken, rs[k]).None?
    ensures LastWrite(pageToken, rs).Some? ==>
              exists k :: 0 <= k < |rs| && PageWrite(pageToken, rs[k]) == LastWrite(pageToken, rs) &&
                          forall j :: k < j < |rs| ==> PageWrite(pageToken, rs[j]).None?
    decreases |rs|
  {
    if rs != [] {
      var tail := rs[1..];
      LastWriteIsLast(pageToken, tail);
      assert forall k :: 0 <= k < |tail| ==> tail[k] == rs[k + 1];
      var rest := LastWrite(pageToken, tail);
      if rest.Some? {
        var k :| 0 <= k < |tail| && PageWrite(pageToken, tail[k]) == rest &&
                 forall j :: k < j < |tail| ==> PageWrite(pageToken, tail[j]).None?;
        forall j | k + 1 < j < |rs|
          ensures PageWrite(pageToken, rs[j]).None?
        {
          assert tail[j - 1] == rs[j];
        }
        assert PageWrite(pageToken, rs[k + 1]) == LastWrite(pageToken, rs);
      } else {
        forall j | 0 < j < |rs|
          ensures PageWrite(pageToken, rs[j]).None?
        {
          assert tail[j - 1] == rs[j];
        }
      }
    }
  }

  /**
   The incremental loop applies the changes of the pages among the answers it
   consumed, in order, and leaves the cursor the last of those answers wrote.
   */
  lemma {:induction false} ChangeRunPages(pageToken: string, next: Option<string>, resps: seq<ChangeResponse>)
    ensures var r := ChangeRun(pageToken, next, resps);
            r.changes == PageChanges(resps[..r.requests]) && r.written == LastWrite(pageToken, resps[..r.requests])
    decreases |resps|
  {
    if resps != [] {
      var (next', changes, w) := ChangeStep(pageToken, next, resps[0]);
      var r := ChangeRun(pageToken, next, resps);
      if Truthy(next') {
        var rest := ChangeRun(pageToken, next', resps[1..]);
        ChangeRunPages(pageToken, next', resps[1..]);
        assert resps[..r.requests][1..] == resps[1..][..rest.requests];
      } else {
        assert resps[..1][1..] == [];
      }
    }
  }

  /** A change is applied exactly when a page among the answers the pass consumed holds it. */
  lemma ChangeRunChangesListed(pageToken: string, next: Option<string>, resps: seq<ChangeResponse>, c: Change)
    ensures c in ChangeRun(pageToken, next, resps).changes <==>
              exists k :: 0 <= k < ChangeRun(pageToken, next, resps).requests && resps[k].ChangesListed? && c in resps[k].list.changes
  {
    var r := ChangeRun(pageToken, next, resps);
    ChangeRunPages(pageToken, next, resps);
    PageChangesMembers(resps[..r.requests], c);
    assert forall k :: 0 <= k < r.requests ==> resps[..r.requests][k] == resps[k];
  }

  /** A change is among the page changes exactly when one of the listed pages holds it. */
  lemma {:induction false} PageChangesMembers(rs: seq<ChangeResponse>, c: Change)
    ensures c in PageChanges(rs) <==> exists k :: 0 <= k < |rs| && rs[k].ChangesListed? && c in rs[k].list.changes
    decreases |rs|
  {
    if rs != [] {
      PageChangesMembers(rs[1..], c);
      if c in PageChanges(rs) {
        if !(rs[0].ChangesListed? && c in rs[0].list.changes) {
          var j :| 0 <= j < |rs[1..]| && rs[1..][j].ChangesListed? && c in rs[1..][j].list.changes;
          assert rs[j + 1] == rs[1..][j];
        }
      }
      if exists k :: 0 <= k < |rs| && rs[k].ChangesListed? && c in rs[k].list.changes {
        var k :| 0 <= k < |rs| && rs[k].ChangesListed? && c in rs[k].list.changes;
        if k > 0 {
          assert rs[1..][k - 1] == rs[k];
        }
      }
    }
  }

  /**
   The cursor is written only from a page's `newStartPageToken`: the value the pass
   leaves is that token of the last consumed page that carries a usable one.
   */
  lemma ChangeRunWritesNewStart(pageToken: string, next: Option<string>, resps: seq<ChangeResponse>)
    requires ChangeRun(pageToken, next, resps).written.Some?
    ensures var r := ChangeRun(pageToken, next, resps);
            exists k :: 0 <= k < r.requests && resps[k].ChangesListed? && resps[k].list.newStartPageToken == r.written &&
                        forall j :: k < j < r.requests ==> PageWrite(pageToken, resps[j]).None?
  {
    var r := ChangeRun(pageToken, next, resps);
    var consumed := resps[..r.requests];
    ChangeRunPages(pageToken, next, resps);
    LastWriteIsLast(pageToken, consumed);
    var k :| 0 <= k < |consumed| && PageWrite(pageToken, consumed[k]) == r.written &&
             forall j :: k < j < |consumed| ==> PageWrite(pageToken, consumed[j]).None?;
    assert consumed[k] == resps[k];
    assert forall j :: k < j < r.requests ==> consumed[j] == resps[j];
  }

  /** The pass leaves the cursor alone exactly when no page it consumed carries a usable new token. */
  lemma ChangeRunNoWrite(pageToken: string, next: Option<string>, resps: seq<ChangeResponse>)
    ensures var r := ChangeRun(pageToken, next, resps);
            r.written.None? <==> forall k :: 0 <= k < r.requests ==> PageWrite(pageToken, resps[k]).None?
  {
    var r := ChangeRun(pageToken, next, resps);
    var consumed := resps[..r.requests];
    ChangeRunPages(pageToken, next, resps);
    LastWriteIsLast(pageToken, consumed);
    assert forall k :: 0 <= k < r.requests ==> consumed[k] == resps[k];
  }

  /** Prefixes what an earlier part of a loop did to what the rest of it does. */
  function ListingAfter(files: seq<File>, requests: nat, rest: ListingOutcome): ListingOutcome {
    ListingOutcome(files + rest.files, requests + rest.requests, rest.ending)
  }

  function ChangesAfter(changes: seq<Change>, written: Option<string>, requests: nat, rest: ChangesOutcome): ChangesOutcome {
    ChangesOutcome(changes + rest.changes, if rest.written.Some? then rest.written else written, requests + rest.requests, rest.ending)
  }

  lemma ListingAfterAssoc(a: seq<File>, i: nat, b: seq<File>, j: nat, rest: ListingOutcome)
    ensures ListingAfter(a, i, ListingAfter(b, j, rest)) == ListingAfter(a + b, i + j, rest)
  {
    assert a + (b + rest.files) == (a + b) + rest.files;
  }

  lemma ChangesAfterAssoc(a: seq<Change>, wa: Option<string>, i: nat, b: seq<Change>, wb: Option<string>, j: nat, rest: ChangesOutcome)
    ensures ChangesAfter(a, wa, i, ChangesAfter(b, wb, j, rest)) == ChangesAfter(a + b, if wb.Some? then wb else wa, i + j, rest)
  {
    assert a + (b + rest.changes) == (a + b) + rest.changes;
  }

  /**
   If the Drive keeps answering the one token the pass requests with the same page,
   and that page names a next page, the pass never completes and only ever applies
   that page's changes: later pages of the feed are never requested.
   */
  lemma {:induction false} RepeatedPageNeverCompletes(pageToken: string, next: Option<string>, page: ChangeList, n: nat)
    requires Truthy(page.nextPageToken)
    ensures var r := ChangeRun(pageToken, next, seq(n, _ => ChangesListed(page)));
            && r.ending == Unfinished
            && r.requests == n
            && forall c :: c in r.changes ==> c in page.changes
    decreases n
  {
    var resps := seq(n, _ => ChangesListed(page));
    if n > 0 {
      assert resps[1..] == seq(n - 1, _ => ChangesListed(page));
      RepeatedPageNeverCompletes(pageToken, page.nextPageToken, page, n - 1);
    }
  }

  class PictureManager {
    /** The `pictures` table. */
    var table: Table
    /** The `changesPageToken` row of the key-value store. */
    var cursor: Option<string>
    /** The module-wide `isGeocoding` guard. */
    var isGeocoding: bool

    constructor (stored: Table, storedCursor: Option<string>)
      ensures table == stored && cursor == storedCursor && !isGeocoding
    {
      table := stored;
      cursor := storedCursor;
      isGeocoding := false;
    }

    method AddFile(f: File, unixOf: string -> int)
      modifies this`table
      ensures table == Catalog.AddFile(old(table), f, unixOf)
    {
      if IsImage(f.mimeType) {
        table := InsertOrIgnore(table, Record(f, unixOf));
      }
    }

    method RemoveFile(id: string)
      modifies this`table
      ensures table == Catalog.RemoveFile(old(table), id)
    {
      table := table - {id};
    }

    /** The body of the full listing for one page: trashed entries are skipped, the rest go through `addFile`. */
    method ApplyListedPage(files: seq<File>, unixOf: string -> int)
      modifies this`table
      ensures table == ApplyListing(old(table), files, unixOf)
    {
      for i := 0 to |files|
        invariant table == ApplyListing(old(table), files[..i], unixOf)
      {
        assert files[..i + 1][..i] == files[..i];
        if files[i].trashed {
          continue;
        }
        AddFile(files[i], unixOf);
      }
      assert files[..|files|] == files;
    }

    /** The full listing, then `getStartPageToken`; `start` is that call's token, absent when it gave none. */
    method FullListing(resps: seq<ListResponse>, start: Option<string>, unixOf: string -> int) returns (outcome: ListingOutcome)
      modifies this`table, this`cursor
      ensures outcome == ListingRun(None, resps)
      ensures table == ApplyListing(old(table), outcome.files, unixOf)
      ensures cursor == if outcome.ending == Completed && Truthy(start) then start else old(cursor)
    {
      var next: Option<string> := None;
      var i := 0;
      var visited: seq<File> := [];
      var running := true;
      var ending := Unfinished;
      assert resps[0..] == resps;
      while running && i < |resps|
        invariant 0 <= i <= |resps|
        invariant table == ApplyListing(old(table), visited, unixOf)
        invariant cursor == old(cursor)
        invariant running ==> ListingRun(None, resps) == ListingAfter(visited, i, ListingRun(next, resps[i..]))
        invariant !running ==> ListingRun(None, resps) == ListingOutcome(visited, i, ending)
        invariant running <==> ending == Unfinished
      {
        var resp := resps[i];
        ghost var rest := ListingRun(next, resps[i..]);
        assert resps[i..][0] == resp && resps[i..][1..] == resps[i + 1..];
        i := i + 1;
        if resp.ListFailed? {
          running := false;
          ending := Aborted;
        } else {
          ghost var before := visited;
          ghost var (next', files) := ListingStep(next, resp);
          if resp.Listed? {
            next := resp.list.nextPageToken;
            ApplyListedPage(resp.list.files, unixOf);
            ApplyListingAppend(old(table), visited, resp.list.files, unixOf);
            visited := visited + resp.list.files;
          }
          assert next == next' && visited == before + files;
          if Truthy(next) {
            assert rest == ListingAfter(files, 1, ListingRun(next, resps[i..]));
            ListingAfterAssoc(before, i - 1, files, 1, ListingRun(next, resps[i..]));
          } else {
            assert ListingAfter(before, i - 1, rest) == ListingOutcome(visited, i, Completed);
            assert rest == ListingOutcome(files, 1, Completed);
            running := false;
            ending := Completed;
          }
        }
      }
      if running {
        assert resps[i..] == [] && visited + [] == visited;
      }
      if ending == Completed && Truthy(start) {
        cursor := start;
      }
      outcome := ListingOutcome(visited, i, ending);
    }

    /** The body of the incremental pass for one page: its changes in order, then the cursor rule. */
    method ApplyChangePage(pageToken: string, page: ChangeList, unixOf: string -> int)
      modifies this`table, this`cursor
      ensures table == ApplyChanges(old(table), page.changes, unixOf)
      ensures cursor == if CursorWrite(pageToken, page).Some? then CursorWrite(pageToken, page) else old(cursor)
    {
      var changes := page.changes;
      for i := 0 to |changes|
        invariant table == ApplyChanges(old(table), changes[..i], unixOf)
        invariant cursor == old(cursor)
      {
        assert changes[..i + 1][..i] == changes[..i];
        var change := changes[i];
        if change.kind != "file" {
          continue;
        }
        if change.removed || (change.file.Some? && change.file.value.trashed) {
          RemoveFile(change.fileId);
        } else if change.file.Some? {
          AddFile(change.file.value, unixOf);
        }
      }
      assert changes[..|changes|] == changes;
      if Truthy(page.newStartPageToken) && page.newStartPageToken.value != pageToken {
        cursor := page.newStartPageToken;
      }
    }

    /**
     The incremental pass from stored cursor `pageToken`. `requested` lists the token
     each request carried: always `pageToken`, never the `nextPageToken` just received.
     */
    method IncrementalPass(pageToken: string, resps: seq<ChangeResponse>, unixOf: string -> int)
      returns (outcome: ChangesOutcome, requested: seq<string>)
      modifies this`table, this`cursor
      ensures outcome == ChangeRun(pageToken, None, resps)
      ensures table == ApplyChanges(old(table), outcome.changes, unixOf)
      ensures cursor == if outcome.written.Some? then outcome.written else old(cursor)
      ensures |requested| == outcome.requests
      ensures forall k :: 0 <= k < |requested| ==> requested[k] == pageToken
    {
      var next: Option<string> := None;
      var i := 0;
      var visited: seq<Change> := [];
      var written: Option<string> := None;
      var running := true;
      requested := [];
      assert resps[0..] == resps;
      while running && i < |resps|
        invariant 0 <= i <= |resps|
        invariant |requested| == i && forall k :: 0 <= k < i ==> requested[k] == pageToken
        invariant table == ApplyChanges(old(table), visited, unixOf)
        invariant cursor == if written.Some? then written else old(cursor)
        invariant running ==> ChangeRun(pageToken, None, resps) == ChangesAfter(visited, written, i, ChangeRun(pageToken, next, resps[i..]))
        invariant !running ==> ChangeRun(pageToken, None, resps) == ChangesOutcome(visited, written, i, Completed)
      {
        ghost var writtenBefore := written;
        var resp := resps[i];
        ghost var rest := ChangeRun(pageToken, next, resps[i..]);
        ghost var before := visited;
        ghost var (next', changes, w) := ChangeStep(pageToken, next, resp);
        assert resps[i..][0] == resp && resps[i..][1..] == resps[i + 1..];
        requested := requested + [pageToken];
        i := i + 1;
        if resp.ChangesListed? {
          ApplyChangePage(pageToken, resp.list, unixOf);
          ApplyChangesAppend(old(table), visited, resp.list.changes, unixOf);
          visited := visited + resp.list.changes;
          next := resp.list.nextPageToken;
          if CursorWrite(pageToken, resp.list).Some? {
            written := CursorWrite(pageToken, resp.list);
          }
        }
        assert next == next' && visited == before + changes;
        assert written == if w.Some? then w else writtenBefore;
        if Truthy(next) {
          assert rest == ChangesAfter(changes, w, 1, ChangeRun(pageToken, next, resps[i..]));
          ChangesAfterAssoc(before, writtenBefore, i - 1, changes, w, 1, ChangeRun(pageToken, next, resps[i..]));
        } else {
          assert rest == ChangesOutcome(changes, w, 1, Completed);
          running := false;
        }
      }
      if running {
        assert resps[i..] == [] && visited + [] == visited;
      }
      outcome := ChangesOutcome(visited, written, i, if running then Unfinished else Completed);
    }

    /**
     `syncFiles`: without a truthy stored cursor, the full listing (`listing`, then the
     start token `start`); with one, the incremental pass over `changes`.
     */
    method SyncFiles(listing: seq<ListResponse>, start: Option<string>, changes: seq<ChangeResponse>, unixOf: string -> int)
      returns (ending: Ending)
      modifies this`table, this`cursor
      ensures !Truthy(old(cursor)) ==>
                var run := ListingRun(None, listing);
                && ending == run.ending
                && table == ApplyListing(old(table), run.files, unixOf)
                && cursor == if run.ending == Completed && Truthy(start) then start else old(cursor)
      ensures Truthy(old(cursor)) ==>
                var run := ChangeRun(old(cursor).value, None, changes);
                && ending == run.ending
                && table == ApplyChanges(old(table), run.changes, unixOf)
                && cursor == if run.written.Some? then run.written else old(cursor)
    {
      if !Truthy(cursor) {
        var outcome := FullListing(listing, start, unixOf);
        ending := outcome.ending;
      } else {
        var outcome, requested := IncrementalPass(cursor.value, changes, unixOf);
        ending := outcome.ending;
      }
    }

    /**
     The synchronous half of `geocodeLocations`: the guard, then one pending row.
     With the flag already set nothing changes; with no pending row the flag is
     cleared again; otherwise the flag stays set while the request for `picked` runs.
     */
    method GeocodeStart() returns (picked: Option<string>)
      modifies this`isGeocoding
      ensures old(isGeocoding) ==> picked.None?
      ensures !old(isGeocoding) && picked.None? ==> forall id :: id in table ==> !IsPending(table[id].location)
      ensures picked.Some? ==> picked.value in table && IsPending(table[picked.value].location)
      ensures isGeocoding == (old(isGeocoding) || picked.Some?)
    {
      if isGeocoding {
        return None;
      }
      isGeocoding := true;
      if exists id :: id in table && IsPending(table[id].location) {
        var id :| id in table && IsPending(table[id].location);
        picked := Some(id);
      } else {
        isGeocoding := false;
        picked := None;
      }
    }

    /**
     The request's continuation for row `id`. An answer writes the place string or
     null to that row alone, clears the flag and asks to run again after the rate-limit
     delay; a rejection clears the flag and leaves the marker for a later attempt.
     */
    method GeocodeFinish(id: string, response: GeoResponse) returns (reschedule: bool)
      requires isGeocoding
      modifies this`table, this`isGeocoding
      ensures !isGeocoding
      ensures reschedule == response.Answered?
      ensures response.RequestFailed? ==> table == old(table)
      ensures response.Answered? ==> table == SetLocation(old(table), id, Resolved(response.address))
      ensures response.Answered? && id in table && PlainCity(response.address) ==> !IsPending(table[id].location)
    {
      match response {
        case RequestFailed =>
          isGeocoding := false;
          reschedule := false;
        case Answered(address) =>
          table := SetLocation(table, id, Resolved(address));
          if PlainCity(address) {
            ResolvedNotPending(address);
          }
          isGeocoding := false;
          reschedule := true;
      }
    }
  }
}
