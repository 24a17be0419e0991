/**
 The picture rotation of the web server: `getPicture` asks the catalog for a random
 row excluding the recently shown ids and decorates it for display; `setPicture`
 makes it the current picture and pushes its id onto the bounded, most-recent-first
 `history` that serves as the next exclusion list. The file download behind the
 path, `moment`'s relative time and the socket broadcast are not modelled: the path
 and the relative-time text are parameters.
 */
module Rotation {
  import opened Wrappers
  import opened Catalog
  import opened Selection

  /** Minimum number of pictures to show before one repeats. */
  const MinRepeat: nat := 10

  /** `history.unshift(id)`, then `history.length = minRepeat` when it grew longer. */
  function PushHistory(history: seq<string>, id: string): (h: seq<string>)
    ensures |h| == Min(|history| + 1, MinRepeat)
    ensures h[0] == id
    ensures h[1..] == history[..Min(|history|, MinRepeat - 1)]
  {
    var pushed := [id] + history;
    if |pushed| > MinRepeat then pushed[..MinRepeat] else pushed
  }

  /** The newest `MinRepeat` entries of a most-recent-first sequence. */
  function Window(shown: seq<string>): (w: seq<string>)
    ensures |w| <= MinRepeat
  {
    shown[..Min(|shown|, MinRepeat)]
  }

  /** Pushing an id onto the window of what was shown gives the window of what is shown now. */
  lemma PushHistoryWindow(shown: seq<string>, id: string)
    ensures PushHistory(Window(shown), id) == Window([id] + shown)
  {
    var h := PushHistory(Window(shown), id);
    var w := Window([id] + shown);
    assert |h| == |w|;
    forall k | 0 <= k < |h|
      ensures h[k] == w[k]
    {
      if k > 0 {
        assert h[k] == h[1..][k - 1];
      }
    }
  }

  /** No id occurs twice among any `n + 1` consecutive entries of `shown`. */
  ghost predicate NoRepeatWithin(shown: seq<string>, n: nat) {
    forall i, j :: 0 <= i < j < |shown| && j - i <= n ==> shown[i] != shown[j]
  }

  /**
   Showing an id that is not in the window keeps every `MinRepeat + 1` consecutive
   pictures distinct.
   */
  lemma AntiRepeat(shown: seq<string>, id: string)
    requires NoRepeatWithin(shown, MinRepeat)
    requires id !in Window(shown)
    ensures NoRepeatWithin([id] + shown, MinRepeat)
  {
    var s := [id] + shown;
    forall i, j | 0 <= i < j < |s| && j - i <= MinRepeat
      ensures s[i] != s[j]
    {
      if i == 0 {
        assert s[j] == Window(shown)[j - 1];
      } else {
        assert s[i] == shown[i - 1] && s[j] == shown[j - 1];
      }
    }
  }

  /** JavaScript truthiness of `picture.taken`: absent and `0` are falsy. */
  predicate TakenTruthy(taken: Option<int>) {
    taken.Some? && taken.value != 0
  }

  /** `picture.taken || picture.added`: the time the relative-time text is about. */
  function ShownTime(p: Picture): (t: int)
    ensures TakenTruthy(p.taken) ==> t == p.taken.value
    ensures !TakenTruthy(p.taken) ==> t == p.added
  {
    if TakenTruthy(p.taken) then p.taken.value else p.added
  }

  /**
   `${!picture.taken ? 'added ' : ''} ${fromNow(...)}`: the literal space between the
   two placeholders follows either prefix, so an added-only time has two spaces.
   */
  function When(p: Picture, fromNow: int -> string): (when: string)
    ensures ("added " <= when) <==> !TakenTruthy(p.taken)
    ensures TakenTruthy(p.taken) ==> when == " " + fromNow(p.taken.value)
    ensures !TakenTruthy(p.taken) ==> when == "added  " + fromNow(p.added)
  {
    var when := (if TakenTruthy(p.taken) then "" else "added ") + " " + fromNow(ShownTime(p));
    assert TakenTruthy(p.taken) ==> when[0] == ' ';
    assert !TakenTruthy(p.taken) ==> when[..6] == "added ";
    when
  }

  /** Blanking of unprocessed coordinates: a pending location becomes `''`, any other stays. */
  function StripPending(location: Option<string>): (r: Option<string>)
    ensures IsPending(location) ==> r == Some("")
    ensures !IsPending(location) ==> r == location
    ensures !IsPending(r)
  {
    if IsPending(location) then Some("") else location
  }

  /** The picture object as broadcast: the row with its `path` and `when` fields added. */
  datatype Display = Display(picture: Picture, path: string, when: string)

  /** The decoration `getPicture` applies to the selected row once its file's path is known. */
  function Decorate(p: Picture, path: string, fromNow: int -> string): (d: Display)
    ensures d.picture == p.(location := StripPending(p.location))
    ensures d.path == path
    ensures d.when == When(p, fromNow)
    ensures !IsPending(d.picture.location)
  {
    Display(p.(location := StripPending(p.location)), path, When(p, fromNow))
  }

  /** How the promise `getPicture()` returns settles. */
  datatype Settlement = Fulfilled(display: Display) | Rejected | NeverSettles

  /**
   What `getPicture()` does with the history as exclusion list. `pathOf` stands for
   `getFilePath` followed by the `/images/...` join; `None` is a rejection of
   `getFilePath` (a database error or a failed download). With no candidate row the
   selection never settles, and neither does `getPicture`.
   */
  function Fetched(table: seq<Picture>, history: seq<string>, coin: real, shuffle: nat, now: int, draw: real,
                   pathOf: string -> Option<string>, fromNow: int -> string): (s: Settlement)
    ensures s.NeverSettles? <==> Selected(table, history, coin, shuffle, now, draw).None?
    ensures s.Rejected? <==> Selected(table, history, coin, shuffle, now, draw).Some? &&
                             pathOf(Selected(table, history, coin, shuffle, now, draw).value.id).None?
    ensures s.Fulfilled? ==> s.display.picture.id !in history
    ensures s.Fulfilled? ==> exists p :: p in table && pathOf(p.id).Some? && s.display == Decorate(p, pathOf(p.id).value, fromNow)
  {
    match Selected(table, history, coin, shuffle, now, draw)
    case None => NeverSettles
    case Some(p) =>
      match pathOf(p.id)
      case None => Rejected
      case Some(path) => Fulfilled(Decorate(p, path, fromNow))
  }

  /** One turn of the rotation loop as the code runs it. */
  datatype Turn = Next(picture: Display) | TypeError | WaitsForever

  /**
   As written: the timer promise resolves after `pictureInterval` (index.js:73),
   so its later `reject` (index.js:75) has no effect and `Promise.all` waits for
   `getPicture` however long it takes. A fulfilled picture is set; a rejection is
   caught to `undefined`, and `[0]` on it throws a TypeError that ends
   `schedulePictures`; a `getPicture` that never settles blocks the loop for good.
   */
  function TurnAsWritten(s: Settlement): (t: Turn)
    ensures t.Next? <==> s.Fulfilled?
    ensures t.TypeError? <==> s.Rejected?
    ensures t.WaitsForever? <==> s.NeverSettles?
    ensures t.Next? ==> t.picture == s.display
  {
    match s
    case Fulfilled(d) => Next(d)
    case Rejected => TypeError
    case NeverSettles => WaitsForever
  }

  /**
   The turn the timeout comments intend (index.js:17, index.js:74): `inTime` says
   whether `getPicture` was fulfilled within `pictureTimeout`. Only such a picture
   is set; a late, rejected or missing one is a skipped turn, and the loop goes on.
   */
  function TurnCorrected(s: Settlement, inTime: bool): (shown: Option<Display>)
    ensures shown.Some? <==> s.Fulfilled? && inTime
    ensures shown.Some? ==> shown.value == s.display
  {
    if s.Fulfilled? && inTime then Some(s.display) else None
  }

  /**
   Once every id of the catalog is in the history, `getPicture` never settles: the
   as-written loop waits forever, while the corrected turn is skipped.
   */
  lemma ExhaustedCatalogHangsRotation(table: seq<Picture>, history: seq<string>, coin: real, shuffle: nat, now: int, draw: real,
                                      pathOf: string -> Option<string>, fromNow: int -> string, inTime: bool)
    requires forall i :: 0 <= i < |table| ==> table[i].id in history
    ensures Fetched(table, history, coin, shuffle, now, draw, pathOf, fromNow) == NeverSettles
    ensures TurnAsWritten(Fetched(table, history, coin, shuffle, now, draw, pathOf, fromNow)) == WaitsForever
    ensures TurnCorrected(Fetched(table, history, coin, shuffle, now, draw, pathOf, fromNow), inTime) == None
  {
    ExhaustedCatalogSelectsNothing(table, history, coin, shuffle, now, draw);
  }

  /** A catalog of one picture, after that picture was shown once: the next turn hangs. */
  lemma SinglePictureHangsRotation(p: Picture, coin: real, shuffle: nat, now: int, draw: real,
                                   pathOf: string -> Option<string>, fromNow: int -> string)
    ensures TurnAsWritten(Fetched([p], PushHistory([], p.id), coin, shuffle, now, draw, pathOf, fromNow)) == WaitsForever
  {
    ExhaustedCatalogHangsRotation([p], PushHistory([], p.id), coin, shuffle, now, draw, pathOf, fromNow, true);
  }

  /**
   Two pictures, newest first, whose second file cannot be fetched. With no
   throwback and a zero draw, the first call (index.js:66) shows the newest one;
   on the next turn the selection finds the other, `getFilePath` rejects, and the
   as-written loop throws, while the corrected turn is skipped.
   */
  lemma FailedDownloadEndsRotation(p: Picture, q: Picture, now: int, pathOf: string -> Option<string>,
                                   fromNow: int -> string, inTime: bool)
    requires p.id != q.id && p.added >= q.added
    requires pathOf(p.id).Some? && pathOf(q.id).None?
    ensures NewestFirst([p, q])
    ensures Fetched([p, q], [], 0.5, 0, now, 0.0, pathOf, fromNow) == Fulfilled(Decorate(p, pathOf(p.id).value, fromNow))
    ensures TurnAsWritten(Fetched([p, q], PushHistory([], p.id), 0.5, 0, now, 0.0, pathOf, fromNow)) == TypeError
    ensures TurnCorrected(Fetched([p, q], PushHistory([], p.id), 0.5, 0, now, 0.0, pathOf, fromNow), inTime) == None
  {
    TwoRowSelections(p, q, now);
    assert PushHistory([], p.id) == [p.id];
  }

  /** The module-level state of the rotation: `history`, `currentPicture`, and the ghost record of every picture set. */
  class Scheduler {
    var history: seq<string>
    var currentPicture: Option<Display>
    ghost var shown: seq<string>

    /** `history` is always the newest `MinRepeat` ids that were set. */
    ghost predicate Valid()
      reads this
    {
      history == Window(shown)
    }

    constructor ()
      ensures Valid() && NoRepeatWithin(shown, MinRepeat)
      ensures history == [] && currentPicture == None && shown == []
    {
      history := [];
      currentPicture := None;
      shown := [];
    }

    /** `setPicture`: a falsy picture is ignored; otherwise it becomes current and its id is pushed. */
    method SetPicture(picture: Option<Display>)
      modifies this
      requires Valid()
      ensures Valid() && |history| <= MinRepeat
      ensures picture.None? ==> history == old(history) && currentPicture == old(currentPicture) && shown == old(shown)
      ensures picture.Some? ==> currentPicture == picture
      ensures picture.Some? ==> history == PushHistory(old(history), picture.value.picture.id)
      ensures picture.Some? ==> shown == [picture.value.picture.id] + old(shown)
    {
      if picture.None? {
        return;
      }
      var id := picture.value.picture.id;
      currentPicture := picture;
      PushHistoryWindow(shown, id);
      shown := [id] + shown;
      history := [id] + history;
      if |history| > MinRepeat {
        history := history[..MinRepeat];
      }
    }

    /**
     `getPicture`: the selection with `history` as exclusion list, then the file's
     path, then the decoration; `nudge` says whether the geocoding worker is started
     because the row was still pending. `table` lists the rows newest first.
     */
    method GetPicture(table: seq<Picture>, coin: real, shuffle: nat, now: int, draw: real,
                      pathOf: string -> Option<string>, fromNow: int -> string)
      returns (fetched: Settlement, nudge: bool)
      requires NewestFirst(table)
      ensures fetched == Fetched(table, history, coin, shuffle, now, draw, pathOf, fromNow)
      ensures fetched.Fulfilled? ==> fetched.display.picture.id !in history && !IsPending(fetched.display.picture.location)
      ensures nudge <==> exists p :: Selected(table, history, coin, shuffle, now, draw) == Some(p) && pathOf(p.id).Some? && IsPending(p.location)
    {
      var picked := SelectRandom(table, history, coin, shuffle, now, draw);
      if picked.None? {
        return NeverSettles, false;
      }
      var p := picked.value;
      var path := pathOf(p.id);
      if path.None? {
        return Rejected, false;
      }
      fetched := Fulfilled(Decorate(p, path.value, fromNow));
      nudge := IsPending(p.location);
    }

    /**
     One turn of `schedulePictures` as the timeout comments intend: a picture not
     fulfilled in time is no picture, which `setPicture` ignores, so the loop goes
     on. On every turn the new picture differs from the last `MinRepeat` ones.
     */
    method Tick(table: seq<Picture>, coin: real, shuffle: nat, now: int, draw: real, inTime: bool,
                pathOf: string -> Option<string>, fromNow: int -> string)
      returns (settled: Option<Display>, nudge: bool)
      modifies this
      requires Valid() && NoRepeatWithin(shown, MinRepeat) && NewestFirst(table)
      ensures Valid() && NoRepeatWithin(shown, MinRepeat)
      ensures settled == TurnCorrected(Fetched(table, old(history), coin, shuffle, now, draw, pathOf, fromNow), inTime)
      ensures settled.None? ==> history == old(history) && currentPicture == old(currentPicture) && shown == old(shown)
      ensures settled.Some? ==> currentPicture == settled && history == PushHistory(old(history), settled.value.picture.id)
      ensures settled.Some? ==> settled.value.picture.id !in old(history)
    {
      var fetched;
      fetched, nudge := GetPicture(table, coin, shuffle, now, draw, pathOf, fromNow);
      settled := TurnCorrected(fetched, inTime);
      if settled.Some? {
        AntiRepeat(shown, settled.value.picture.id);
      }
      SetPicture(settled);
    }
  }
}
