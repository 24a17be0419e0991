/**
 `selectRandom(notIds)`: with a small probability a random "throwback" older than the
 50 most recently added rows, otherwise a recency-weighted pick among those 50.
 The store's queries are modelled on `table`, the rows in `ORDER BY added DESC`
 order; the `NOT IN` clause is a filter. `Math.random()` draws and `Date.now()` are
 parameters, and weights are exact reals instead of IEEE doubles.
 */
module Selection {
  import opened Wrappers
  import opened Catalog

  const ThrowbackFrequency: nat := 15
  const MostRecent: nat := 50
  const DaysWeightWindow: nat := 5
  const MsInDay: nat := 1000 * 60 * 60 * 24

  function Min(a: nat, b: nat): nat {
    if a < b then a else b
  }

  /** The `id NOT IN (...)` filter, keeping the rows' order. */
  function Exclude(rows: seq<Picture>, notIds: seq<string>): (r: seq<Picture>)
    ensures |r| <= |rows|
    ensures forall p :: p in r ==> p in rows && p.id !in notIds
    ensures forall p :: p in rows && p.id !in notIds ==> p in r
    decreases |rows|
  {
    if rows == [] then []
    else
      var init := Exclude(rows[..|rows| - 1], notIds);
      var last := rows[|rows| - 1];
      assert forall p :: p in rows ==> p in rows[..|rows| - 1] || p == last;
      if last.id in notIds then init else init + [last]
  }

  /** `table` lists the rows as `ORDER BY added DESC` returns them. */
  predicate NewestFirst(table: seq<Picture>) {
    forall i, j :: 0 <= i < j < |table| ==> table[i].added >= table[j].added
  }

  /** The throwback query: rows after the `MostRecent` newest, minus the excluded ids. */
  function Older(table: seq<Picture>, notIds: seq<string>): (r: seq<Picture>)
    ensures |r| <= |table| - Min(MostRecent, |table|)
    ensures forall p :: p in r <==> p in table[Min(MostRecent, |table|)..] && p.id !in notIds
  {
    Exclude(table[Min(MostRecent, |table|)..], notIds)
  }

  /** The main query: the `MostRecent` newest rows, minus the excluded ids (the limit applies before the exclusion). */
  function Recent(table: seq<Picture>, notIds: seq<string>): (r: seq<Picture>)
    ensures |r| <= MostRecent
    ensures forall p :: p in r <==> p in table[..Min(MostRecent, |table|)] && p.id !in notIds
  {
    Exclude(table[..Min(MostRecent, |table|)], notIds)
  }

  /** A row among the `MostRecent` newest is at least as new as every row after them. */
  lemma NewerThanOlderRows(table: seq<Picture>, p: Picture)
    requires NewestFirst(table)
    requires p in table[..Min(MostRecent, |table|)]
    ensures forall j :: Min(MostRecent, |table|) <= j < |table| ==> p.added >= table[j].added
  {
    var m := Min(MostRecent, |table|);
    var i :| 0 <= i < m && table[..m][i] == p;
    assert table[i] == p;
  }

  /** A row after the `MostRecent` newest is no newer than any of them. */
  lemma NoNewerThanRecentRows(table: seq<Picture>, p: Picture)
    requires NewestFirst(table)
    requires p in table[Min(MostRecent, |table|)..]
    ensures forall i :: 0 <= i < Min(MostRecent, |table|) ==> p.added <= table[i].added
  {
    var m := Min(MostRecent, |table|);
    var j :| 0 <= j < |table| - m && table[m..][j] == p;
    assert table[m + j] == p;
  }

  /** Every candidate of the main query is at least as new as every throwback candidate. */
  lemma RecentNewerThanOlder(table: seq<Picture>, notIds: seq<string>)
    requires NewestFirst(table)
    ensures forall p, q :: p in Recent(table, notIds) && q in Older(table, notIds) ==> p.added >= q.added
  {
    var m := Min(MostRecent, |table|);
    forall p, q | p in Recent(table, notIds) && q in Older(table, notIds)
      ensures p.added >= q.added
    {
      NewerThanOlderRows(table, p);
      var j :| 0 <= j < |table| - m && table[m..][j] == q;
      assert table[m + j] == q;
    }
  }

  /** `Math.random() < 1 / throwbackFrequency`. */
  predicate Throwback(coin: real) {
    coin < 1.0 / ThrowbackFrequency as real
  }

  /**
   A row's weight: `daysWeightWindow / min(max(1, now - added) / msInDay, daysWeightWindow)`.
   `now` and `added` are taken as they come; the source passes milliseconds and seconds.
   */
  function Weight(now: int, added: int): (w: real)
    ensures 1.0 <= w <= (DaysWeightWindow * MsInDay) as real
  {
    var age: real := if now - added > 1 then (now - added) as real else 1.0;
    var days := if age / MsInDay as real < DaysWeightWindow as real then age / MsInDay as real else DaysWeightWindow as real;
    WeightBounds(days);
    DaysWeightWindow as real / days
  }

  lemma WeightBounds(days: real)
    requires 1.0 / MsInDay as real <= days <= DaysWeightWindow as real
    ensures 1.0 <= DaysWeightWindow as real / days <= (DaysWeightWindow * MsInDay) as real
  {
    var w := DaysWeightWindow as real / days;
    assert w * days == DaysWeightWindow as real;
    assert days * MsInDay as real >= 1.0;
  }

  /** A newer row never weighs less than an older one. */
  lemma WeightMonotone(now: int, older: int, newer: int)
    requires older <= newer
    ensures Weight(now, older) <= Weight(now, newer)
  {
    var ageO: real := if now - older > 1 then (now - older) as real else 1.0;
    var ageN: real := if now - newer > 1 then (now - newer) as real else 1.0;
    assert ageN <= ageO;
    var m := MsInDay as real;
    var daysO := if ageO / m < DaysWeightWindow as real then ageO / m else DaysWeightWindow as real;
    var daysN := if ageN / m < DaysWeightWindow as real then ageN / m else DaysWeightWindow as real;
    assert ageN / m <= ageO / m;
    assert 0.0 < daysN <= daysO;
    DivideMonotone(DaysWeightWindow as real, daysN, daysO);
  }

  lemma DivideMonotone(x: real, a: real, b: real)
    requires x >= 0.0 && 0.0 < a <= b
    ensures x / b <= x / a
  {
    assert x / b * b == x;
    assert x / a * a == x;
    assert x / b * a <= x / b * b;
  }

  /** A row at least `daysWeightWindow` days old weighs exactly 1. */
  lemma WeightFloor(now: int, added: int)
    requires now - added >= DaysWeightWindow * MsInDay
    ensures Weight(now, added) == 1.0
  {
    var age := (now - added) as real;
    assert age / MsInDay as real >= DaysWeightWindow as real;
  }

  /** Half a day old against five days old: ten times the weight. */
  lemma WeightTenToOne(now: int)
    ensures Weight(now, now - MsInDay / 2) == 10.0
    ensures Weight(now, now - 5 * MsInDay) == 1.0
  {
    WeightFloor(now, now - 5 * MsInDay);
    var age := (MsInDay / 2) as real;
    assert age / MsInDay as real == 0.5;
  }

  /**
   With `now` in milliseconds (any time after mid-January 1970) and `added` in
   seconds no later than now, every row is older than the window: all weights are 1.
   */
  lemma MixedUnitsGiveUniformWeights(nowMs: int, addedSeconds: int)
    requires nowMs >= 1000000000
    requires addedSeconds * 1000 <= nowMs
    ensures Weight(nowMs, addedSeconds) == 1.0
  {
    WeightFloor(nowMs, addedSeconds);
  }

  /** The weight of each candidate row, in order. */
  function Weights(rows: seq<Picture>, now: int): (ws: seq<real>)
    ensures |ws| == |rows|
    ensures forall i :: 0 <= i < |rows| ==> ws[i] == Weight(now, rows[i].added)
  {
    seq(|rows|, i requires 0 <= i < |rows| => Weight(now, rows[i].added))
  }

  function Sum(ws: seq<real>): real
    decreases |ws|
  {
    if ws == [] then 0.0 else Sum(ws[..|ws| - 1]) + ws[|ws| - 1]
  }

  /** The running totals `weights` that the loop pushes: entry `i` is the sum of the first `i + 1` weights. */
  function Prefix(ws: seq<real>): (p: seq<real>)
    ensures |p| == |ws|
    decreases |ws|
  {
    if ws == [] then [] else Prefix(ws[..|ws| - 1]) + [Sum(ws)]
  }

  lemma {:induction false} PrefixAt(ws: seq<real>, i: nat)
    requires i < |ws|
    ensures Prefix(ws)[i] == Sum(ws[..i + 1])
    decreases |ws|
  {
    if i < |ws| - 1 {
      PrefixAt(ws[..|ws| - 1], i);
      assert ws[..|ws| - 1][..i + 1] == ws[..i + 1];
    } else {
      assert ws[..i + 1] == ws;
    }
  }

  predicate AllPositive(ws: seq<real>) {
    forall i :: 0 <= i < |ws| ==> ws[i] > 0.0
  }

  lemma {:induction false} SumPositive(ws: seq<real>)
    requires AllPositive(ws) && |ws| > 0
    ensures Sum(ws) > 0.0
    decreases |ws|
  {
    if |ws| > 1 {
      SumPositive(ws[..|ws| - 1]);
    }
  }

  /**
   With positive weights the running totals are strictly increasing and the last
   one is the total.
   */
  lemma PrefixIncreasing(ws: seq<real>)
    requires AllPositive(ws)
    ensures forall i, j :: 0 <= i < j < |ws| ==> Prefix(ws)[i] < Prefix(ws)[j]
    ensures |ws| > 0 ==> Prefix(ws)[|ws| - 1] == Sum(ws)
  {
    forall i, j | 0 <= i < j < |ws|
      ensures Prefix(ws)[i] < Prefix(ws)[j]
    {
      PrefixLess(ws, i, j);
    }
    if |ws| > 0 {
      PrefixAt(ws, |ws| - 1);
      assert ws[..|ws|] == ws;
    }
  }

  lemma PrefixLess(ws: seq<real>, i: nat, j: nat)
    requires AllPositive(ws) && i < j < |ws|
    ensures Prefix(ws)[i] < Prefix(ws)[j]
  {
    PrefixAt(ws, i);
    PrefixAt(ws, j);
    var upto := ws[..j + 1];
    assert AllPositive(upto);
    SumGrows(upto, i + 1);
    assert upto[..i + 1] == ws[..i + 1];
  }

  /** A proper prefix of positive weights sums to less than the whole. */
  lemma {:induction false} SumGrows(ws: seq<real>, k: nat)
    requires AllPositive(ws) && k < |ws|
    ensures Sum(ws[..k]) < Sum(ws)
    decreases |ws|
  {
    var init := ws[..|ws| - 1];
    if k < |ws| - 1 {
      SumGrows(init, k);
      assert init[..k] == ws[..k];
    } else {
      assert ws[..k] == init;
    }
  }

  /** The scan `for (let i in weights) if (weights[i] >= pick) ...`: the first index from `from` on whose total reaches `pick`. */
  function FirstAtLeast(p: seq<real>, pick: real, from: nat): (r: Option<nat>)
    ensures r.Some? ==> from <= r.value < |p| && p[r.value] >= pick
    ensures r.Some? ==> forall j :: from <= j < r.value ==> p[j] < pick
    ensures r.None? ==> forall j :: from <= j < |p| ==> p[j] < pick
    decreases |p| - from
  {
    if from >= |p| then None
    else if p[from] >= pick then Some(from)
    else FirstAtLeast(p, pick, from + 1)
  }

  /** `pick = Math.random() * total`. */
  function Threshold(draw: real, total: real): real {
    draw * total
  }

  /** The index the weighted pick chooses among `rows`, with `draw` the second `Math.random()`. */
  function WeightedIndex(rows: seq<Picture>, now: int, draw: real): (r: Option<nat>)
    ensures r.Some? ==> r.value < |rows|
    ensures r.Some? ==> forall j :: 0 <= j < r.value ==> Prefix(Weights(rows, now))[j] < Threshold(draw, Sum(Weights(rows, now)))
    ensures r.Some? ==> Prefix(Weights(rows, now))[r.value] >= Threshold(draw, Sum(Weights(rows, now)))
  {
    var ws := Weights(rows, now);
    FirstAtLeast(Prefix(ws), Threshold(draw, Sum(ws)), 0)
  }

  /**
   For any draw up to 1 and at least one candidate, the pick always finds an index:
   a negative `pick` is below every running total, and `pick == total` is reached
   by the last one. With no candidate there is none (the source's promise never
   settles).
   */
  lemma WeightedIndexExists(rows: seq<Picture>, now: int, draw: real)
    requires draw <= 1.0
    ensures WeightedIndex(rows, now, draw).Some? <==> |rows| > 0
  {
    var ws := Weights(rows, now);
    var p := Prefix(ws);
    if |rows| > 0 {
      SumPositive(ws);
      PrefixIncreasing(ws);
      var pick := Threshold(draw, Sum(ws));
      ThresholdAtMost(draw, Sum(ws));
      assert p[|p| - 1] >= pick;
      assert FirstAtLeast(p, pick, 0).Some?;
    }
  }

  /** A draw of at most 1 scales a positive total to no more than it. */
  lemma ThresholdAtMost(draw: real, total: real)
    requires draw <= 1.0 && total > 0.0
    ensures Threshold(draw, total) <= total
  {
    assert total - Threshold(draw, total) == (1.0 - draw) * total;
  }

  /** A draw above 1 can miss: twice the only weight is more than its running total. */
  lemma HighDrawMisses(p: Picture, now: int)
    ensures WeightedIndex([p], now, 2.0) == None
  {
    var ws := Weights([p], now);
    assert ws == [Weight(now, p.added)];
    assert Sum(ws) == Weight(now, p.added);
    assert Prefix(ws) == [Weight(now, p.added)];
  }

  /** A zero draw picks the first candidate: its running total is positive. */
  lemma ZeroDrawPicksFirst(rows: seq<Picture>, now: int)
    requires |rows| > 0
    ensures WeightedIndex(rows, now, 0.0) == Some(0)
  {
    var ws := Weights(rows, now);
    PrefixAt(ws, 0);
    assert ws[..1][..0] == [];
    assert Threshold(0.0, Sum(ws)) == 0.0;
    assert Prefix(ws)[0] == ws[0] > 0.0;
  }

  /**
   Two distinct rows, no throwback and a zero draw: with nothing excluded the first
   row is selected, and with the first row's id excluded the second one is.
   */
  lemma TwoRowSelections(p: Picture, q: Picture, now: int)
    requires p.id != q.id
    ensures Selected([p, q], [], 0.5, 0, now, 0.0) == Some(p)
    ensures Selected([p, q], [p.id], 0.5, 0, now, 0.0) == Some(q)
  {
    assert !Throwback(0.5);
    assert [p, q][..Min(MostRecent, 2)] == [p, q] && [p, q][..1] == [p];
    assert Exclude([p], []) == [p];
    assert Exclude([p], [p.id]) == [];
    assert Recent([p, q], []) == [p, q];
    assert Recent([p, q], [p.id]) == [q];
    ZeroDrawPicksFirst([p, q], now);
    ZeroDrawPicksFirst([q], now);
  }

  /** The weighted pick over the candidates: the row at the chosen index. */
  function WeightedPick(rows: seq<Picture>, now: int, draw: real): (r: Option<Picture>)
    ensures r.Some? ==> r.value in rows
  {
    match WeightedIndex(rows, now, draw)
    case Some(i) => Some(rows[i])
    case None => None
  }

  /**
   What `selectRandom` settles with: a throwback row when the coin says so and one
   exists, otherwise the weighted pick among the recent rows.
   */
  function Selected(table: seq<Picture>, notIds: seq<string>, coin: real, shuffle: nat, now: int, draw: real): (r: Option<Picture>)
    ensures r.Some? ==> r.value in table && r.value.id !in notIds
  {
    var older := Older(table, notIds);
    if Throwback(coin) && |older| > 0 then
      assert older[shuffle % |older|] in table[Min(MostRecent, |table|)..];
      Some(older[shuffle % |older|])
    else
      var picked := WeightedPick(Recent(table, notIds), now, draw);
      assert picked.Some? ==> picked.value in table[..Min(MostRecent, |table|)];
      picked
  }

  /**
   On rows listed newest first, a throwback is no newer than any of the `MostRecent`
   newest rows, and a weighted pick is at least as new as every row after them.
   */
  lemma SelectedRecency(table: seq<Picture>, notIds: seq<string>, coin: real, shuffle: nat, now: int, draw: real)
    requires NewestFirst(table)
    ensures Throwback(coin) && |Older(table, notIds)| > 0 ==>
              Selected(table, notIds, coin, shuffle, now, draw).Some? &&
              forall i :: 0 <= i < Min(MostRecent, |table|) ==>
                Selected(table, notIds, coin, shuffle, now, draw).value.added <= table[i].added
    ensures !(Throwback(coin) && |Older(table, notIds)| > 0) && Selected(table, notIds, coin, shuffle, now, draw).Some? ==>
              forall j :: Min(MostRecent, |table|) <= j < |table| ==>
                Selected(table, notIds, coin, shuffle, now, draw).value.added >= table[j].added
  {
    var r := Selected(table, notIds, coin, shuffle, now, draw);
    var older := Older(table, notIds);
    if Throwback(coin) && |older| > 0 {
      assert older[shuffle % |older|] in older;
      NoNewerThanRecentRows(table, r.value);
    } else if r.Some? {
      assert r.value in Recent(table, notIds);
      NewerThanOlderRows(table, r.value);
    }
  }

  /** Excluding every row's id leaves nothing. */
  lemma {:induction false} ExcludeAll(rows: seq<Picture>, notIds: seq<string>)
    requires forall i :: 0 <= i < |rows| ==> rows[i].id in notIds
    ensures Exclude(rows, notIds) == []
    decreases |rows|
  {
    if rows != [] {
      ExcludeAll(rows[..|rows| - 1], notIds);
    }
  }

  /** When every row's id is excluded, neither branch has a candidate and the promise never settles. */
  lemma ExhaustedCatalogSelectsNothing(table: seq<Picture>, notIds: seq<string>, coin: real, shuffle: nat, now: int, draw: real)
    requires forall i :: 0 <= i < |table| ==> table[i].id in notIds
    ensures Selected(table, notIds, coin, shuffle, now, draw) == None
  {
    var m := Min(MostRecent, |table|);
    assert forall i :: 0 <= i < |table[m..]| ==> table[m..][i] == table[m + i];
    ExcludeAll(table[m..], notIds);
    ExcludeAll(table[..m], notIds);
  }

  /**
   `selectRandom`: `coin` is the first `Math.random()`, `shuffle` stands for `ORDER BY
   RANDOM()` among the throwback rows, `draw` for the second `Math.random()`. `None`
   is a promise that never settles: no candidate row, or a draw above 1, which
   `Math.random()` never returns.
   */
  method SelectRandom(table: seq<Picture>, notIds: seq<string>, coin: real, shuffle: nat, now: int, draw: real)
    returns (r: Option<Picture>)
    requires NewestFirst(table)
    ensures r == Selected(table, notIds, coin, shuffle, now, draw)
    ensures r.Some? ==> r.value in table && r.value.id !in notIds
    ensures Throwback(coin) && |Older(table, notIds)| > 0 ==>
              r == Some(Older(table, notIds)[shuffle % |Older(table, notIds)|]) &&
              forall i :: 0 <= i < Min(MostRecent, |table|) ==> r.value.added <= table[i].added
    ensures !(Throwback(coin) && |Older(table, notIds)| > 0) ==>
              r == WeightedPick(Recent(table, notIds), now, draw) &&
              (r.Some? ==> forall j :: Min(MostRecent, |table|) <= j < |table| ==> r.value.added >= table[j].added)
  {
    SelectedRecency(table, notIds, coin, shuffle, now, draw);
    if coin < 1.0 / ThrowbackFrequency as real {
      var older := Exclude(table[Min(MostRecent, |table|)..], notIds);
      if |older| > 0 {
        assert older[shuffle % |older|] in table[Min(MostRecent, |table|)..];
        return Some(older[shuffle % |older|]);
      }
    }
    var rows := Exclude(table[..Min(MostRecent, |table|)], notIds);
    var index := WeightedScan(rows, now, draw);
    if index.Some? {
      r := Some(rows[index.value]);
    } else {
      r := None;
    }
    assert r == WeightedPick(rows, now, draw);
  }

  /** The weighted pick's two loops in sequence: running totals, then the scan for `draw * total`. */
  method WeightedScan(rows: seq<Picture>, now: int, draw: real) returns (index: Option<nat>)
    ensures index == WeightedIndex(rows, now, draw)
    ensures index.Some? ==> index.value < |rows|
  {
    var weights, total := RunningTotals(rows, now);
    var pick := Threshold(draw, total);
    index := ScanAtLeast(weights, pick);
  }

  /** The first loop of the weighted pick: it pushes `total + weight` for each row and accumulates `total`. */
  method RunningTotals(rows: seq<Picture>, now: int) returns (weights: seq<real>, total: real)
    ensures weights == Prefix(Weights(rows, now))
    ensures total == Sum(Weights(rows, now))
  {
    ghost var ws := Weights(rows, now);
    weights := [];
    total := 0.0;
    for i := 0 to |rows|
      invariant weights == Prefix(ws[..i])
      invariant total == Sum(ws[..i])
    {
      assert ws[..i + 1][..i] == ws[..i];
      var weight := Weight(now, rows[i].added);
      weights := weights + [total + weight];
      total := total + weight;
    }
    assert ws[..|rows|] == ws;
  }

  /** The second loop: the first index whose running total reaches `pick`, if any. */
  method ScanAtLeast(weights: seq<real>, pick: real) returns (index: Option<nat>)
    ensures index == FirstAtLeast(weights, pick, 0)
  {
    for i := 0 to |weights|
      invariant forall j :: 0 <= j < i ==> weights[j] < pick
    {
      if weights[i] >= pick {
        ghost var chosen := FirstAtLeast(weights, pick, 0);
        assert chosen == Some(i);
        return Some(i);
      }
    }
    return None;
  }
}
