/** The three per-frame passes over the whole object table, as functions of the
    table's contents, with the counts that drive the score and the facts the
    game relies on. */
module Rules {
  import opened Objects

  // ---- counts over a table ----
  // Each count recurses on the prefix s[..|s| - 1], so a loop that walks the table
  // front to back adds one slot at a time to the count of the prefix it has seen.

  function ActiveCount(s: seq<GameObject>): (n: nat)
    ensures n <= |s|
  {
    if s == [] then 0 else ActiveCount(s[..|s| - 1]) + (if s[|s| - 1].active then 1 else 0)
  }

  function FruitHits(s: seq<GameObject>, x: int, y: int): (n: nat)
    ensures n <= |s|
  {
    if s == [] then 0 else FruitHits(s[..|s| - 1], x, y) + (if FruitHit(s[|s| - 1], x, y) then 1 else 0)
  }

  function BombHits(s: seq<GameObject>, x: int, y: int): (n: nat)
    ensures n <= |s|
  {
    if s == [] then 0 else BombHits(s[..|s| - 1], x, y) + (if BombHit(s[|s| - 1], x, y) then 1 else 0)
  }

  function LeavingCount(s: seq<GameObject>): (n: nat)
    ensures n <= |s|
  {
    if s == [] then 0 else LeavingCount(s[..|s| - 1]) + (if Leaves(s[|s| - 1]) then 1 else 0)
  }

  function MissedCount(s: seq<GameObject>): (n: nat)
    ensures n <= |s|
  {
    if s == [] then 0 else MissedCount(s[..|s| - 1]) + (if Missed(s[|s| - 1]) then 1 else 0)
  }

  /** The indices of the on-screen slots. */
  function ActiveSlots(s: seq<GameObject>): (slots: set<nat>) {
    set i: nat | i < |s| && s[i].active
  }

  /** Counting on-screen slots one by one gives the size of the set of on-screen slots. */
  lemma {:induction false} ActiveCountIsSlotCount(s: seq<GameObject>)
    ensures ActiveCount(s) == |ActiveSlots(s)|
  {
    if s != [] {
      var n := |s| - 1;
      ActiveCountIsSlotCount(s[..n]);
      assert n !in ActiveSlots(s[..n]);
      assert ActiveSlots(s) == ActiveSlots(s[..n]) + (if s[n].active then {n} else {});
    }
  }

  /** Overwriting one slot changes the active count only by that slot's own flag. */
  lemma {:induction false} ActiveCountUpdate(s: seq<GameObject>, i: nat, o: GameObject)
    requires i < |s|
    ensures ActiveCount(s[i := o]) == ActiveCount(s) - (if s[i].active then 1 else 0) + (if o.active then 1 else 0)
  {
    var n := |s| - 1;
    if i == n {
      assert s[i := o][..n] == s[..n];
    } else {
      assert s[i := o][..n] == s[..n][i := o];
      ActiveCountUpdate(s[..n], i, o);
    }
  }

  // ---- handleSlice ----

  /** The table after a slice at (x, y): exactly the hit objects become sliced, nothing else changes. */
  function SliceAll(s: seq<GameObject>, x: int, y: int): (r: seq<GameObject>)
    ensures |r| == |s|
    ensures forall i :: 0 <= i < |s| ==> (r[i].sliced <==> s[i].sliced || Hit(s[i], x, y))
    ensures forall i :: 0 <= i < |s| ==> r[i] == s[i].(sliced := r[i].sliced)
  {
    seq(|s|, i requires 0 <= i < |s| => Sliced(s[i], x, y))
  }

  /** A table in which the slice at (x, y) hits nothing scores nothing. */
  lemma {:induction false} NoHitsScoreNothing(s: seq<GameObject>, x: int, y: int)
    requires forall i :: 0 <= i < |s| ==> !Hit(s[i], x, y)
    ensures FruitHits(s, x, y) == 0 && BombHits(s, x, y) == 0
  {
    if s != [] {
      NoHitsScoreNothing(s[..|s| - 1], x, y);
    }
  }

  /** Slicing twice at the same point: the second slice changes no slot and scores nothing. */
  lemma SliceAgainChangesNothing(s: seq<GameObject>, x: int, y: int)
    ensures SliceAll(SliceAll(s, x, y), x, y) == SliceAll(s, x, y)
    ensures FruitHits(SliceAll(s, x, y), x, y) == 0
    ensures BombHits(SliceAll(s, x, y), x, y) == 0
  {
    var once := SliceAll(s, x, y);
    assert forall i :: 0 <= i < |once| ==> !Hit(once[i], x, y);
    NoHitsScoreNothing(once, x, y);
  }

  /** Counting fruit hits one by one gives the size of the set of slots holding a fruit that is hit. */
  lemma {:induction false} FruitHitsIsSlotCount(s: seq<GameObject>, x: int, y: int)
    ensures FruitHits(s, x, y) == |set i: nat | i < |s| && FruitHit(s[i], x, y)|
  {
    if s != [] {
      var n := |s| - 1;
      FruitHitsIsSlotCount(s[..n], x, y);
      var before := set i: nat | i < n && FruitHit(s[..n][i], x, y);
      var all := set i: nat | i < |s| && FruitHit(s[i], x, y);
      assert n !in before;
      assert all == before + (if FruitHit(s[n], x, y) then {n} else {});
    }
  }

  /** Counting bomb hits one by one gives the size of the set of slots holding a bomb that is hit. */
  lemma {:induction false} BombHitsIsSlotCount(s: seq<GameObject>, x: int, y: int)
    ensures BombHits(s, x, y) == |set i: nat | i < |s| && BombHit(s[i], x, y)|
  {
    if s != [] {
      var n := |s| - 1;
      BombHitsIsSlotCount(s[..n], x, y);
      var before := set i: nat | i < n && BombHit(s[..n][i], x, y);
      var all := set i: nat | i < |s| && BombHit(s[i], x, y);
      assert n !in before;
      assert all == before + (if BombHit(s[n], x, y) then {n} else {});
    }
  }

  /** Each object hit is either a fruit or a bomb, so the two counts add up to all hits. */
  lemma {:induction false} HitsSplitByKind(s: seq<GameObject>, x: int, y: int)
    ensures FruitHits(s, x, y) + BombHits(s, x, y) == |set i: nat | i < |s| && Hit(s[i], x, y)|
  {
    if s != [] {
      var n := |s| - 1;
      HitsSplitByKind(s[..n], x, y);
      var before := set i: nat | i < n && Hit(s[..n][i], x, y);
      var all := set i: nat | i < |s| && Hit(s[i], x, y);
      assert n !in before;
      assert all == before + (if Hit(s[n], x, y) then {n} else {});
    }
  }

  // ---- updateGame ----

  /** The table after one physics step: every on-screen object falls by its speed, and
      is taken off screen exactly when it is now below the bottom edge. */
  function UpdateAll(s: seq<GameObject>): (r: seq<GameObject>)
    ensures |r| == |s|
    ensures forall i :: 0 <= i < |s| && !s[i].active ==> r[i] == s[i]
    ensures forall i :: 0 <= i < |s| && s[i].active ==>
      && r[i].y == s[i].y + s[i].velocity
      && (r[i].active <==> r[i].y <= ScreenHeight)
      && r[i] == s[i].(y := r[i].y, active := r[i].active)
  {
    seq(|s|, i requires 0 <= i < |s| => Moved(s[i]))
  }

  /** A physics step takes off screen exactly the objects that leave it; none comes on. */
  lemma {:induction false} UpdateRemovesLeaving(s: seq<GameObject>)
    ensures ActiveCount(UpdateAll(s)) == ActiveCount(s) - LeavingCount(s)
  {
    if s != [] {
      var n := |s| - 1;
      assert UpdateAll(s)[..n] == UpdateAll(s[..n]);
      UpdateRemovesLeaving(s[..n]);
    }
  }

  /** Counting missed fruit one by one gives the size of the set of slots holding a missed fruit. */
  lemma {:induction false} MissedCountIsSlotCount(s: seq<GameObject>)
    ensures MissedCount(s) == |set i: nat | i < |s| && Missed(s[i])|
  {
    if s != [] {
      var n := |s| - 1;
      MissedCountIsSlotCount(s[..n]);
      var before := set i: nat | i < n && Missed(s[..n][i]);
      var all := set i: nat | i < |s| && Missed(s[i]);
      assert n !in before;
      assert all == before + (if Missed(s[n]) then {n} else {});
    }
  }

  /** Only objects that leave can cost a point, and bombs and sliced fruit cost nothing. */
  lemma {:induction false} MissedAmongLeaving(s: seq<GameObject>)
    ensures MissedCount(s) <= LeavingCount(s)
    ensures (forall i :: 0 <= i < |s| && Leaves(s[i]) ==> s[i].kind == Bomb || s[i].sliced) ==> MissedCount(s) == 0
  {
    if s != [] {
      MissedAmongLeaving(s[..|s| - 1]);
    }
  }

  // ---- one pass of spawnObjects ----

  /** Slot i is free and its draw fires. */
  predicate Fires(s: seq<GameObject>, rolls: seq<nat>, i: nat)
    requires i < |s| && i < |rolls|
  {
    !s[i].active && rolls[i] % SpawnChance == 0
  }

  /** The first slot at or after `from` that fires, if any. */
  function FirstFiring(s: seq<GameObject>, rolls: seq<nat>, from: nat): (r: Option<nat>)
    requires |rolls| == |s| && from <= |s|
    ensures r.Some? ==> from <= r.value < |s| && Fires(s, rolls, r.value)
    ensures r.Some? ==> forall j: nat :: from <= j < r.value ==> !Fires(s, rolls, j)
    ensures r.None? ==> forall j: nat :: from <= j < |s| ==> !Fires(s, rolls, j)
    decreases |s| - from
  {
    if from == |s| then None
    else if Fires(s, rolls, from) then Some(from)
    else FirstFiring(s, rolls, from + 1)
  }

  /** The table after one spawn pass: the first free slot whose draw fires is filled
      from `d`, and every other slot is kept. */
  function SpawnPass(s: seq<GameObject>, rolls: seq<nat>, d: SpawnDraws): (r: seq<GameObject>)
    requires |rolls| == |s|
    ensures |r| == |s|
    ensures forall i: nat :: i < |s| ==>
      (r[i] != s[i] <==> Fires(s, rolls, i) && forall j: nat :: j < i ==> !Fires(s, rolls, j))
    ensures forall i: nat :: i < |s| && r[i] != s[i] ==> r[i] == Spawned(d)
  {
    match FirstFiring(s, rolls, 0)
    case None => s
    case Some(i) => s[i := Spawned(d)]
  }

  /** A spawn pass fills at most one slot. */
  lemma SpawnFillsAtMostOne(s: seq<GameObject>, rolls: seq<nat>, d: SpawnDraws, i: nat, k: nat)
    requires |rolls| == |s| && i < |s| && k < |s|
    requires SpawnPass(s, rolls, d)[i] != s[i] && SpawnPass(s, rolls, d)[k] != s[k]
    ensures i == k
  {
  }

  /** A spawn pass brings exactly one object on screen when some free slot fires, else none. */
  lemma SpawnActiveCount(s: seq<GameObject>, rolls: seq<nat>, d: SpawnDraws)
    requires |rolls| == |s|
    ensures ActiveCount(SpawnPass(s, rolls, d)) == ActiveCount(s) + (if FirstFiring(s, rolls, 0).Some? then 1 else 0)
  {
    match FirstFiring(s, rolls, 0)
    case None =>
    case Some(i) => ActiveCountUpdate(s, i, Spawned(d));
  }
}
