/** The game state that the frame loop and the spawner share: the fixed table of
    object slots and the score, with the passes that change them in place. */
module NinjaFruit {
  import opened Objects
  import opened Rules

  class Game {
    var objects: array<GameObject>
    var score: int

    /** The table has MaxFruits slots and every on-screen slot is within the screen. */
    ghost predicate Valid()
      reads this, objects
    {
      objects.Length == MaxFruits && forall i :: 0 <= i < objects.Length ==> InPlay(objects[i])
    }

    /** The game at start-up: every slot off screen, score zero. */
    constructor ()
      ensures Valid() && fresh(objects)
      ensures forall i :: 0 <= i < objects.Length ==> !objects[i].active
      ensures ActiveCount(objects[..]) == 0
      ensures score == 0
    {
      objects := new GameObject[MaxFruits](_ => Idle);
      score := 0;
      new;
      ActiveCountIsSlotCount(objects[..]);
      assert ActiveSlots(objects[..]) == {};
    }

    /** A slice at (x, y): marks every hit object sliced, one point per fruit, minus ten per bomb. */
    method HandleSlice(x: int, y: int)
      requires Valid()
      modifies this`score, objects
      ensures Valid()
      ensures objects[..] == SliceAll(old(objects[..]), x, y)
      ensures score == old(score) + FruitReward * FruitHits(old(objects[..]), x, y)
                                  - BombPenalty * BombHits(old(objects[..]), x, y)
    {
      ghost var before := objects[..];
      var i := 0;
      while i < objects.Length
        invariant 0 <= i <= objects.Length
        invariant forall j :: 0 <= j < i ==> objects[j] == Sliced(before[j], x, y)
        invariant forall j :: i <= j < objects.Length ==> objects[j] == before[j]
        invariant score == old(score) + FruitReward * FruitHits(before[..i], x, y)
                                      - BombPenalty * BombHits(before[..i], x, y)
      {
        assert before[..i + 1][..i] == before[..i];
        var o := objects[i];
        if o.active && !o.sliced {
          var dx := x - o.x;
          var dy := y - o.y;
          var distance := dx * dx + dy * dy;
          if distance < SliceRadiusSquared {
            objects[i] := o.(sliced := true);
            if o.kind == Bomb {
              score := score - BombPenalty;
            } else {
              score := score + FruitReward;
            }
          }
        }
        i := i + 1;
      }
      assert before[..i] == before;
      assert objects[..] == SliceAll(before, x, y);
    }

    /** One physics step: every on-screen object falls by its speed; those now below the
        bottom edge go off screen, and each unsliced fruit among them costs a point. */
    method UpdateGame()
      requires Valid()
      modifies this`score, objects
      ensures Valid()
      ensures objects[..] == UpdateAll(old(objects[..]))
      ensures score == old(score) - MissPenalty * MissedCount(old(objects[..]))
    {
      ghost var before := objects[..];
      var i := 0;
      while i < objects.Length
        invariant 0 <= i <= objects.Length
        invariant forall j :: 0 <= j < i ==> objects[j] == Moved(before[j])
        invariant forall j :: i <= j < objects.Length ==> objects[j] == before[j]
        invariant score == old(score) - MissPenalty * MissedCount(before[..i])
      {
        assert before[..i + 1][..i] == before[..i];
        if objects[i].active {
          objects[i] := objects[i].(y := objects[i].y + objects[i].velocity);
          if objects[i].y > ScreenHeight {
            objects[i] := objects[i].(active := false);
            if objects[i].kind != Bomb && !objects[i].sliced {
              score := score - MissPenalty;
            }
          }
        }
        i := i + 1;
      }
      assert before[..i] == before;
      assert objects[..] == UpdateAll(before);
    }

    /** One pass of the spawner: scanning from slot 0, the first free slot whose draw
        `rolls[i]` fires is filled from `draws`, and the scan stops there. */
    method SpawnStep(rolls: seq<nat>, draws: SpawnDraws)
      requires Valid()
      requires |rolls| == MaxFruits
      modifies objects
      ensures Valid()
      ensures objects[..] == SpawnPass(old(objects[..]), rolls, draws)
      ensures score == old(score)
    {
      ghost var before := objects[..];
      var i := 0;
      while i < objects.Length
        invariant 0 <= i <= objects.Length
        invariant objects[..] == before
        invariant forall j: nat :: j < i ==> !Fires(before, rolls, j)
      {
        if !objects[i].active {
          if rolls[i] % SpawnChance == 0 {
            assert Fires(before, rolls, i);
            objects[i] := objects[i].(
              active := true,
              x := draws.xRoll % ScreenWidth,
              y := 0,
              velocity := 2 + draws.velocityRoll % 5,
              sliced := false,
              kind := if draws.bombRoll % BombChance == 0 then Bomb
                      else FruitOfOrdinal(draws.fruitRoll % FruitTypes));
            assert FirstFiring(before, rolls, 0) == Some(i);
            assert objects[..] == before[i := Spawned(draws)];
            break;
          }
        }
        i := i + 1;
      }
      if i == objects.Length {
        assert FirstFiring(before, rolls, 0) == None;
      }
    }

    /** The number of on-screen objects, counted slot by slot. */
    method CountActive() returns (n: nat)
      requires Valid()
      ensures n == ActiveCount(objects[..])
      ensures n == |ActiveSlots(objects[..])|
    {
      n := 0;
      var i := 0;
      while i < objects.Length
        invariant 0 <= i <= objects.Length
        invariant n == ActiveCount(objects[..i])
      {
        assert objects[..i + 1][..i] == objects[..i];
        if objects[i].active {
          n := n + 1;
        }
        i := i + 1;
      }
      assert objects[..i] == objects[..];
      ActiveCountIsSlotCount(objects[..]);
    }
  }
}
