/** One slot of the game's object table: the record, the game's constants, and
    what each of the three per-frame passes does to a single slot. */
module Objects {

  const MaxFruits: nat := 20
  const ScreenWidth: nat := 800
  const ScreenHeight: nat := 600
  const FruitTypes: nat := 4
  /** One spawn in BombChance is a bomb. */
  const BombChance: nat := 10
  /** A free slot is filled when its draw is a multiple of SpawnChance. */
  const SpawnChance: nat := 30
  /** A slice hits when the squared distance is below 30 * 30. */
  const SliceRadiusSquared: nat := 900
  const FruitReward: int := 1
  const BombPenalty: int := 10
  const MissPenalty: int := 1

  datatype Option<T> = None | Some(value: T)

  datatype ObjectType = Apple | Banana | Orange | Watermelon | Bomb

  /** The C enumerator value of each object type. */
  function Ordinal(t: ObjectType): (n: nat) {
    match t
    case Apple => 0
    case Banana => 1
    case Orange => 2
    case Watermelon => 3
    case Bomb => 4
  }

  /** The object type a fruit ordinal (a draw reduced modulo FruitTypes) converts to. */
  function FruitOfOrdinal(k: nat): (t: ObjectType)
    requires k < FruitTypes
    ensures t != Bomb
    ensures Ordinal(t) == k
  {
    if k == 0 then Apple else if k == 1 then Banana else if k == 2 then Orange else Watermelon
  }

  /** A slot of the table. The C flags `active` and `sliced` are only ever 0 or 1. */
  datatype GameObject = GameObject(x: int, y: int, velocity: int, active: bool, kind: ObjectType, sliced: bool)

  /** A zero-initialised slot, as the global table starts out. */
  const Idle := GameObject(0, 0, 0, false, Apple, false)

  /** A slot that is on screen keeps its position and speed in the ranges spawning gives it. */
  predicate InPlay(o: GameObject) {
    o.active ==> 0 <= o.x < ScreenWidth && 0 <= o.y <= ScreenHeight && 2 <= o.velocity <= 6
  }

  // ---- slicing ----

  function DistanceSquared(o: GameObject, x: int, y: int): (d: int) {
    (x - o.x) * (x - o.x) + (y - o.y) * (y - o.y)
  }

  /** A slice at (x, y) hits an on-screen, not yet sliced object strictly inside the radius. */
  predicate Hit(o: GameObject, x: int, y: int) {
    o.active && !o.sliced && DistanceSquared(o, x, y) < SliceRadiusSquared
  }

  predicate FruitHit(o: GameObject, x: int, y: int) {
    Hit(o, x, y) && o.kind != Bomb
  }

  predicate BombHit(o: GameObject, x: int, y: int) {
    Hit(o, x, y) && o.kind == Bomb
  }

  /** The slot after a slice at (x, y). */
  function Sliced(o: GameObject, x: int, y: int): (r: GameObject) {
    if Hit(o, x, y) then o.(sliced := true) else o
  }

  /** For on-screen objects and on-screen slice points the squared distance fits a 32-bit int. */
  lemma DistanceFitsInt32(o: GameObject, x: int, y: int)
    requires InPlay(o) && o.active
    requires 0 <= x < ScreenWidth && 0 <= y < ScreenHeight
    ensures 0 <= DistanceSquared(o, x, y) < 0x8000_0000
  {
    SquareAtMost(x - o.x, 799);
    SquareAtMost(y - o.y, 600);
  }

  lemma SquareAtMost(d: int, m: int)
    requires 0 <= m && -m <= d <= m
    ensures 0 <= d * d <= m * m
  {
  }

  // ---- moving ----

  /** An on-screen object whose next position is below the bottom edge. */
  predicate Leaves(o: GameObject) {
    o.active && o.y + o.velocity > ScreenHeight
  }

  /** A fruit that leaves the screen without having been sliced. */
  predicate Missed(o: GameObject) {
    Leaves(o) && o.kind != Bomb && !o.sliced
  }

  /** The slot after one physics step. */
  function Moved(o: GameObject): (r: GameObject) {
    if !o.active then o
    else
      var y' := o.y + o.velocity;
      o.(y := y', active := !(y' > ScreenHeight))
  }

  // ---- spawning ----

  /** The values rand() returns for a slot that fires, in the order they are drawn:
      position, speed, bomb test, and (only on the fruit branch) the fruit kind. */
  datatype SpawnDraws = SpawnDraws(xRoll: nat, velocityRoll: nat, bombRoll: nat, fruitRoll: nat)

  /** The slot a firing spawn writes. */
  function Spawned(d: SpawnDraws): (o: GameObject)
    ensures o.active && o.y == 0 && !o.sliced
    ensures 0 <= o.x < ScreenWidth
    ensures 2 <= o.velocity <= 6
    ensures o.kind == Bomb <==> d.bombRoll % BombChance == 0
    ensures o.kind != Bomb ==> Ordinal(o.kind) < FruitTypes
    ensures InPlay(o)
  {
    GameObject(
      d.xRoll % ScreenWidth,
      0,
      2 + d.velocityRoll % 5,
      true,
      if d.bombRoll % BombChance == 0 then Bomb else FruitOfOrdinal(d.fruitRoll % FruitTypes),
      false)
  }
}
