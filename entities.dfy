/** The three kinds of entity and the rules by which zombies pick a target
    and humans remember which zombie hunts them. */
module Entities {
  import opened Util
  import opened Geometry

  /** Kill range of the player and the distances covered per turn. */
  const PLAYER_RANGE: int := 2000
  const PLAYER_STEP: int := 1000
  const ZOMBIE_STEP: int := 400

  /** The player's position and the free-text label printed with it. */
  datatype Player = Player(pos: Vec2, msg: string)

  /** `targetedBy` is an index into the zombie list of the same state. */
  datatype Human = Human(id: int, pos: Vec2, targetedBy: Option<nat>)

  /** What a zombie hunts: the player, or the human at an index of the human list. */
  datatype Target = PlayerTarget | HumanTarget(idx: nat)

  /** `nextPos` is the move the zombie has already committed to; `targetDistSq`
      is the squared distance from `nextPos` to the target. */
  datatype Zombie = Zombie(id: int, pos: Vec2, nextPos: Vec2, target: Target, targetDistSq: int)

  /** A target together with its squared distance. */
  datatype Aim = Aim(target: Target, distSq: int)

  /** The target chosen after looking at the player and the first `k` humans:
      the player is the first candidate and a human displaces the current
      choice only when strictly closer. */
  function Scan(from: Vec2, playerPos: Vec2, humans: seq<Human>, k: nat): (a: Aim)
    requires k <= |humans|
    ensures a.target.HumanTarget? ==> a.target.idx < k
    decreases k
  {
    if k == 0 then Aim(PlayerTarget, DistSq(from, playerPos))
    else
      var a := Scan(from, playerPos, humans, k - 1);
      var d := DistSq(from, humans[k - 1].pos);
      if d < a.distSq then Aim(HumanTarget(k - 1), d) else a
  }

  /** The scan finds a minimum distance; the player wins every tie, and among
      humans the first at minimum distance wins. These facts determine the
      target and its distance uniquely. */
  lemma {:induction false} ScanFindsClosest(from: Vec2, playerPos: Vec2, humans: seq<Human>, k: nat)
    requires k <= |humans|
    ensures var a := Scan(from, playerPos, humans, k);
      && a.distSq <= DistSq(from, playerPos)
      && (forall j :: 0 <= j < k ==> a.distSq <= DistSq(from, humans[j].pos))
      && (a.target.PlayerTarget? <==> (forall j :: 0 <= j < k ==> DistSq(from, playerPos) <= DistSq(from, humans[j].pos)))
      && (a.target.PlayerTarget? ==> a.distSq == DistSq(from, playerPos))
      && (a.target.HumanTarget? ==>
            && a.distSq == DistSq(from, humans[a.target.idx].pos)
            && a.distSq < DistSq(from, playerPos)
            && forall j :: 0 <= j < a.target.idx ==> a.distSq < DistSq(from, humans[j].pos))
    decreases k
  {
    if k > 0 {
      ScanFindsClosest(from, playerPos, humans, k - 1);
    }
  }

  /** The scan reads the humans' positions and nothing else of them. */
  lemma {:induction false} ScanReadsPositions(from: Vec2, playerPos: Vec2, a: seq<Human>, b: seq<Human>, k: nat)
    requires k <= |a| == |b|
    requires forall i :: 0 <= i < |a| ==> a[i].pos == b[i].pos
    ensures Scan(from, playerPos, a, k) == Scan(from, playerPos, b, k)
    decreases k
  {
    if k > 0 {
      ScanReadsPositions(from, playerPos, a, b, k - 1);
    }
  }

  /** The closest of the player and `humans` to `from`. */
  function Closest(from: Vec2, player: Player, humans: seq<Human>): Aim
  {
    Scan(from, player.pos, humans, |humans|)
  }

  /** `z` with its target chosen from its committed next position. */
  function Aimed(z: Zombie, player: Player, humans: seq<Human>): (r: Zombie)
    ensures r.id == z.id && r.pos == z.pos && r.nextPos == z.nextPos
    ensures r.target.HumanTarget? ==> r.target.idx < |humans|
  {
    var a := Closest(z.nextPos, player, humans);
    z.(target := a.target, targetDistSq := a.distSq)
  }

  /** A zombie retargets: it starts from the player and moves to a human only
      when that human is strictly closer to its committed next position. */
  method SetTarget(z: Zombie, player: Player, humans: seq<Human>) returns (r: Zombie)
    ensures r == Aimed(z, player, humans)
  {
    r := z.(targetDistSq := DistSq(z.nextPos, player.pos), target := PlayerTarget);
    var idx := 0;
    while idx < |humans|
      invariant 0 <= idx <= |humans|
      invariant r == z.(target := r.target, targetDistSq := r.targetDistSq)
      invariant Aim(r.target, r.targetDistSq) == Scan(z.nextPos, player.pos, humans, idx)
    {
      var d := DistSq(r.nextPos, humans[idx].pos);
      if d < r.targetDistSq {
        r := r.(targetDistSq := d, target := HumanTarget(idx));
      }
      idx := idx + 1;
    }
  }

  /** A zombie dies when its next position is within the player's range. */
  predicate WithinPlayer(z: Zombie, player: Player) {
    DistSq(z.nextPos, player.pos) <= PLAYER_RANGE * PLAYER_RANGE
  }

  /** A human dies when some zombie stands on it. */
  predicate WithinZombie(h: Human, zombies: seq<Zombie>) {
    exists j :: 0 <= j < |zombies| && zombies[j].pos == h.pos
  }

  /** Where the zombie's target stands. */
  function TargetPos(z: Zombie, player: Player, humans: seq<Human>): Vec2
    requires z.target.HumanTarget? ==> z.target.idx < |humans|
  {
    match z.target
    case PlayerTarget => player.pos
    case HumanTarget(i) => humans[i].pos
  }

  /** `z` retargeted and stepped toward its new target from its committed
      next position. */
  function NextMoveOf(z: Zombie, player: Player, humans: seq<Human>, far: Stepper): (r: Zombie)
    ensures r.id == z.id && r.pos == z.pos
    ensures r.target == Closest(z.nextPos, player, humans).target
    ensures r.targetDistSq == Closest(z.nextPos, player, humans).distSq
    ensures r.target.HumanTarget? ==> r.target.idx < |humans|
    ensures DistSq(z.nextPos, TargetPos(r, player, humans)) <= ZOMBIE_STEP * ZOMBIE_STEP ==>
      r.nextPos == TargetPos(r, player, humans)
    ensures DistSq(z.nextPos, TargetPos(r, player, humans)) > ZOMBIE_STEP * ZOMBIE_STEP ==>
      r.nextPos == far(z.nextPos, TargetPos(r, player, humans), ZOMBIE_STEP)
  {
    var t := Aimed(z, player, humans);
    t.(nextPos := MoveCapped(t.nextPos, TargetPos(t, player, humans), ZOMBIE_STEP, far))
  }

  /** A zombie's move for the coming turn: retarget, then step toward the target. */
  method SetNextMove(z: Zombie, player: Player, humans: seq<Human>, far: Stepper) returns (r: Zombie)
    ensures r == NextMoveOf(z, player, humans, far)
  {
    r := SetTarget(z, player, humans);
    var targetPos := player.pos;
    if r.target.HumanTarget? {
      targetPos := humans[r.target.idx].pos;
    }
    r := r.(nextPos := MoveCapped(r.nextPos, targetPos, ZOMBIE_STEP, far));
  }

  /** Every back-reference of `h` points into a zombie list of length `n`. */
  predicate RefInRange(h: Human, n: nat) {
    h.targetedBy.Some? ==> h.targetedBy.value < n
  }

  /** Zombie `idx` claims human `h`. The first claim is taken unconditionally;
      a later one replaces the incumbent only when the human's distance to the
      new zombie's current position is strictly below the incumbent's
      `targetDistSq`, which was measured from the incumbent's next position. */
  function Claim(h: Human, zombies: seq<Zombie>, idx: nat): (r: Human)
    requires idx < |zombies|
    requires RefInRange(h, |zombies|)
    ensures r.id == h.id && r.pos == h.pos
    ensures h.targetedBy.None? ==> r.targetedBy == Some(idx)
    ensures h.targetedBy.Some? ==>
      (r.targetedBy == Some(idx) || r.targetedBy == h.targetedBy) &&
      (r.targetedBy != h.targetedBy <==>
         h.targetedBy.value != idx &&
         DistSq(h.pos, zombies[idx].pos) < zombies[h.targetedBy.value].targetDistSq)
    ensures RefInRange(r, |zombies|)
  {
    var zombieDist := DistSq(h.pos, zombies[idx].pos);
    match h.targetedBy
    case None => h.(targetedBy := Some(idx))
    case Some(incumbent) =>
      if zombieDist < zombies[incumbent].targetDistSq then h.(targetedBy := Some(idx)) else h
  }
}
