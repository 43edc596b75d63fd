/** One turn of the game as a function of the state: each step of
    `GameState::simulate` as a function on state values, and what a turn
    guarantees about the state it produces. */
module Turn {
  import opened Util
  import opened Geometry
  import opened Entities

  datatype State = State(player: Player, humans: seq<Human>, zombies: seq<Zombie>) {
    /** Every human is dead (a loss) or every zombie is (a win). */
    predicate Ended() {
      |humans| == 0 || |zombies| == 0
    }
  }

  /** A policy: the player's destination and label, chosen from a state. */
  type Strategy = State -> Player

  /** Every human's back-reference, if any, is an index of the zombie list. */
  predicate BackRefsInRange(s: State) {
    forall i :: 0 <= i < |s.humans| ==> RefInRange(s.humans[i], |s.zombies|)
  }

  function ZombieId(z: Zombie): int { z.id }

  /** What two humans must share to be equal in the program: id and position. */
  function HumanKey(h: Human): (int, Vec2) { (h.id, h.pos) }

  function Untargeted(h: Human): Human { h.(targetedBy := None) }

  function Reset(z: Zombie): Zombie { z.(target := PlayerTarget, targetDistSq := I32_MAX) }

  /** Step 1: forget all targeting. */
  function Cleared(s: State): (r: State)
    ensures r.player == s.player && |r.humans| == |s.humans| && |r.zombies| == |s.zombies|
    ensures forall i :: 0 <= i < |s.humans| ==> r.humans[i] == s.humans[i].(targetedBy := None)
    ensures forall j :: 0 <= j < |s.zombies| ==>
      r.zombies[j] == s.zombies[j].(target := PlayerTarget, targetDistSq := I32_MAX)
  {
    State(s.player, Map(s.humans, Untargeted), Map(s.zombies, Reset))
  }

  /** One iteration of the targeting loop: zombie `i` picks its target and,
      if that is a human, claims it. */
  function TargetStep(prev: State, i: nat): (t: State)
    requires i < |prev.zombies|
    requires BackRefsInRange(prev)
    ensures t.player == prev.player && |t.humans| == |prev.humans| && |t.zombies| == |prev.zombies|
    ensures BackRefsInRange(t)
  {
    var z := Aimed(prev.zombies[i], prev.player, prev.humans);
    var zs := prev.zombies[i := z];
    match z.target
    case PlayerTarget => prev.(zombies := zs)
    case HumanTarget(h) => prev.(zombies := zs, humans := prev.humans[h := Claim(prev.humans[h], zs, i)])
  }

  /** The state after the first `k` iterations of the targeting loop. */
  function TargetedUpTo(s: State, k: nat): (t: State)
    requires k <= |s.zombies|
    requires BackRefsInRange(s)
    ensures t.player == s.player && |t.humans| == |s.humans| && |t.zombies| == |s.zombies|
    ensures BackRefsInRange(t)
    decreases k
  {
    if k == 0 then s else TargetStep(TargetedUpTo(s, k - 1), k - 1)
  }

  lemma AimedReadsPositions(z: Zombie, player: Player, a: seq<Human>, b: seq<Human>)
    requires |a| == |b|
    requires forall i :: 0 <= i < |a| ==> a[i].pos == b[i].pos
    ensures Aimed(z, player, a) == Aimed(z, player, b)
  {
    ScanReadsPositions(z.nextPos, player.pos, a, b, |a|);
  }

  /** One iteration writes zombie `i` and at most the one human it targets. */
  lemma TargetStepShape(prev: State, i: nat)
    requires i < |prev.zombies|
    requires BackRefsInRange(prev)
    ensures var t := TargetStep(prev, i);
      && t.zombies == prev.zombies[i := Aimed(prev.zombies[i], prev.player, prev.humans)]
      && (forall h :: 0 <= h < |prev.humans| ==>
            t.humans[h] == if t.zombies[i].target == HumanTarget(h) then Claim(prev.humans[h], t.zombies, i) else prev.humans[h])
  {
  }

  /** `t` holds the humans of `s` with the same ids and positions, in order. */
  ghost predicate SameHumans(s: State, t: State) {
    && |t.humans| == |s.humans|
    && forall i :: 0 <= i < |s.humans| ==> t.humans[i].id == s.humans[i].id && t.humans[i].pos == s.humans[i].pos
  }

  /** One iteration of the targeting loop, producing `t`, changes no
      human's id or position. */
  lemma TargetStepKeepsHumans(prev: State, i: nat, t: State)
    requires i < |prev.zombies|
    requires BackRefsInRange(prev)
    requires t == TargetStep(prev, i)
    ensures SameHumans(prev, t)
  {
    TargetStepShape(prev, i);
  }

  /** The targeting loop changes no human's id or position. */
  lemma {:induction false} TargetedUpToKeepsHumans(s: State, k: nat)
    requires k <= |s.zombies|
    requires BackRefsInRange(s)
    ensures SameHumans(s, TargetedUpTo(s, k))
    decreases k
  {
    if k > 0 {
      TargetedUpToKeepsHumans(s, k - 1);
      TargetStepKeepsHumans(TargetedUpTo(s, k - 1), k - 1, TargetedUpTo(s, k));
    } else {
      assert TargetedUpTo(s, k) == s;
    }
  }

  /** The first `k` zombies of `t` are those of `s` aimed from `s`, the others
      are those of `s` untouched. */
  ghost predicate AimedUpTo(s: State, t: State, k: nat) {
    && |t.zombies| == |s.zombies|
    && (forall j :: 0 <= j < k <= |s.zombies| ==> t.zombies[j] == Aimed(s.zombies[j], s.player, s.humans))
    && (forall j :: k <= j < |s.zombies| ==> t.zombies[j] == s.zombies[j])
  }

  /** One iteration of the targeting loop, producing `t`, aims zombie `k`
      and leaves the others as they were. */
  lemma TargetStepAims(s: State, prev: State, k: nat, t: State)
    requires k < |prev.zombies|
    requires BackRefsInRange(prev)
    requires prev.player == s.player && SameHumans(s, prev)
    requires AimedUpTo(s, prev, k)
    requires t == TargetStep(prev, k)
    ensures AimedUpTo(s, t, k + 1)
  {
    TargetStepShape(prev, k);
    AimedReadsPositions(prev.zombies[k], prev.player, prev.humans, s.humans);
  }

  /** After `k` iterations of the targeting loop the first `k` zombies hold
      their chosen target and the others are untouched. */
  lemma {:induction false} TargetedUpToZombies(s: State, k: nat)
    requires k <= |s.zombies|
    requires BackRefsInRange(s)
    ensures AimedUpTo(s, TargetedUpTo(s, k), k)
    decreases k
  {
    if k > 0 {
      TargetedUpToZombies(s, k - 1);
      TargetedUpToKeepsHumans(s, k - 1);
      TargetStepAims(s, TargetedUpTo(s, k - 1), k - 1, TargetedUpTo(s, k));
    } else {
      assert TargetedUpTo(s, k) == s;
    }
  }

  /** Every human's back-reference after `k` iterations: it names one of the
      first `k` zombies and that zombie targets this very human, and it is
      missing exactly when none of the first `k` zombies targets the human. */
  ghost predicate BackRefsAgree(t: State, k: nat)
    requires k <= |t.zombies|
  {
    && (forall i :: 0 <= i < |t.humans| && t.humans[i].targetedBy.Some? ==>
          t.humans[i].targetedBy.value < k && t.zombies[t.humans[i].targetedBy.value].target == HumanTarget(i))
    && (forall i :: 0 <= i < |t.humans| ==>
          (t.humans[i].targetedBy.None? <==> forall j :: 0 <= j < k ==> t.zombies[j].target != HumanTarget(i)))
  }

  /** One iteration of the targeting loop, producing `t`, keeps the
      back-references in agreement with the zombies' targets. */
  lemma BackRefStep(prev: State, k: nat, t: State)
    requires k < |prev.zombies|
    requires BackRefsInRange(prev)
    requires BackRefsAgree(prev, k)
    requires t == TargetStep(prev, k)
    ensures BackRefsAgree(t, k + 1)
  {
    TargetStepShape(prev, k);
    forall i | 0 <= i < |t.humans|
      ensures t.humans[i].targetedBy.Some? ==>
        t.humans[i].targetedBy.value < k + 1 && t.zombies[t.humans[i].targetedBy.value].target == HumanTarget(i)
      ensures t.humans[i].targetedBy.None? <==> forall j :: 0 <= j < k + 1 ==> t.zombies[j].target != HumanTarget(i)
    {
      if t.zombies[k].target != HumanTarget(i) {
        assert t.humans[i] == prev.humans[i];
      } else {
        assert t.humans[i] == Claim(prev.humans[i], t.zombies, k);
      }
    }
  }

  /** Starting with no back-references, after `k` iterations every human's
      back-reference agrees with the first `k` zombies' targets. */
  lemma {:induction false} TargetedUpToBackRefs(s: State, k: nat)
    requires k <= |s.zombies|
    requires forall i :: 0 <= i < |s.humans| ==> s.humans[i].targetedBy.None?
    ensures BackRefsAgree(TargetedUpTo(s, k), k)
    decreases k
  {
    if k > 0 {
      TargetedUpToBackRefs(s, k - 1);
      BackRefStep(TargetedUpTo(s, k - 1), k - 1, TargetedUpTo(s, k));
    } else {
      assert TargetedUpTo(s, k) == s;
    }
  }

  /** Steps 1 and 2: clear targeting, then run the targeting loop. */
  function Resolved(s: State): State
  {
    TargetedUpTo(Cleared(s), |s.zombies|)
  }

  /** Clearing and retargeting keep the player, the number of humans and
      zombies, and every human's id and position, and leave every
      back-reference in range. */
  lemma ResolvedShape(s: State)
    ensures var r := Resolved(s);
      && r.player == s.player && |r.humans| == |s.humans| && |r.zombies| == |s.zombies|
      && BackRefsInRange(r)
      && (forall i :: 0 <= i < |s.humans| ==> r.humans[i].id == s.humans[i].id && r.humans[i].pos == s.humans[i].pos)
  {
    TargetedUpToKeepsHumans(Cleared(s), |s.zombies|);
  }

  /** After clearing and retargeting, every zombie aims at the closest of the
      player and the humans, measured from its committed next position. */
  lemma ResolvedZombies(s: State)
    ensures var r := Resolved(s);
      && |r.zombies| == |s.zombies|
      && forall j :: 0 <= j < |s.zombies| ==> r.zombies[j] == Aimed(s.zombies[j], s.player, s.humans)
  {
    var c := Cleared(s);
    TargetedUpToZombies(c, |s.zombies|);
    forall j | 0 <= j < |s.zombies|
      ensures Aimed(c.zombies[j], c.player, c.humans) == Aimed(s.zombies[j], s.player, s.humans)
    {
      AimedReadsPositions(c.zombies[j], c.player, c.humans, s.humans);
    }
  }

  /** After clearing and retargeting, every back-reference names a zombie
      that targets that very human, and exactly the humans no zombie targets
      have none. */
  lemma ResolvedBackRefs(s: State)
    ensures var r := Resolved(s);
      && |r.zombies| == |s.zombies|
      && (forall i :: 0 <= i < |r.humans| && r.humans[i].targetedBy.Some? ==>
            r.humans[i].targetedBy.value < |r.zombies| && r.zombies[r.humans[i].targetedBy.value].target == HumanTarget(i))
      && (forall i :: 0 <= i < |r.humans| ==>
            (r.humans[i].targetedBy.None? <==> forall j :: 0 <= j < |r.zombies| ==> r.zombies[j].target != HumanTarget(i)))
  {
    TargetedUpToBackRefs(Cleared(s), |s.zombies|);
  }

  /** Steps 3 and 4: ask the strategy, then move the player toward its choice
      by at most PLAYER_STEP and adopt its label. */
  function Steered(s: State, strategy: Strategy, far: Stepper): State
  {
    var goal := strategy(s);
    s.(player := Player(MoveCapped(s.player.pos, goal.pos, PLAYER_STEP, far), goal.msg))
  }

  function Arrive(z: Zombie): Zombie { z.(pos := z.nextPos) }

  /** Step 5: every zombie arrives at its committed position; nothing else moves. */
  function Advanced(s: State): (r: State)
    ensures r.player == s.player && r.humans == s.humans && |r.zombies| == |s.zombies|
    ensures forall j :: 0 <= j < |s.zombies| ==> r.zombies[j] == s.zombies[j].(pos := s.zombies[j].nextPos)
  {
    s.(zombies := Map(s.zombies, Arrive))
  }

  /** Step 6: the zombies left alive, in their order: exactly those whose next
      position lies outside the player's range. */
  function ZombieSurvivors(zombies: seq<Zombie>, player: Player): (r: seq<Zombie>)
    ensures forall z :: z in r <==> z in zombies && DistSq(z.nextPos, player.pos) > PLAYER_RANGE * PLAYER_RANGE
    ensures IsSubseq(r, zombies) && |r| <= |zombies|
  {
    Filter(zombies, z => !WithinPlayer(z, player))
  }

  /** Step 7: the humans left alive, in their order: exactly those on whose
      position no zombie stands. */
  function HumanSurvivors(humans: seq<Human>, zombies: seq<Zombie>): (r: seq<Human>)
    ensures forall h :: h in r <==> h in humans && forall j :: 0 <= j < |zombies| ==> zombies[j].pos != h.pos
    ensures IsSubseq(r, humans) && |r| <= |humans|
  {
    Filter(humans, h => !WithinZombie(h, zombies))
  }

  /** Step 8: every zombie retargets and commits its next move. */
  function Retargeted(s: State, far: Stepper): (r: State)
    ensures r.player == s.player && r.humans == s.humans && |r.zombies| == |s.zombies|
    ensures forall j :: 0 <= j < |s.zombies| ==> r.zombies[j] == NextMoveOf(s.zombies[j], s.player, s.humans, far)
  {
    s.(zombies := Map(s.zombies, z => NextMoveOf(z, s.player, s.humans, far)))
  }

  /** The state after one turn under `strategy`. */
  function Successor(s: State, strategy: Strategy, far: Stepper): State
  {
    var moved := Advanced(Steered(Resolved(s), strategy, far));
    var zs := ZombieSurvivors(moved.zombies, moved.player);
    Retargeted(State(moved.player, HumanSurvivors(moved.humans, zs), zs), far)
  }

  /** The player moves toward the strategy's choice, by at most PLAYER_STEP
      from where it stood, and carries the strategy's label; the strategy sees
      the freshly targeted state. */
  lemma SuccessorPlayer(s: State, strategy: Strategy, far: Stepper)
    ensures var goal := strategy(Resolved(s));
      var n := Successor(s, strategy, far);
      && n.player.msg == goal.msg
      && n.player.pos == MoveCapped(s.player.pos, goal.pos, PLAYER_STEP, far)
  {
    ResolvedShape(s);
  }

  /** A turn only removes entities: the surviving zombies (by id) and humans
      (by id and position) are subsequences of the ones before, so neither
      count grows. */
  lemma SuccessorSubsequences(s: State, strategy: Strategy, far: Stepper)
    ensures var n := Successor(s, strategy, far);
      && IsSubseq(Map(n.zombies, ZombieId), Map(s.zombies, ZombieId))
      && IsSubseq(Map(n.humans, HumanKey), Map(s.humans, HumanKey))
      && |n.zombies| <= |s.zombies| && |n.humans| <= |s.humans|
  {
    ResolvedShape(s);
    ResolvedZombies(s);
    var r := Resolved(s);
    var moved := Advanced(Steered(r, strategy, far));
    var zs := ZombieSurvivors(moved.zombies, moved.player);
    var hs := HumanSurvivors(moved.humans, zs);
    var n := Successor(s, strategy, far);
    assert Map(moved.zombies, ZombieId) == Map(s.zombies, ZombieId);
    assert Map(moved.humans, HumanKey) == Map(s.humans, HumanKey);
    assert Map(n.zombies, ZombieId) == Map(zs, ZombieId);
    assert n.humans == hs;
    MapKeepsSubseq(zs, moved.zombies, ZombieId);
    MapKeepsSubseq(hs, moved.humans, HumanKey);
  }

  /** After a turn no surviving human shares a position with a surviving
      zombie, and every surviving zombie stands outside the player's range. */
  lemma SuccessorSeparates(s: State, strategy: Strategy, far: Stepper)
    ensures var n := Successor(s, strategy, far);
      && (forall i, j :: 0 <= i < |n.humans| && 0 <= j < |n.zombies| ==> n.humans[i].pos != n.zombies[j].pos)
      && (forall j :: 0 <= j < |n.zombies| ==> DistSq(n.zombies[j].pos, n.player.pos) > PLAYER_RANGE * PLAYER_RANGE)
  {
    var moved := Advanced(Steered(Resolved(s), strategy, far));
    var zs := ZombieSurvivors(moved.zombies, moved.player);
    var hs := HumanSurvivors(moved.humans, zs);
    var n := Successor(s, strategy, far);
    assert n.player == moved.player && n.humans == hs && |n.zombies| == |zs|;
    forall j | 0 <= j < |zs|
      ensures zs[j].pos == zs[j].nextPos
      ensures DistSq(zs[j].nextPos, moved.player.pos) > PLAYER_RANGE * PLAYER_RANGE
    {
      assert zs[j] in moved.zombies;
    }
    forall i, j | 0 <= i < |hs| && 0 <= j < |zs|
      ensures hs[i].pos != n.zombies[j].pos
    {
      assert hs[i] in hs;
    }
  }

  /** After a turn every zombie aims at the closest of the player and the
      surviving humans (an index in range) and has committed a capped step
      toward it. */
  lemma SuccessorAims(s: State, strategy: Strategy, far: Stepper)
    ensures var n := Successor(s, strategy, far);
      forall j :: 0 <= j < |n.zombies| ==>
        && n.zombies[j].target == Closest(n.zombies[j].pos, n.player, n.humans).target
        && n.zombies[j].targetDistSq == Closest(n.zombies[j].pos, n.player, n.humans).distSq
        && (n.zombies[j].target.HumanTarget? ==> n.zombies[j].target.idx < |n.humans|)
        && n.zombies[j].nextPos == MoveCapped(n.zombies[j].pos, TargetPos(n.zombies[j], n.player, n.humans), ZOMBIE_STEP, far)
  {
    var moved := Advanced(Steered(Resolved(s), strategy, far));
    var zs := ZombieSurvivors(moved.zombies, moved.player);
    var n := Successor(s, strategy, far);
    assert |n.zombies| == |zs|;
    forall j | 0 <= j < |zs|
      ensures zs[j].pos == zs[j].nextPos
    {
      assert zs[j] in moved.zombies;
    }
  }

  /** Once the game has ended it stays ended: a turn never adds a human or a zombie. */
  lemma SuccessorKeepsEnded(s: State, strategy: Strategy, far: Stepper)
    requires s.Ended()
    ensures Successor(s, strategy, far).Ended()
  {
    SuccessorSubsequences(s, strategy, far);
  }
}
