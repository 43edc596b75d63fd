/** Concrete situations that pin down the less obvious behaviour of a turn. */
module Scenarios {
  import opened Util
  import opened Geometry
  import opened Entities
  import opened Turn
  import opened Strategies

  /** A human already claimed by zombie 0 is taken over by zombie 1 although
      zombie 1's committed next position is farther from the human: the claim
      compares the newcomer's current position with the incumbent's distance
      measured from its next position. */
  lemma ClaimComparesMixedDistances()
    ensures var h := Human(0, Vec2(0, 0), Some(0));
      var zombies := [Zombie(0, Vec2(0, 600), Vec2(0, 200), HumanTarget(0), 40000),
                      Zombie(1, Vec2(0, 100), Vec2(0, 300), HumanTarget(0), 90000)];
      && DistSq(h.pos, zombies[1].nextPos) > DistSq(h.pos, zombies[0].nextPos)
      && Claim(h, zombies, 1).targetedBy == Some(1)
  {
    var h := Human(0, Vec2(0, 0), Some(0));
    var zombies := [Zombie(0, Vec2(0, 600), Vec2(0, 200), HumanTarget(0), 40000),
                    Zombie(1, Vec2(0, 100), Vec2(0, 300), HumanTarget(0), 90000)];
    assert DistSq(h.pos, zombies[1].pos) == 10000;
  }

  /** Player at the origin, one human far to the right, one zombie inside the
      player's range and one beyond the human. */
  function StaleStart(): State {
    State(Player(Vec2(0, 0), ""),
          [Human(0, Vec2(10000, 0), None)],
          [Zombie(0, Vec2(1000, 0), Vec2(1000, 0), PlayerTarget, I32_MAX),
           Zombie(1, Vec2(12000, 0), Vec2(12000, 0), PlayerTarget, I32_MAX)])
  }

  /** The same state once zombie 0 has aimed at the player, and once zombie
      1 has then claimed the human. */
  function StaleHalfway(): State {
    State(Player(Vec2(0, 0), ""),
          [Human(0, Vec2(10000, 0), None)],
          [Zombie(0, Vec2(1000, 0), Vec2(1000, 0), PlayerTarget, 1000000),
           Zombie(1, Vec2(12000, 0), Vec2(12000, 0), PlayerTarget, I32_MAX)])
  }

  function StaleTargeted(): State {
    State(Player(Vec2(0, 0), ""),
          [Human(0, Vec2(10000, 0), Some(1))],
          [Zombie(0, Vec2(1000, 0), Vec2(1000, 0), PlayerTarget, 1000000),
           Zombie(1, Vec2(12000, 0), Vec2(12000, 0), HumanTarget(0), 4000000)])
  }

  /** The scan over a single human, unfolded. */
  lemma ScanOne(from: Vec2, playerPos: Vec2, humans: seq<Human>)
    requires |humans| == 1
    ensures Scan(from, playerPos, humans, 1) ==
      if DistSq(from, humans[0].pos) < DistSq(from, playerPos) then Aim(HumanTarget(0), DistSq(from, humans[0].pos))
      else Aim(PlayerTarget, DistSq(from, playerPos))
  {
  }

  /** Zombie 0 is closer to the player than to the human. */
  lemma StaleClosestToFirst()
    ensures Closest(Vec2(1000, 0), StaleStart().player, StaleStart().humans) == Aim(PlayerTarget, 1000000)
  {
    var s := StaleStart();
    assert DistSq(Vec2(1000, 0), Vec2(10000, 0)) == 81000000;
    assert DistSq(Vec2(1000, 0), Vec2(0, 0)) == 1000000;
    ScanOne(Vec2(1000, 0), Vec2(0, 0), s.humans);
  }

  /** Zombie 1 is closer to the human than to the player. */
  lemma StaleClosestToSecond()
    ensures Closest(Vec2(12000, 0), StaleStart().player, StaleStart().humans) == Aim(HumanTarget(0), 4000000)
  {
    var s := StaleStart();
    assert DistSq(Vec2(12000, 0), Vec2(10000, 0)) == 4000000;
    assert DistSq(Vec2(12000, 0), Vec2(0, 0)) == 144000000;
    ScanOne(Vec2(12000, 0), Vec2(0, 0), s.humans);
  }

  lemma StaleFirstStep()
    ensures BackRefsInRange(StaleStart()) && TargetStep(StaleStart(), 0) == StaleHalfway()
  {
    var s := StaleStart();
    StaleClosestToFirst();
    assert Aimed(s.zombies[0], s.player, s.humans) == StaleHalfway().zombies[0];
    TargetStepShape(s, 0);
    var t := TargetStep(s, 0);
    assert t.zombies == StaleHalfway().zombies;
    assert t.humans == StaleHalfway().humans;
  }

  lemma StaleSecondStep()
    ensures BackRefsInRange(StaleHalfway()) && TargetStep(StaleHalfway(), 1) == StaleTargeted()
  {
    var s := StaleHalfway();
    var goal := StaleTargeted();
    StaleClosestToSecond();
    assert s.player == StaleStart().player && s.humans == StaleStart().humans;
    assert Aimed(s.zombies[1], s.player, s.humans) == goal.zombies[1];
    TargetStepShape(s, 1);
    var t := TargetStep(s, 1);
    assert t.zombies == goal.zombies;
    assert Claim(s.humans[0], goal.zombies, 1) == goal.humans[0];
    assert t.humans[0] == goal.humans[0];
    assert t.humans == goal.humans;
  }

  /** At the start of the turn zombie 0 aims at the player (it is closer to
      it than to the human) and zombie 1 claims the human. */
  lemma StaleStartResolved()
    ensures Resolved(StaleStart()) == StaleTargeted()
  {
    var s := StaleStart();
    assert Cleared(s) == s;
    StaleFirstStep();
    StaleSecondStep();
    assert TargetedUpTo(s, 1) == StaleHalfway();
    assert TargetedUpTo(s, 2) == StaleTargeted();
  }

  /** Standing still, the player keeps its place and only relabels itself. */
  lemma SteeredStayStill(s: State, far: Stepper)
    ensures Steered(s, StayStill, far) == s.(player := Player(s.player.pos, "Zzz..."))
  {
    MoveCappedArrived(s.player.pos, PLAYER_STEP, far);
  }

  /** Zombies already standing where they committed to be do not move. */
  lemma AdvancedSettled(s: State)
    requires forall j :: 0 <= j < |s.zombies| ==> s.zombies[j].pos == s.zombies[j].nextPos
    ensures Advanced(s) == s
  {
    assert Advanced(s).zombies == s.zombies;
  }

  /** In the targeted state both zombies already stand where they committed to be. */
  lemma StaleSettled()
    ensures var still := StaleTargeted().(player := Player(Vec2(0, 0), "Zzz..."));
      Advanced(still) == still
  {
    var still := StaleTargeted().(player := Player(Vec2(0, 0), "Zzz..."));
    AdvancedSettled(still);
  }

  /** Standing still in the targeted state moves nobody. */
  lemma StaleMoved(far: Stepper)
    ensures Advanced(Steered(StaleTargeted(), StayStill, far)) == StaleTargeted().(player := Player(Vec2(0, 0), "Zzz..."))
  {
    SteeredStayStill(StaleTargeted(), far);
    StaleSettled();
  }

  /** Zombie 0 stands within the player's range and dies; zombie 1 does not. */
  lemma StaleSurvivors()
    ensures ZombieSurvivors(StaleTargeted().zombies, Player(Vec2(0, 0), "Zzz...")) == [StaleTargeted().zombies[1]]
  {
    var zombies := StaleTargeted().zombies;
    var player := Player(Vec2(0, 0), "Zzz...");
    assert DistSq(Vec2(1000, 0), Vec2(0, 0)) == 1000000;
    assert DistSq(Vec2(12000, 0), Vec2(0, 0)) == 144000000;
    assert WithinPlayer(zombies[0], player) && !WithinPlayer(zombies[1], player);
    assert zombies[1..] == [zombies[1]] && zombies[1..][1..] == [];
  }

  /** The human stands apart from the surviving zombie and survives. */
  lemma StaleHumanSurvives()
    ensures var r := StaleTargeted(); HumanSurvivors(r.humans, [r.zombies[1]]) == r.humans
  {
    var r := StaleTargeted();
    var zs := [r.zombies[1]];
    assert zs[0].pos != r.humans[0].pos;
    assert HumanSurvivors(r.humans, zs) == r.humans;
  }

  /** The whole turn from `StaleStart` under `StayStill`: zombie 0 is killed,
      the human survives, and zombie 1 retargets over the unchanged human. */
  lemma StaleTurn(far: Stepper)
    ensures Successor(StaleStart(), StayStill, far) ==
      Retargeted(State(Player(Vec2(0, 0), "Zzz..."), StaleTargeted().humans, [StaleTargeted().zombies[1]]), far)
  {
    StaleStartResolved();
    StaleMoved(far);
    StaleSurvivors();
    StaleHumanSurvives();
  }

  /** After a turn, a surviving human can still name, as its hunter, an index
      past the end of the shortened zombie list: back-references are only
      rebuilt at the start of the next turn. Zombie 1 claims the human, zombie
      0 is killed, and the human keeps pointing at index 1 of a one-zombie
      list. */
  lemma SuccessorLeavesStaleBackRef(far: Stepper)
    ensures var n := Successor(StaleStart(), StayStill, far);
      && |n.zombies| == 1 && |n.humans| == 1
      && n.humans[0].targetedBy == Some(1)
      && !BackRefsInRange(n)
  {
    StaleTurn(far);
    StaleRetargeted(far);
  }

  /** Retargeting after the kills keeps the human, with its back-reference
      to index 1, and the one surviving zombie. */
  lemma StaleRetargeted(far: Stepper)
    ensures var r := StaleTargeted();
      var n := Retargeted(State(Player(Vec2(0, 0), "Zzz..."), r.humans, [r.zombies[1]]), far);
      && |n.zombies| == 1 && |n.humans| == 1
      && n.humans[0].targetedBy == Some(1)
      && !BackRefsInRange(n)
  {
    var r := StaleTargeted();
    var n := Retargeted(State(Player(Vec2(0, 0), "Zzz..."), r.humans, [r.zombies[1]]), far);
    assert n.humans == [Human(0, Vec2(10000, 0), Some(1))];
    assert !RefInRange(n.humans[0], |n.zombies|);
  }

  /** A lone untargeted human: the strategy heads for it with "Save human",
      and the player covers one capped step of the way. */
  lemma LoneHumanIsApproached(far: Stepper, race: SavabilityTest)
    ensures var s := State(Player(Vec2(0, 0), ""), [Human(7, Vec2(5000, 0), None)], []);
      var n := Successor(s, r => ClosestSavableHuman(r, race), far);
      && ClosestSavableHuman(Resolved(s), race) == Player(Vec2(5000, 0), "Save human")
      && n.player == Player(far(Vec2(0, 0), Vec2(5000, 0), PLAYER_STEP), "Save human")
  {
    var s := State(Player(Vec2(0, 0), ""), [Human(7, Vec2(5000, 0), None)], []);
    var r := Resolved(s);
    ResolvedShape(s);
    ResolvedBackRefs(s);
    assert r.humans == [Human(7, Vec2(5000, 0), None)];
    ClosestSavableHumanMessage(r, race);
    var k := ChosenIndex(r, race);
    assert AnyUntargeted(r);
    SuccessorPlayer(s, r => ClosestSavableHuman(r, race), far);
  }

  /** A human hunted by a zombie it cannot outrun, and nobody else: the
      strategy gives up on saving anyone ("Fuuuck!") but still heads for the
      hunted human. */
  lemma HopelessHumanIsStillApproached()
    ensures var s := State(Player(Vec2(0, 0), ""), [Human(3, Vec2(8000, 0), None)],
                           [Zombie(4, Vec2(9000, 0), Vec2(8600, 0), PlayerTarget, I32_MAX)]);
      var race: SavabilityTest := (h, p, z) => false;
      ClosestSavableHuman(Resolved(s), race) == Player(Vec2(8000, 0), "Fuuuck!")
  {
    var s := State(Player(Vec2(0, 0), ""), [Human(3, Vec2(8000, 0), None)],
                   [Zombie(4, Vec2(9000, 0), Vec2(8600, 0), PlayerTarget, I32_MAX)]);
    var race: SavabilityTest := (h, p, z) => false;
    var r := Resolved(s);
    ResolvedShape(s);
    ResolvedZombies(s);
    ResolvedBackRefs(s);
    ScanFindsClosest(Vec2(8600, 0), Vec2(0, 0), s.humans, 1);
    assert r.zombies[0].target == HumanTarget(0);
    assert r.humans[0].targetedBy == Some(0);
    ClosestSavableHumanMessage(r, race);
    var k := ChosenIndex(r, race);
    assert !AnySavable(r, race) && !AnyUntargeted(r);
  }
}
