/** The mutable game state and the replay cursor. `GameState` keeps the
    program's three fields and updates them in place, step by step; each
    method is proved to produce the state value that the corresponding
    function of `Turn` describes. */
module Game {
  import opened Util
  import opened Geometry
  import opened Entities
  import opened Turn

  class GameState {
    var player: Player
    var humans: seq<Human>
    var zombies: seq<Zombie>

    /** The current contents as a state value. */
    function Value(): State
      reads this
    {
      State(player, humans, zombies)
    }

    constructor (player: Player, humans: seq<Human>, zombies: seq<Zombie>)
      ensures Value() == State(player, humans, zombies)
    {
      this.player := player;
      this.humans := humans;
      this.zombies := zombies;
    }

    /** The game is over: no human or no zombie is left. */
    function Ended(): (r: bool)
      reads this
      ensures r <==> Value().Ended()
    {
      |humans| == 0 || |zombies| == 0
    }

    /** Forget all targeting: no human is hunted, every zombie aims at the
        player at the "none yet" distance. */
    method ClearTargets()
      modifies this
      ensures Value() == Cleared(old(Value()))
    {
      var i := 0;
      while i < |humans|
        invariant 0 <= i <= |humans| == |old(humans)|
        invariant player == old(player) && zombies == old(zombies)
        invariant forall j :: 0 <= j < i ==> humans[j] == old(humans)[j].(targetedBy := None)
        invariant forall j :: i <= j < |humans| ==> humans[j] == old(humans)[j]
      {
        humans := humans[i := humans[i].(targetedBy := None)];
        i := i + 1;
      }
      i := 0;
      while i < |zombies|
        invariant 0 <= i <= |zombies| == |old(zombies)|
        invariant player == old(player) && |humans| == |old(humans)|
        invariant forall j :: 0 <= j < |humans| ==> humans[j] == old(humans)[j].(targetedBy := None)
        invariant forall j :: 0 <= j < i ==> zombies[j] == old(zombies)[j].(target := PlayerTarget, targetDistSq := I32_MAX)
        invariant forall j :: i <= j < |zombies| ==> zombies[j] == old(zombies)[j]
      {
        zombies := zombies[i := zombies[i].(target := PlayerTarget, targetDistSq := I32_MAX)];
        i := i + 1;
      }
    }

    /** Every zombie in turn picks its target; a human it picks records the
        claim under the keep-the-closer rule of `Claim`. */
    method ZombiesSetTargets()
      requires BackRefsInRange(Value())
      modifies this
      ensures Value() == TargetedUpTo(old(Value()), |old(zombies)|)
    {
      var i := 0;
      while i < |zombies|
        invariant i <= |zombies| == |old(zombies)|
        invariant Value() == TargetedUpTo(old(Value()), i)
      {
        var z := SetTarget(zombies[i], player, humans);
        zombies := zombies[i := z];
        if z.target.HumanTarget? {
          var h := z.target.idx;
          humans := humans[h := Claim(humans[h], zombies, i)];
        }
        i := i + 1;
      }
    }

    /** Every zombie arrives at its committed next position. */
    method MoveZombies()
      modifies this
      ensures Value() == Advanced(old(Value()))
    {
      var i := 0;
      while i < |zombies|
        invariant 0 <= i <= |zombies| == |old(zombies)|
        invariant player == old(player) && humans == old(humans)
        invariant forall j :: 0 <= j < i ==> zombies[j] == old(zombies)[j].(pos := old(zombies)[j].nextPos)
        invariant forall j :: i <= j < |zombies| ==> zombies[j] == old(zombies)[j]
      {
        zombies := zombies[i := zombies[i].(pos := zombies[i].nextPos)];
        i := i + 1;
      }
    }

    /** Remove the zombies within the player's range, keeping the order. */
    method KillZombies()
      modifies this
      ensures player == old(player) && humans == old(humans)
      ensures zombies == ZombieSurvivors(old(zombies), player)
    {
      zombies := ZombieSurvivors(zombies, player);
    }

    /** Remove the humans a zombie stands on, keeping the order. */
    method KillHumans()
      modifies this
      ensures player == old(player) && zombies == old(zombies)
      ensures humans == HumanSurvivors(old(humans), zombies)
    {
      humans := HumanSurvivors(humans, zombies);
    }

    /** Every zombie retargets and commits a capped step toward its target. */
    method CalcZombiesNextMove(far: Stepper)
      modifies this
      ensures Value() == Retargeted(old(Value()), far)
    {
      var i := 0;
      while i < |zombies|
        invariant 0 <= i <= |zombies| == |old(zombies)|
        invariant player == old(player) && humans == old(humans)
        invariant forall j :: 0 <= j < i ==> zombies[j] == NextMoveOf(old(zombies)[j], player, humans, far)
        invariant forall j :: i <= j < |zombies| ==> zombies[j] == old(zombies)[j]
      {
        var z := SetNextMove(zombies[i], player, humans, far);
        zombies := zombies[i := z];
        i := i + 1;
      }
    }

    /** One turn, played on a copy: this state is left as it was and the
        returned fresh state is the turn's successor. */
    method Simulate(strategy: Strategy, far: Stepper) returns (next: GameState)
      ensures fresh(next)
      ensures unchanged(this)
      ensures next.Value() == Successor(Value(), strategy, far)
    {
      next := new GameState(player, humans, zombies);
      next.ClearTargets();
      next.ZombiesSetTargets();
      var goal := strategy(next.Value());
      next.player := Player(MoveCapped(next.player.pos, goal.pos, PLAYER_STEP, far), goal.msg);
      next.MoveZombies();
      next.KillZombies();
      next.KillHumans();
      next.CalcZombiesNextMove(far);
    }
  }

  /** `b` is what one turn under `strategy` makes of `a`, which has not ended. */
  function Step(strategy: Strategy, far: Stepper): (State, State) -> bool {
    (a: State, b: State) => !a.Ended() && b == Successor(a, strategy, far)
  }

  /** Each state of `flow` but the last has not ended and is followed by its
      successor under `strategy`. */
  ghost predicate IsRun(flow: seq<State>, strategy: Strategy, far: Stepper) {
    Chain(flow, Step(strategy, far))
  }

  /** The states of a game continued from `first` under `strategy`: each
      state is the successor of the one before, and the sequence stops at the
      first ended state or after `fuel` further turns, whichever is first.
      Like the program, every further turn is simulated from the state value
      stored last. */
  method PlayOut(first: State, strategy: Strategy, far: Stepper, fuel: nat) returns (states: seq<State>)
    ensures 1 <= |states| <= fuel + 1 && states[0] == first
    ensures IsRun(states, strategy, far)
    ensures states[|states| - 1].Ended() || |states| == fuel + 1
  {
    states := [first];
    var turns := 0;
    while !states[|states| - 1].Ended() && turns < fuel
      invariant |states| == turns + 1 && turns <= fuel && states[0] == first
      invariant IsRun(states, strategy, far)
    {
      var last := states[|states| - 1];
      var current := new GameState(last.player, last.humans, last.zombies);
      var following := current.Simulate(strategy, far);
      ChainExtends(states, following.Value(), Step(strategy, far));
      states := states + [following.Value()];
      turns := turns + 1;
    }
  }

  /** `flow` is a game played from `start` under `strategy`: its first state
      is the successor of `start`, each state is followed by its successor
      until one has ended, and at most `fuel` turns follow the first. */
  ghost predicate PlayedFrom(flow: seq<State>, start: State, strategy: Strategy, far: Stepper, fuel: nat) {
    && 1 <= |flow| <= fuel + 1
    && flow[0] == Successor(start, strategy, far)
    && IsRun(flow, strategy, far)
    && (flow[|flow| - 1].Ended() || |flow| == fuel + 1)
  }

  /** The states of a game played from `start` under `strategy`: the first
      turn is simulated on a copy of `start`, the rest as in `PlayOut`. */
  method PlayFrom(start: State, strategy: Strategy, far: Stepper, fuel: nat) returns (states: seq<State>)
    ensures PlayedFrom(states, start, strategy, far, fuel)
  {
    var current := new GameState(start.player, start.humans, start.zombies);
    var first := current.Simulate(strategy, far);
    states := PlayOut(first.Value(), strategy, far, fuel);
  }

  /** A precomputed sequence of states and a cursor into it. */
  class Prediction {
    var flow: seq<State>
    var idx: nat

    ghost predicate Valid()
      reads this
    {
      idx <= |flow|
    }

    constructor ()
      ensures Valid() && flow == [] && idx == 0
    {
      flow := [];
      idx := 0;
    }

    /** The states of a game played from `start` under `strategy`; see `PlayFrom`. */
    constructor Make(start: GameState, strategy: Strategy, far: Stepper, fuel: nat)
      ensures Valid() && idx == 0
      ensures PlayedFrom(flow, old(start.Value()), strategy, far, fuel)
    {
      var states := PlayFrom(start.Value(), strategy, far, fuel);
      flow := states;
      idx := 0;
    }

    /** Hand out the next state, if any, and advance the cursor past it. */
    method Next() returns (r: Option<State>)
      modifies this`idx
      ensures flow == old(flow)
      ensures r.None? <==> old(idx) >= |flow|
      ensures r.None? ==> idx == old(idx)
      ensures r.Some? ==> r.value == flow[old(idx)] && idx == old(idx) + 1
      ensures old(Valid()) ==> Valid()
    {
      if idx >= |flow| {
        r := None;
      } else {
        idx := idx + 1;
        r := Some(flow[idx - 1]);
      }
    }
  }
}
