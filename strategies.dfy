/** The player's strategies: stand still, or run toward the human in most
    urgent need of help. */
module Strategies {
  import opened Util
  import opened Geometry
  import opened Entities
  import opened Turn

  /** Stay where the player stands. */
  function StayStill(s: State): Player
  {
    Player(s.player.pos, "Zzz...")
  }

  /** Under `StayStill` the player never moves and always says "Zzz...". */
  lemma SuccessorStayStill(s: State, far: Stepper)
    ensures Successor(s, StayStill, far).player == Player(s.player.pos, "Zzz...")
  {
    SuccessorPlayer(s, StayStill, far);
    ResolvedShape(s);
    MoveCappedArrived(s.player.pos, PLAYER_STEP, far);
  }

  /** Index of the first smallest key: every key is at least as large, and
      every key before it is strictly larger. */
  function ArgMinFirst(keys: seq<int>): (i: nat)
    requires |keys| > 0
    ensures i < |keys|
    ensures forall j :: 0 <= j < |keys| ==> keys[i] <= keys[j]
    ensures forall j :: 0 <= j < i ==> keys[i] < keys[j]
    decreases |keys|
  {
    if |keys| == 1 then 0
    else
      var j := ArgMinFirst(keys[1..]) + 1;
      if keys[j] < keys[0] then j else 0
  }

  /** The floating-point geometry of `Human::savable`: given the human's, the
      player's and the hunting zombie's positions, can the player reach the
      human before the zombie does. It is not modelled; callers pass it in. */
  type SavabilityTest = (Vec2, Vec2, Vec2) -> bool

  /** A human nobody hunts is never counted as savable; a hunted one is
      savable when the race test says the player arrives first. */
  predicate Savable(h: Human, player: Player, zombies: seq<Zombie>, race: SavabilityTest) {
    match h.targetedBy
    case None => false
    case Some(z) => z < |zombies| && race(h.pos, player.pos, zombies[z].pos)
  }

  /** How urgent a human is: the squared distance between the human and the
      zombie hunting it, or, when nobody hunts it, its squared distance to
      the player. */
  function DangerKey(h: Human, s: State): int
  {
    match h.targetedBy
    case Some(z) => if z < |s.zombies| then s.zombies[z].targetDistSq else DistSq(h.pos, s.player.pos)
    case None => DistSq(h.pos, s.player.pos)
  }

  predicate AnySavable(s: State, race: SavabilityTest) {
    exists i :: 0 <= i < |s.humans| && Savable(s.humans[i], s.player, s.zombies, race)
  }

  predicate AnyUntargeted(s: State) {
    exists i :: 0 <= i < |s.humans| && s.humans[i].targetedBy.None?
  }

  /** The humans the strategy chooses among: the savable ones if there are
      any, else the untargeted ones if there are any, else all of them. */
  predicate InTier(h: Human, s: State, race: SavabilityTest) {
    if AnySavable(s, race) then Savable(h, s.player, s.zombies, race)
    else if AnyUntargeted(s) then h.targetedBy.None?
    else true
  }

  /** The tests and the key the strategy passes to the filters and to the
      minimum search. */
  function SavableIn(s: State, race: SavabilityTest): Human -> bool {
    h => Savable(h, s.player, s.zombies, race)
  }

  predicate IsUntargeted(h: Human) {
    h.targetedBy.None?
  }

  predicate Anyone(h: Human) {
    true
  }

  function DangerIn(s: State): Human -> int {
    h => DangerKey(h, s)
  }

  /** Go to the most urgent human of the first non-empty tier (savable,
      untargeted, everyone); with no human left, stay still. */
  function ClosestSavableHuman(s: State, race: SavabilityTest): Player
  {
    if |s.humans| == 0 then StayStill(s)
    else
      var savable := Filter(s.humans, SavableIn(s, race));
      var untargeted := Filter(s.humans, IsUntargeted);
      var pool := if |savable| > 0 then savable else if |untargeted| > 0 then untargeted else s.humans;
      var msg := if |savable| > 0 || |untargeted| > 0 then "Save human" else "Fuuuck!";
      Player(pool[ArgMinFirst(Map(pool, DangerIn(s)))].pos, msg)
  }

  /** Picking the first minimum by `key` among the `keep` elements of `s`
      picks the element of `s` at an index `k` that keeps, whose key is no
      larger than that of any kept element, and strictly smaller than that of
      every kept element before it. */
  lemma FilteredArgMin<T(!new)>(s: seq<T>, keep: T -> bool, key: T -> int) returns (k: nat)
    requires |Filter(s, keep)| > 0
    ensures k < |s| && keep(s[k])
    ensures var pool := Filter(s, keep); s[k] == pool[ArgMinFirst(Map(pool, key))]
    ensures forall j :: 0 <= j < |s| && keep(s[j]) ==> key(s[k]) <= key(s[j])
    ensures forall j :: 0 <= j < k && keep(s[j]) ==> key(s[k]) < key(s[j])
  {
    var pool := Filter(s, keep);
    var idx := FilterIndices(s, keep);
    k := IndexedArgMin(s, keep, key, pool, idx);
    assert pool[ArgMinFirst(Map(pool, key))] in pool;
  }

  /** The first minimum of the keys of `pool`, located in `s` through `idx`. */
  lemma IndexedArgMin<T>(s: seq<T>, keep: T -> bool, key: T -> int, pool: seq<T>, idx: seq<nat>) returns (k: nat)
    requires |pool| > 0 && IndexMap(s, keep, pool, idx)
    ensures k < |s| && s[k] == pool[ArgMinFirst(Map(pool, key))]
    ensures forall j :: 0 <= j < |s| && keep(s[j]) ==> key(s[k]) <= key(s[j])
    ensures forall j :: 0 <= j < k && keep(s[j]) ==> key(s[k]) < key(s[j])
  {
    var keys := Map(pool, key);
    var i := ArgMinFirst(keys);
    k := idx[i];
    forall j | 0 <= j < |s| && keep(s[j])
      ensures key(s[k]) <= key(s[j])
      ensures j < k ==> key(s[k]) < key(s[j])
    {
      var m :| 0 <= m < |idx| && idx[m] == j;
      assert keys[m] == key(s[j]) && keys[i] == key(s[k]);
      if j < k {
        assert m < i;
      }
    }
  }

  /** The tier chosen through `keep`: the first most urgent human of that tier. */
  lemma PickInTier(s: State, race: SavabilityTest, keep: Human -> bool) returns (k: nat)
    requires |Filter(s.humans, keep)| > 0
    requires forall j :: 0 <= j < |s.humans| ==> (keep(s.humans[j]) <==> InTier(s.humans[j], s, race))
    ensures k < |s.humans| && InTier(s.humans[k], s, race)
    ensures var pool := Filter(s.humans, keep); s.humans[k] == pool[ArgMinFirst(Map(pool, DangerIn(s)))]
    ensures forall j :: 0 <= j < |s.humans| && InTier(s.humans[j], s, race) ==>
      DangerKey(s.humans[k], s) <= DangerKey(s.humans[j], s)
    ensures forall j :: 0 <= j < k && InTier(s.humans[j], s, race) ==>
      DangerKey(s.humans[k], s) < DangerKey(s.humans[j], s)
  {
    k := FilteredArgMin(s.humans, keep, DangerIn(s));
  }

  /** With no human left the strategy stays still. With humans present it
      says "Fuuuck!" exactly when no human is savable and every human is
      hunted, and "Save human" otherwise. */
  lemma ClosestSavableHumanMessage(s: State, race: SavabilityTest)
    ensures var p := ClosestSavableHuman(s, race);
      && (|s.humans| == 0 ==> p == Player(s.player.pos, "Zzz..."))
      && (|s.humans| > 0 ==> (p.msg == "Fuuuck!" <==> !AnySavable(s, race) && !AnyUntargeted(s)))
      && (|s.humans| > 0 ==> p.msg == "Fuuuck!" || p.msg == "Save human")
  {
    FilterNonEmpty(s.humans, SavableIn(s, race));
    FilterNonEmpty(s.humans, IsUntargeted);
  }

  /** With humans present the strategy runs to the position of a human of the
      chosen tier whose danger key is smallest in that tier, the first such in
      list order. */
  lemma ClosestSavableHumanTarget(s: State, race: SavabilityTest)
    requires |s.humans| > 0
    ensures var p := ClosestSavableHuman(s, race);
      exists k :: 0 <= k < |s.humans| && InTier(s.humans[k], s, race) && p.pos == s.humans[k].pos
        && (forall j :: 0 <= j < |s.humans| && InTier(s.humans[j], s, race) ==>
              DangerKey(s.humans[k], s) <= DangerKey(s.humans[j], s))
        && (forall j :: 0 <= j < k && InTier(s.humans[j], s, race) ==>
              DangerKey(s.humans[k], s) < DangerKey(s.humans[j], s))
  {
    var k := ChosenIndex(s, race);
  }

  /** The index in the human list of the human the strategy runs to. */
  lemma ChosenIndex(s: State, race: SavabilityTest) returns (k: nat)
    requires |s.humans| > 0
    ensures k < |s.humans| && InTier(s.humans[k], s, race)
    ensures ClosestSavableHuman(s, race).pos == s.humans[k].pos
    ensures forall j :: 0 <= j < |s.humans| && InTier(s.humans[j], s, race) ==>
      DangerKey(s.humans[k], s) <= DangerKey(s.humans[j], s)
    ensures forall j :: 0 <= j < k && InTier(s.humans[j], s, race) ==>
      DangerKey(s.humans[k], s) < DangerKey(s.humans[j], s)
  {
    var savable := Filter(s.humans, SavableIn(s, race));
    var untargeted := Filter(s.humans, IsUntargeted);
    FilterNonEmpty(s.humans, SavableIn(s, race));
    FilterNonEmpty(s.humans, IsUntargeted);
    if |savable| > 0 {
      k := PickInTier(s, race, SavableIn(s, race));
    } else if |untargeted| > 0 {
      k := PickInTier(s, race, IsUntargeted);
    } else {
      FilterAll(s.humans, Anyone);
      k := PickInTier(s, race, Anyone);
    }
  }

  /** In the state the strategy is shown, the danger key of a hunted human is
      the squared distance from its hunter's committed next position to it,
      and that of an unhunted human its squared distance to the player: the
      fallback for a stale back-reference is never taken there. */
  lemma DangerKeyResolved(s: State, i: nat)
    requires i < |s.humans|
    ensures var r := Resolved(s);
      && (r.humans[i].targetedBy.Some? ==>
            && r.humans[i].targetedBy.value < |r.zombies|
            && DangerKey(r.humans[i], r) == DistSq(r.zombies[r.humans[i].targetedBy.value].nextPos, r.humans[i].pos))
      && (r.humans[i].targetedBy.None? ==> DangerKey(r.humans[i], r) == DistSq(r.humans[i].pos, r.player.pos))
  {
    ResolvedShape(s);
    ResolvedZombies(s);
    ResolvedBackRefs(s);
    var r := Resolved(s);
    if r.humans[i].targetedBy.Some? {
      var z := r.humans[i].targetedBy.value;
      var zs := s.zombies[z];
      assert r.zombies[z] == Aimed(zs, s.player, s.humans);
      ScanFindsClosest(zs.nextPos, s.player.pos, s.humans, |s.humans|);
      assert r.zombies[z].targetDistSq == DistSq(zs.nextPos, s.humans[i].pos);
    }
  }
}
