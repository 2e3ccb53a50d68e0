/** Cycling a spectator's camera through the living players. */
module Spectator {
  import opened Sequences

  datatype Player = Player(alive: bool, playerId: nat, entityId: nat, pieceIndex: nat)

  /** A player and an entity nobody may watch; 0 excludes no player. */
  datatype Exclusion = Exclusion(playerId: nat, entityId: nat)

  predicate IsEligible(p: Player, excludedPlayer: nat) {
    && p.alive && p.playerId != 0 && p.entityId != 0 && p.pieceIndex == 0
    && (excludedPlayer == 0 || p.playerId != excludedPlayer)
  }

  predicate IsTarget(p: Player, ex: Exclusion) {
    p.entityId != ex.entityId && IsEligible(p, ex.playerId)
  }

  /** The place a number of steps away, going round. */
  function Place(start: nat, offset: nat, direction: int, count: nat): (place: nat)
    requires start < count && offset <= count
    ensures place < count
    ensures place == if direction < 0
                     then (if offset <= start then start - offset else start + count - offset)
                     else (if start + offset < count then start + offset else start + offset - count)
  {
    Wrapped(start + count - offset, count);
    Wrapped(start + offset, count);
    if direction < 0 then (start + count - offset) % count else (start + offset) % count
  }

  lemma Wrapped(x: nat, n: nat)
    requires 0 < n && x < 2 * n
    ensures x % n == if x < n then x else x - n
  {
    if x < n {
      SmallRemainder(x, n);
    } else {
      SmallRemainder(x - n, n);
      assert x == (x - n) + n;
      assert x % n == (x - n) % n;
    }
  }

  lemma SmallRemainder(x: nat, n: nat)
    requires x < n
    ensures x % n == x
  {
  }

  /** The number of steps to a place, a whole round to the place itself. */
  function StepsTo(start: nat, place: nat, direction: int, count: nat): (steps: nat)
    requires start < count && place < count
    ensures 1 <= steps <= count && Place(start, steps, direction, count) == place
  {
    if direction < 0 then (if place < start then start - place else start - place + count)
    else if place > start then place - start else place - start + count
  }

  /** Where the search starts: at the player being watched, or so that the first step lands on the
      first place, or on the last one going backwards. */
  ghost predicate IsStart(players: seq<Player>, current: nat, direction: int, start: nat) {
    && start < |players|
    && if exists i :: 0 <= i < |players| && players[i].entityId == current then
         && players[start].entityId == current
         && forall i :: 0 <= i < start ==> players[i].entityId != current
       else
         start == if direction < 0 then 0 else |players| - 1
  }

  /** The entity is that of the first target met from the start. */
  ghost predicate Settles(players: seq<Player>, current: nat, ex: Exclusion, direction: int,
                          entity: nat)
  {
    exists start, offset ::
      && 1 <= offset <= |players|
      && IsStart(players, current, direction, start)
      && IsFirstTarget(players, ex, direction, start, offset)
      && players[Place(start, offset, direction, |players|)].entityId == entity
  }

  ghost predicate IsFirstTarget(players: seq<Player>, ex: Exclusion, direction: int, start: nat,
                                offset: nat)
    requires start < |players| && 1 <= offset <= |players|
  {
    && IsTarget(players[Place(start, offset, direction, |players|)], ex)
    && forall o :: 1 <= o < offset ==>
         !IsTarget(players[Place(start, o, direction, |players|)], ex)
  }

  /** The next target in the direction, or 0 when there is no target at all. */
  method SelectNextTarget(players: seq<Player>, current: nat, ex: Exclusion, direction: int)
    returns (entity: nat)
    ensures entity == 0 <==> forall i :: 0 <= i < |players| ==> !IsTarget(players[i], ex)
    ensures entity != 0 ==> Settles(players, current, ex, direction, entity)
  {
    var count := |players|;
    if count == 0 {
      return 0;
    }
    var currentIndex := FindEntity(players, current);
    var from := if currentIndex < count then currentIndex
                else if direction < 0 then 0 else count - 1;
    var step := 1;
    while step <= count
      invariant 1 <= step <= count + 1
      invariant forall o :: 1 <= o < step ==>
                  !IsTarget(players[Place(from, o, direction, count)], ex)
    {
      var index := Place(from, step, direction, count);
      if players[index].entityId != ex.entityId && IsEligible(players[index], ex.playerId) {
        assert IsStart(players, current, direction, from);
        assert IsFirstTarget(players, ex, direction, from, step);
        return players[index].entityId;
      }
      step := step + 1;
    }
    forall i | 0 <= i < count
      ensures !IsTarget(players[i], ex)
    {
      assert Place(from, StepsTo(from, i, direction, count), direction, count) == i;
    }
    return 0;
  }

  method FindEntity(players: seq<Player>, entity: nat) returns (index: nat)
    ensures index <= |players|
    ensures index < |players| ==> players[index].entityId == entity
    ensures forall i :: 0 <= i < index ==> players[i].entityId != entity
  {
    for k := 0 to |players|
      invariant forall i :: 0 <= i < k ==> players[i].entityId != entity
    {
      if players[k].entityId == entity {
        return k;
      }
    }
    return |players|;
  }

  // ----- the ring of targets -----

  /** The places of the targets, in order. */
  function Targets(players: seq<Player>, ex: Exclusion): (places: seq<nat>)
    ensures forall i :: i in places <==> 0 <= i < |players| && IsTarget(players[i], ex)
    ensures forall r, s :: 0 <= r < s < |places| ==> places[r] < places[s]
  {
    if players == [] then []
    else
      var n := |players| - 1;
      var front := Targets(players[..n], ex);
      assert forall k :: 0 <= k < |front| ==> front[k] in front;
      front + (if IsTarget(players[n], ex) then [n] else [])
  }

  /** Nobody before a target carries its entity id; distinct ids are enough for that. */
  ghost predicate AreIdentified(players: seq<Player>, ex: Exclusion) {
    forall i, j :: 0 <= i < j < |players| && IsTarget(players[j], ex) ==>
      players[i].entityId != players[j].entityId
  }

  function Turn(r: nat, direction: int, count: nat): (next: nat)
    requires r < count
    ensures next < count
  {
    if direction < 0 then (if r == 0 then count - 1 else r - 1)
    else if r + 1 == count then 0 else r + 1
  }

  /** The places stepped over on the way to the neighbour are on no target. */
  lemma NothingInBetween(places: seq<nat>, r: nat, direction: int, count: nat, s: nat, steps: nat)
    requires r < |places| && s < |places|
    requires forall i :: 0 <= i < |places| ==> places[i] < count
    requires forall i, j :: 0 <= i < j < |places| ==> places[i] < places[j]
    requires 1 <= steps < StepsTo(places[r], places[Turn(r, direction, |places|)], direction, count)
    ensures Place(places[r], steps, direction, count) != places[s]
  {
    hide Place;
  }

  lemma NeighbourIsFirst(players: seq<Player>, ex: Exclusion, r: nat, direction: int)
    requires r < |Targets(players, ex)|
    requires forall i :: 0 <= i < |Targets(players, ex)| ==> Targets(players, ex)[i] < |players|
    ensures var places := Targets(players, ex);
            IsFirstTarget(players, ex, direction, places[r],
                          StepsTo(places[r], places[Turn(r, direction, |places|)], direction,
                                  |players|))
  {
    hide IsTarget, Place, StepsTo, Turn, Targets;
    var places := Targets(players, ex);
    var next := places[Turn(r, direction, |places|)];
    assert next in places;
    forall o | 1 <= o < StepsTo(places[r], next, direction, |players|)
      ensures !IsTarget(players[Place(places[r], o, direction, |players|)], ex)
    {
      var place := Place(places[r], o, direction, |players|);
      if place in places {
        var s :| 0 <= s < |places| && places[s] == place;
        NothingInBetween(places, r, direction, |players|, s, o);
      }
    }
  }

  lemma TargetsAreInRange(players: seq<Player>, ex: Exclusion)
    ensures forall i :: 0 <= i < |Targets(players, ex)| ==>
              Targets(players, ex)[i] < |players| && IsTarget(players[Targets(players, ex)[i]], ex)
  {
    hide IsTarget, Targets;
    var places := Targets(players, ex);
    forall i | 0 <= i < |places|
      ensures places[i] < |players| && IsTarget(players[places[i]], ex)
    {
      assert places[i] in places;
    }
  }

  lemma FirstTargetIsUnique(players: seq<Player>, ex: Exclusion, direction: int, start: nat,
                            a: nat, b: nat)
    requires start < |players| && 1 <= a <= |players| && 1 <= b <= |players|
    requires IsFirstTarget(players, ex, direction, start, a)
    requires IsFirstTarget(players, ex, direction, start, b)
    ensures a == b
  {
    hide IsTarget;
  }

  /** From the entity of one target the camera goes to the next target on the ring, or to the
      previous one backwards. */
  lemma CameraFollowsTheRing(players: seq<Player>, ex: Exclusion, r: nat, direction: int,
                             entity: nat)
    requires AreIdentified(players, ex) && r < |Targets(players, ex)|
    requires var places := Targets(players, ex);
             places[r] < |players|
             && Settles(players, players[places[r]].entityId, ex, direction, entity)
    ensures var places := Targets(players, ex);
            var next := places[Turn(r, direction, |places|)];
            next < |players| && entity == players[next].entityId
  {
    hide IsTarget, IsFirstTarget, Targets;
    var places := Targets(players, ex);
    var current := players[places[r]].entityId;
    TargetsAreInRange(players, ex);
    var start, offset :|
      && 1 <= offset <= |players|
      && IsStart(players, current, direction, start)
      && IsFirstTarget(players, ex, direction, start, offset)
      && players[Place(start, offset, direction, |players|)].entityId == entity;
    assert IsTarget(players[places[r]], ex);
    assert start == places[r];
    NeighbourIsFirst(players, ex, r, direction);
    FirstTargetIsUnique(players, ex, direction, start, offset,
                        StepsTo(start, places[Turn(r, direction, |places|)], direction, |players|));
  }

  /** The entities watched by pressing the key again and again. */
  ghost predicate IsTour(players: seq<Player>, ex: Exclusion, direction: int, tour: seq<nat>) {
    forall k :: 0 <= k < |tour| - 1 ==> Settles(players, tour[k], ex, direction, tour[k + 1])
  }

  function TurnBy(r: nat, k: nat, direction: int, count: nat): (next: nat)
    requires r < count && k <= count
    ensures next < count && (k == count ==> next == r)
  {
    if direction < 0 then (if k <= r then r - k else r + count - k)
    else if r + k < count then r + k else r + k - count
  }

  lemma {:induction false} TourFollowsTheRing(players: seq<Player>, ex: Exclusion, direction: int,
                                              tour: seq<nat>, r: nat, k: nat)
    requires AreIdentified(players, ex) && IsTour(players, ex, direction, tour)
    requires r < |Targets(players, ex)| && k <= |Targets(players, ex)| && k < |tour|
    requires Targets(players, ex)[r] < |players|
    requires tour[0] == players[Targets(players, ex)[r]].entityId
    ensures var places := Targets(players, ex);
            var place := places[TurnBy(r, k, direction, |places|)];
            place < |players| && tour[k] == players[place].entityId
  {
    hide Settles, AreIdentified, Targets;
    var places := Targets(players, ex);
    TargetsAreInRange(players, ex);
    if k > 0 {
      TourFollowsTheRing(players, ex, direction, tour, r, k - 1);
      var before := TurnBy(r, k - 1, direction, |places|);
      assert Settles(players, tour[k - 1], ex, direction, tour[k - 1 + 1]);
      CameraFollowsTheRing(players, ex, before, direction, tour[k]);
    }
  }

  /** Starting on a target, as many presses as there are targets show every target exactly once
      and end where they began. */
  lemma TourVisitsEveryTargetOnce(players: seq<Player>, ex: Exclusion, direction: int,
                                  tour: seq<nat>, r: nat)
    requires AreIdentified(players, ex) && IsTour(players, ex, direction, tour)
    requires r < |Targets(players, ex)| && |tour| == |Targets(players, ex)| + 1
    requires Targets(players, ex)[r] < |players|
    requires tour[0] == players[Targets(players, ex)[r]].entityId
    ensures tour[|tour| - 1] == tour[0]
    ensures forall i, j :: 0 <= i < j < |tour| - 1 ==> tour[i] != tour[j]
    ensures forall i :: 0 <= i < |players| && IsTarget(players[i], ex) ==>
              players[i].entityId in tour
  {
    hide IsTour, Targets, IsTarget, AreIdentified, TurnBy;
    var places := Targets(players, ex);
    var count := |places|;
    TargetsAreInRange(players, ex);
    forall k | 0 <= k < |tour|
      ensures tour[k] == players[places[TurnBy(r, k, direction, count)]].entityId
    {
      TourFollowsTheRing(players, ex, direction, tour, r, k);
    }
    forall i, j | 0 <= i < j < |tour| - 1
      ensures tour[i] != tour[j]
    {
      TurnsDiffer(r, i, j, direction, count);
      TargetIdsDiffer(players, ex, TurnBy(r, i, direction, count), TurnBy(r, j, direction, count));
    }
    forall i | 0 <= i < |players| && IsTarget(players[i], ex)
      ensures players[i].entityId in tour
    {
      var s :| 0 <= s < count && places[s] == i;
      var k := TurnsTo(r, s, direction, count);
      assert tour[k] == players[i].entityId;
    }
  }

  lemma TurnsDiffer(r: nat, i: nat, j: nat, direction: int, count: nat)
    requires r < count && i < j < count
    ensures TurnBy(r, i, direction, count) != TurnBy(r, j, direction, count)
  {
  }

  function TurnsTo(r: nat, s: nat, direction: int, count: nat): (turns: nat)
    requires r < count && s < count
    ensures turns < count && TurnBy(r, turns, direction, count) == s
  {
    if direction < 0 then (if s <= r then r - s else r - s + count)
    else if s >= r then s - r else s - r + count
  }

  lemma TargetIdsDiffer(players: seq<Player>, ex: Exclusion, a: nat, b: nat)
    requires AreIdentified(players, ex)
    requires a < |Targets(players, ex)| && b < |Targets(players, ex)| && a != b
    requires Targets(players, ex)[a] < |players| && Targets(players, ex)[b] < |players|
    ensures players[Targets(players, ex)[a]].entityId != players[Targets(players, ex)[b]].entityId
  {
    hide Targets, IsTarget;
    TargetsAreInRange(players, ex);
  }

  /** Stepping one way and then the other comes back to the same target. */
  lemma BackwardUndoesForward(players: seq<Player>, ex: Exclusion, r: nat, direction: int,
                              opposite: int, there: nat, back: nat)
    requires AreIdentified(players, ex) && r < |Targets(players, ex)|
    requires Targets(players, ex)[r] < |players|
    requires (direction < 0) != (opposite < 0)
    requires Settles(players, players[Targets(players, ex)[r]].entityId, ex, direction, there)
    requires Settles(players, there, ex, opposite, back)
    ensures back == players[Targets(players, ex)[r]].entityId
  {
    hide Settles, AreIdentified, Targets;
    CameraFollowsTheRing(players, ex, r, direction, there);
    CameraFollowsTheRing(players, ex, Turn(r, direction, |Targets(players, ex)|), opposite, back);
  }

  // ----- whom the camera shows -----

  /** The first piece of a living player who is not excluded. */
  predicate CanBeWatched(p: Player, ex: Exclusion) {
    && p.alive && p.playerId > 0 && p.entityId > 0 && p.pieceIndex == 0
    && p.entityId != ex.entityId && !(ex.playerId > 0 && p.playerId == ex.playerId)
  }

  /** The camera shows nobody else, and it shows somebody exactly when there is such a player. */
  lemma CameraShowsALivingPlayer(players: seq<Player>, current: nat, ex: Exclusion, direction: int)
    ensures forall entity :: Settles(players, current, ex, direction, entity) ==>
              exists i :: 0 <= i < |players| && players[i].entityId == entity
                          && CanBeWatched(players[i], ex)
    ensures (exists entity :: Settles(players, current, ex, direction, entity)) <==>
              exists i :: 0 <= i < |players| && CanBeWatched(players[i], ex)
  {
    hide Place;
    assert forall p :: IsTarget(p, ex) <==> CanBeWatched(p, ex);
    hide IsTarget, CanBeWatched;
    forall entity | Settles(players, current, ex, direction, entity)
      ensures exists i :: 0 <= i < |players| && players[i].entityId == entity
                          && CanBeWatched(players[i], ex)
    {
      var start, offset :|
        && 1 <= offset <= |players|
        && IsStart(players, current, direction, start)
        && IsFirstTarget(players, ex, direction, start, offset)
        && players[Place(start, offset, direction, |players|)].entityId == entity;
      var i := Place(start, offset, direction, |players|);
      assert IsTarget(players[i], ex);
    }
    if i :| 0 <= i < |players| && IsTarget(players[i], ex) {
      var start := StartOf(players, current, direction);
      var steps := StepsTo(start, i, direction, |players|);
      var offset := FirstOffset(players, ex, direction, start, steps);
      assert Settles(players, current, ex, direction,
                     players[Place(start, offset, direction, |players|)].entityId);
    }
  }

  lemma StartOf(players: seq<Player>, current: nat, direction: int) returns (start: nat)
    requires players != []
    ensures IsStart(players, current, direction, start)
  {
    start := 0;
    while start < |players| && players[start].entityId != current
      invariant start <= |players|
      invariant forall i :: 0 <= i < start ==> players[i].entityId != current
    {
      start := start + 1;
    }
    if start == |players| {
      start := if direction < 0 then 0 else |players| - 1;
    }
  }

  lemma FirstOffset(players: seq<Player>, ex: Exclusion, direction: int, start: nat, steps: nat)
    returns (offset: nat)
    requires start < |players| && 1 <= steps <= |players|
    requires IsTarget(players[Place(start, steps, direction, |players|)], ex)
    ensures 1 <= offset <= steps && IsFirstTarget(players, ex, direction, start, offset)
  {
    hide Place, IsTarget;
    offset := 1;
    while !IsTarget(players[Place(start, offset, direction, |players|)], ex)
      invariant 1 <= offset <= steps
      invariant forall o :: 1 <= o < offset ==>
                  !IsTarget(players[Place(start, o, direction, |players|)], ex)
      decreases steps - offset
    {
      offset := offset + 1;
    }
  }
}
