/**
 * Ranks derived from the leaderboard listing: the rank snapshot (`getAllRanks`),
 * the badges of a row (`badgeFor`), the movement shown beside a rank
 * (`renderRankMovement`, and the same rule in `selectPlayer`), and the
 * neighbours of a selected player.
 *
 * A rank is a 1-based position in the listing.
 */
module Ranks {
  import opened Wrappers
  import opened Keys
  import opened KeySeq

  // ------------------------------------------------------------------ badges

  /** The badges of `badgeFor`, without their icons and text. */
  datatype Badge = Top1 | Top2 | Top3 | Top10 | FastClimber

  /** JavaScript truthiness of an optional rank: present and not 0. */
  predicate Truthy(o: Option<int>)
  {
    o.Some? && o.value != 0
  }

  /**
   * `badgeFor(rank, name, oldRank)`: at most one placement badge, followed by
   * the climber badge when the rank improved by at least three places.
   */
  function BadgeFor(rank: int, oldRank: Option<int>): (b: seq<Badge>)
    ensures Top1 in b <==> rank == 1
    ensures Top2 in b <==> rank == 2
    ensures Top3 in b <==> rank == 3
    ensures Top10 in b <==> rank <= 10 && rank != 1 && rank != 2 && rank != 3
    ensures FastClimber in b <==> Truthy(oldRank) && oldRank.value - rank >= 3
    ensures |b| == (if rank <= 10 then 1 else 0) + (if Truthy(oldRank) && oldRank.value - rank >= 3 then 1 else 0)
    ensures FastClimber in b ==> b[|b| - 1] == FastClimber
  {
    var placement :=
      if rank == 1 then [Top1]
      else if rank == 2 then [Top2]
      else if rank == 3 then [Top3]
      else if rank <= 10 then [Top10]
      else [];
    var climber := if Truthy(oldRank) && rank < oldRank.value && oldRank.value - rank >= 3 then [FastClimber] else [];
    placement + climber
  }

  /** A placement badge. */
  predicate IsPlacement(b: Badge)
  {
    b != FastClimber
  }

  /** Every rank from 1 to 10 earns exactly one placement badge, and a rank beyond 10 none. */
  lemma PlacementBadges(rank: int, oldRank: Option<int>)
    requires rank >= 1
    ensures rank <= 10 ==> |set i | 0 <= i < |BadgeFor(rank, oldRank)| && IsPlacement(BadgeFor(rank, oldRank)[i])| == 1
    ensures rank > 10 ==> forall i :: 0 <= i < |BadgeFor(rank, oldRank)| ==> !IsPlacement(BadgeFor(rank, oldRank)[i])
  {
    var b := BadgeFor(rank, oldRank);
    if rank <= 10 {
      assert IsPlacement(b[0]);
      assert (set i | 0 <= i < |b| && IsPlacement(b[i])) == {0};
    }
  }

  /** Climbing from 5th to 2nd earns both a placement and the climber badge. */
  lemma FastClimberExample()
    ensures BadgeFor(2, Some(5)) == [Top2, FastClimber]
    ensures BadgeFor(12, Some(14)) == []
  {
  }

  // ---------------------------------------------------------------- movement

  /** The movement of a rank: up or down by a positive number of places, or unchanged. */
  datatype Change = Up(places: nat) | Down(places: nat) | Unchanged

  /** `oldRanks[name] || currentRank`, and `obj.lastRank || currentRank`: a missing rank defaults to the current one. */
  function OldRankOrCurrent(oldRank: Option<int>, current: int): (r: int)
    ensures Truthy(oldRank) ==> r == oldRank.value
    ensures !Truthy(oldRank) ==> r == current
  {
    if Truthy(oldRank) then oldRank.value else current
  }

  /** `diff = oldRank - currentRank`: positive is a climb, negative a fall. */
  function Movement(current: int, previous: int): (c: Change)
    ensures c.Up? ==> c.places > 0
    ensures c.Down? ==> c.places > 0
  {
    var diff := previous - current;
    if diff > 0 then Up(diff)
    else if diff < 0 then Down(-diff)
    else Unchanged
  }

  /** The rank a change started from: the inverse of `Movement`. */
  function Origin(current: int, c: Change): int
  {
    match c
    case Up(n) => current + n
    case Down(n) => current - n
    case Unchanged => current
  }

  /** A well-formed change moves by a positive number of places. */
  predicate ProperChange(c: Change)
  {
    (c.Up? || c.Down?) ==> c.places > 0
  }

  /** `Movement` and `Origin` are inverse to each other in both directions. */
  lemma MovementOrigin(current: int, previous: int, c: Change)
    ensures Origin(current, Movement(current, previous)) == previous
    ensures ProperChange(c) ==> Movement(current, Origin(current, c)) == c
  {
  }

  /** A player without a recorded rank, or whose recorded rank is its current one, shows no movement. */
  lemma NoHistoryNoMovement(current: int, oldRank: Option<int>)
    requires !Truthy(oldRank) || oldRank.value == current
    ensures Movement(current, OldRankOrCurrent(oldRank, current)) == Unchanged
  {
  }

  /** Moving from 5th to 2nd shows a climb of three places. */
  lemma MovementExample()
    ensures Movement(2, OldRankOrCurrent(Some(5), 2)) == Up(3)
    ensures Movement(4, OldRankOrCurrent(Some(1), 4)) == Down(3)
    ensures Movement(7, OldRankOrCurrent(None, 7)) == Unchanged
  {
  }

  // --------------------------------------------------------- rank snapshot

  /**
   * The snapshot `getAllRanks` builds from a listing: every listed name maps to
   * the 1-based position of its last occurrence (a later entry overwrites).
   */
  function RanksOf(s: seq<Key>): map<string, int>
  {
    if s == [] then map[] else RanksOf(s[..|s| - 1])[s[|s| - 1].name := |s|]
  }

  /** Every name in the snapshot maps to a position of the listing that holds that name. */
  lemma {:induction false} RanksOfHolds(s: seq<Key>)
    ensures forall n :: n in RanksOf(s) ==> 1 <= RanksOf(s)[n] <= |s| && s[RanksOf(s)[n] - 1].name == n
  {
    if s != [] {
      var p := s[..|s| - 1];
      var last := s[|s| - 1].name;
      RanksOfHolds(p);
      var m := RanksOf(p);
      var r := m[last := |s|];
      assert RanksOf(s) == r;
      forall n | n in r ensures 1 <= r[n] <= |s| && s[r[n] - 1].name == n {
        if n != last {
          assert p[m[n] - 1] == s[m[n] - 1];
        }
      }
    }
  }

  /** Every listed name is in the snapshot, at a position no earlier than any of its occurrences: the last one wins. */
  lemma {:induction false} RanksOfCovers(s: seq<Key>)
    ensures forall i :: 0 <= i < |s| ==> s[i].name in RanksOf(s) && i < RanksOf(s)[s[i].name]
  {
    if s != [] {
      var p := s[..|s| - 1];
      var last := s[|s| - 1].name;
      RanksOfCovers(p);
      var m := RanksOf(p);
      var r := m[last := |s|];
      assert RanksOf(s) == r;
      forall i | 0 <= i < |s| ensures s[i].name in r && i < r[s[i].name] {
        if i < |p| && s[i].name != last {
          assert p[i] == s[i];
        }
      }
    }
  }

  /**
   * The snapshot maps every listed name, and only those, to a position that
   * holds that name, and to no position earlier than any other occurrence:
   * the last one wins.
   */
  lemma RanksOfLast(s: seq<Key>)
    ensures forall n :: n in RanksOf(s) ==> 1 <= RanksOf(s)[n] <= |s| && s[RanksOf(s)[n] - 1].name == n
    ensures forall i :: 0 <= i < |s| ==> s[i].name in RanksOf(s) && i < RanksOf(s)[s[i].name]
  {
    RanksOfHolds(s);
    RanksOfCovers(s);
  }

  /** `getAllRanks`: one pass over the listing, writing `ranks[name] = idx + 1`. */
  method AllRanks(s: seq<Key>) returns (ranks: map<string, int>)
    ensures ranks == RanksOf(s)
  {
    ranks := map[];
    for i := 0 to |s|
      invariant ranks == RanksOf(s[..i])
    {
      assert s[..i + 1][..i] == s[..i];
      ranks := ranks[s[i].name := i + 1];
    }
    assert s[..|s|] == s;
  }

  /** Names are unique along the listing. */
  predicate DistinctNames(s: seq<Key>)
  {
    forall i, j :: 0 <= i < j < |s| ==> s[i].name != s[j].name
  }

  /** A sorted listing of keys with unique names has no repeated name. */
  lemma SortedUniqueNamesDistinct(s: seq<Key>)
    requires StrictlySorted(s) && UniqueNames(Elements(s))
    ensures DistinctNames(s)
  {
    forall i, j | 0 <= i < j < |s| ensures s[i].name != s[j].name {
      UniqueNamesIndex(s, i);
      UniqueNamesIndex(s, j);
    }
  }

  /** With unique names, the snapshot agrees with `findIndex` and with `rankOf`: one more than the index. */
  lemma RanksOfIndex(s: seq<Key>, name: string)
    requires DistinctNames(s)
    ensures name in RanksOf(s) <==> IndexOfName(s, name) >= 0
    ensures name in RanksOf(s) ==> RanksOf(s)[name] == IndexOfName(s, name) + 1
  {
    RanksOfLast(s);
    var m := RanksOf(s);
    if name in m {
      assert s[m[name] - 1].name == name;
    }
  }

  // -------------------------------------------------------------- neighbours

  /** The entries shown around a selected player. */
  datatype Around = Around(above: Option<Key>, below: Option<Key>)

  /** `y` lies strictly between `a` and `b` in leaderboard order. */
  predicate Between(a: Key, y: Key, b: Key)
  {
    Before(a, y) && Before(y, b)
  }

  /**
   * The neighbour lookup of `selectPlayer`: the entry at `idx - 1` when
   * `idx > 0`, and the entry at `idx + 1` when `idx < length - 1`; `idx` is the
   * result of `findIndex`, so -1 when the name is not listed.
   */
  function Neighbors(s: seq<Key>, idx: int): (r: Around)
    requires -1 <= idx < |s|
    ensures r.above.Some? <==> idx > 0
    ensures r.below.Some? <==> idx < |s| - 1
    ensures r.above.Some? ==> r.above.value == s[idx - 1]
    ensures r.below.Some? ==> r.below.value == s[idx + 1]
  {
    Around(if idx > 0 then Some(s[idx - 1]) else None,
           if idx < |s| - 1 then Some(s[idx + 1]) else None)
  }

  /**
   * In a sorted listing, the neighbours are the immediate predecessor and
   * successor of the selected entry: nothing listed lies between them, and a
   * missing neighbour means the entry is first or last.
   */
  lemma NeighborsAdjacent(s: seq<Key>, idx: int)
    requires StrictlySorted(s) && 0 <= idx < |s|
    ensures var r := Neighbors(s, idx);
      (r.above.Some? ==>
         Before(r.above.value, s[idx]) && forall y :: y in Elements(s) ==> !Between(r.above.value, y, s[idx])) &&
      (r.above.None? ==> forall y :: y in Elements(s) ==> !Before(y, s[idx])) &&
      (r.below.Some? ==>
         Before(s[idx], r.below.value) && forall y :: y in Elements(s) ==> !Between(s[idx], y, r.below.value)) &&
      (r.below.None? ==> forall y :: y in Elements(s) ==> !Before(s[idx], y))
  {
    forall y | y in Elements(s) ensures idx > 0 ==> !Between(s[idx - 1], y, s[idx]) {
      if idx > 0 && Between(s[idx - 1], y, s[idx]) {
        NotBetweenAdjacent(s, idx - 1, y);
      }
    }
    forall y | y in Elements(s) ensures idx < |s| - 1 ==> !Between(s[idx], y, s[idx + 1]) {
      if idx < |s| - 1 && Between(s[idx], y, s[idx + 1]) {
        NotBetweenAdjacent(s, idx, y);
      }
    }
    forall y | y in Elements(s) ensures idx == 0 ==> !Before(y, s[idx]) {
      if idx == 0 && Before(y, s[0]) {
        var j :| 0 <= j < |s| && s[j] == y;
        if j == 0 { BeforeIrreflexive(y); } else { BeforeAsymmetric(s[0], y); }
      }
    }
    forall y | y in Elements(s) ensures idx == |s| - 1 ==> !Before(s[idx], y) {
      if idx == |s| - 1 && Before(s[idx], y) {
        var j :| 0 <= j < |s| && s[j] == y;
        if j == idx { BeforeIrreflexive(y); } else { BeforeAsymmetric(y, s[idx]); }
      }
    }
  }

  /** Nothing in a sorted sequence lies between two consecutive entries. */
  lemma NotBetweenAdjacent(s: seq<Key>, i: int, y: Key)
    requires StrictlySorted(s) && 0 <= i < |s| - 1 && y in Elements(s)
    ensures !Between(s[i], y, s[i + 1])
  {
    var j :| 0 <= j < |s| && s[j] == y;
    if Between(s[i], y, s[i + 1]) {
      if j <= i {
        if j == i { BeforeIrreflexive(y); } else { BeforeAsymmetric(y, s[i]); }
      } else {
        if j == i + 1 { BeforeIrreflexive(y); } else { BeforeAsymmetric(s[i + 1], y); }
      }
    }
  }
}
