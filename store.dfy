/**
 * The leaderboard store: the `players` and `playerHistory` maps, the key order
 * of `players` (a JavaScript `Map` iterates in insertion order), and the AVL
 * tree, kept consistent by every operation.
 *
 * The operations stop where the original hands over to the page: they change
 * the state and return what the page is refreshed with (the rank snapshot taken
 * before the change), and `Refresh` models the ranking part of that refresh.
 */
module Store {
  import opened Wrappers
  import opened Keys
  import opened KeySeq
  import AvlTree
  import opened Ranks
  import TopK
  import opened Board

  /** A row of the leaderboard table: rank, name, score, badges and movement. */
  datatype Row = Row(rank: int, name: string, score: int, badges: seq<Badge>, change: Change)

  /** The selected-player panel: score, rank, the entries around it and its movement. */
  datatype Selection = Selection(score: int, rank: int, around: Around, change: Change)

  /** `oldRanks[name]`: `undefined` for a name the snapshot does not hold. */
  function Lookup(m: map<string, int>, name: string): (r: Option<int>)
    ensures r.Some? <==> name in m
    ensures r.Some? ==> r.value == m[name]
  {
    if name in m then Some(m[name]) else None
  }

  /** `(old.history || []).concat(score)` for a known player, `[score]` for a new one. */
  function NewHistory(ps: map<string, Player>, name: string, score: int): (h: seq<int>)
    ensures |h| > 0 && h[|h| - 1] == score
    ensures name in ps ==> h[..|h| - 1] == ps[name].history
    ensures name !in ps ==> h == [score]
  {
    (if name in ps then ps[name].history else []) + [score]
  }

  /** A player after one round: the score moves by `delta` and the history records it; `lastRank` stays. */
  function Bumped(p: Player, delta: int): (q: Player)
    ensures q.score == p.score + delta && q.history == p.history + [q.score] && q.lastRank == p.lastRank
  {
    Player(p.score + delta, p.history + [p.score + delta], p.lastRank)
  }

  /** `Number(value) || 5`: a count of 0 falls back to 5. */
  function TopKCount(k: int): (c: int)
    ensures c != 0
    ensures k == 0 ==> c == 5
    ensures k != 0 ==> c == k
  {
    if k == 0 then 5 else k
  }

  /** The players that rank strictly ahead of player `n`. */
  function Better(ps: map<string, Player>, n: string): set<Key>
    requires n in ps
  {
    set y | y in KeysOf(ps) && Before(y, Key(ps[n].score, n))
  }

  /** The table row `updateUI` shows for the entry at 0-based position `idx` of the listing. */
  function RowAt(s: seq<Key>, idx: int, oldRanks: map<string, int>): Row
    requires 0 <= idx < |s|
  {
    var rank := idx + 1;
    var o := Lookup(oldRanks, s[idx].name);
    Row(rank, s[idx].name, s[idx].score, BadgeFor(rank, o), Movement(rank, OldRankOrCurrent(o, rank)))
  }

  /** The `[score, name]` pairs the top-K loop visits, in the map's iteration order. */
  function Candidates(ps: map<string, Player>, order: seq<string>): (c: seq<Key>)
    requires forall n :: n in order ==> n in ps
    ensures |c| == |order|
    ensures forall i :: 0 <= i < |order| ==> c[i] == Key(ps[order[i]].score, order[i])
  {
    if order == [] then [] else Candidates(ps, order[..|order| - 1]) + [Key(ps[order[|order| - 1]].score, order[|order| - 1])]
  }

  /** Over the whole order, the candidates are the players' keys, each once. */
  lemma CandidatesAreKeys(ps: map<string, Player>, order: seq<string>)
    requires Distinct(order) && forall n :: n in order <==> n in ps
    ensures Distinct(Candidates(ps, order))
    ensures Elements(Candidates(ps, order)) == KeysOf(ps)
  {
    var c := Candidates(ps, order);
    forall x | x in KeysOf(ps) ensures x in Elements(c) {
      KeysOfMember(ps, x);
      var i :| 0 <= i < |order| && order[i] == x.name;
      assert c[i] == x;
    }
  }

  /** A pair that occurs once in the candidates and not in the output is among the excluded ones. */
  lemma ExcludedKey(c: seq<Key>, out: seq<Key>, x: Key)
    requires Distinct(c) && x in c && x !in out
    ensures x in multiset(c) - multiset(out)
  {
    assert multiset(c)[x] >= 1;
    assert multiset(out)[x] == 0;
  }

  /** The listing of a consistent tree names each player once, under its current score. */
  lemma ListingNames(t: AvlTree.Tree, ps: map<string, Player>)
    requires AvlTree.Valid(t) && AvlTree.KeySet(t) == KeysOf(ps)
    ensures StrictlySorted(AvlTree.InOrder(t)) && DistinctNames(AvlTree.InOrder(t))
    ensures forall i :: 0 <= i < |AvlTree.InOrder(t)| ==>
      AvlTree.InOrder(t)[i].name in ps && ps[AvlTree.InOrder(t)[i].name].score == AvlTree.InOrder(t)[i].score
    ensures forall n :: n in ps ==> Key(ps[n].score, n) in Elements(AvlTree.InOrder(t))
  {
    var s := AvlTree.InOrder(t);
    AvlTree.InOrderSorted(t);
    KeysOfUniqueNames(ps);
    SortedUniqueNamesDistinct(s);
    forall i | 0 <= i < |s| ensures s[i].name in ps && ps[s[i].name].score == s[i].score {
      assert s[i] in Elements(s);
      KeysOfMember(ps, s[i]);
    }
    forall n | n in ps ensures Key(ps[n].score, n) in Elements(s) {
      KeysOfMember(ps, Key(ps[n].score, n));
    }
  }

  /** A player's position in the listing of a consistent tree is the number of players ranked ahead of it. */
  lemma PositionOfPlayer(t: AvlTree.Tree, ps: map<string, Player>, n: string)
    requires AvlTree.Valid(t) && AvlTree.KeySet(t) == KeysOf(ps) && n in ps
    ensures 0 <= IndexOfName(AvlTree.InOrder(t), n) == |Better(ps, n)|
    ensures AvlTree.InOrder(t)[IndexOfName(AvlTree.InOrder(t), n)] == Key(ps[n].score, n)
  {
    var s := AvlTree.InOrder(t);
    var k := Key(ps[n].score, n);
    KeysOfMember(ps, k);
    KeysOfUniqueNames(ps);
    AvlTree.RankCountsBefore(t, k);
    var i := IndexOfName(s, n);
    AvlTree.InOrderSorted(t);
    assert s[i] in Elements(s);
    KeysOfMember(ps, s[i]);
  }

  /** A player's rank in the snapshot is its position in the listing plus one, and one more than the players ahead of it. */
  lemma RankOfPlayer(t: AvlTree.Tree, ps: map<string, Player>, n: string)
    requires AvlTree.Valid(t) && AvlTree.KeySet(t) == KeysOf(ps) && n in ps
    ensures 0 <= IndexOfName(AvlTree.InOrder(t), n) && n in RanksOf(AvlTree.InOrder(t))
    ensures RanksOf(AvlTree.InOrder(t))[n] == IndexOfName(AvlTree.InOrder(t), n) + 1 == 1 + |Better(ps, n)|
  {
    ListingNames(t, ps);
    PositionOfPlayer(t, ps, n);
    RanksOfIndex(AvlTree.InOrder(t), n);
  }

  /**
   * The snapshot built from the listing of a consistent tree holds every
   * player, at one more than the number of players ranked ahead of it.
   */
  lemma RankSnapshot(t: AvlTree.Tree, ps: map<string, Player>)
    requires AvlTree.Valid(t) && AvlTree.KeySet(t) == KeysOf(ps)
    ensures RanksOf(AvlTree.InOrder(t)).Keys == ps.Keys
    ensures forall n :: n in ps ==>
      RanksOf(AvlTree.InOrder(t))[n] == IndexOfName(AvlTree.InOrder(t), n) + 1 == 1 + |Better(ps, n)|
  {
    RankSnapshotNames(t, ps);
    forall n | n in ps ensures RanksOf(AvlTree.InOrder(t))[n] == IndexOfName(AvlTree.InOrder(t), n) + 1 == 1 + |Better(ps, n)| {
      RankOfPlayer(t, ps, n);
    }
  }

  /** The snapshot of a consistent tree's listing names exactly the players. */
  lemma RankSnapshotNames(t: AvlTree.Tree, ps: map<string, Player>)
    requires AvlTree.Valid(t) && AvlTree.KeySet(t) == KeysOf(ps)
    ensures RanksOf(AvlTree.InOrder(t)).Keys == ps.Keys
  {
    var s := AvlTree.InOrder(t);
    ListingNames(t, ps);
    forall n | n in ps ensures n in RanksOf(s) {
      RankOfPlayer(t, ps, n);
    }
    RanksOfHolds(s);
  }

  /**
   * The players map after the first `i` steps of the next-round loop over
   * `names`: each step bumps the current record of the next name.
   */
  function BumpAll(ps: map<string, Player>, names: seq<string>, deltas: seq<int>, i: int): (r: map<string, Player>)
    requires 0 <= i <= |names| == |deltas| && forall n :: n in names ==> n in ps
    ensures r.Keys == ps.Keys
    decreases i
  {
    if i == 0 then ps
    else
      var q := BumpAll(ps, names, deltas, i - 1);
      q[names[i - 1] := Bumped(q[names[i - 1]], deltas[i - 1])]
  }

  /** One more step of the round unfolds to bumping the next name's current record. */
  lemma BumpAllNext(ps: map<string, Player>, names: seq<string>, deltas: seq<int>, i: int)
    requires 0 <= i < |names| == |deltas| && forall n :: n in names ==> n in ps
    ensures BumpAll(ps, names, deltas, i + 1) ==
      BumpAll(ps, names, deltas, i)[names[i] := Bumped(BumpAll(ps, names, deltas, i)[names[i]], deltas[i])]
  {
  }

  /** With distinct names, the first `i` names are bumped once by their own delta and the others untouched. */
  lemma {:induction false} BumpAllAt(ps: map<string, Player>, names: seq<string>, deltas: seq<int>, i: int, j: int)
    requires 0 <= i <= |names| == |deltas| && forall n :: n in names ==> n in ps
    requires Distinct(names) && 0 <= j < |names|
    ensures BumpAll(ps, names, deltas, i)[names[j]] == if j < i then Bumped(ps[names[j]], deltas[j]) else ps[names[j]]
    decreases i
  {
    if i > 0 {
      BumpAllAt(ps, names, deltas, i - 1, j);
      BumpAllAt(ps, names, deltas, i - 1, i - 1);
    }
  }

  /**
   * After a whole round over a key order covering the map, every player has
   * been bumped once by its own delta, the order still covers the map, and
   * every history ends with its player's score.
   */
  lemma BumpAllRound(ps: map<string, Player>, names: seq<string>, deltas: seq<int>)
    requires Covers(names, ps) && |names| == |deltas|
    ensures Covers(names, BumpAll(ps, names, deltas, |names|))
    ensures forall j :: 0 <= j < |names| ==> BumpAll(ps, names, deltas, |names|)[names[j]] == Bumped(ps[names[j]], deltas[j])
    ensures HistoryTracksScore(BumpAll(ps, names, deltas, |names|))
  {
    var r := BumpAll(ps, names, deltas, |names|);
    CoversSameKeys(names, ps, r);
    forall j | 0 <= j < |names| ensures r[names[j]] == Bumped(ps[names[j]], deltas[j]) {
      BumpAllAt(ps, names, deltas, |names|, j);
    }
    forall n | n in r ensures |r[n].history| > 0 && r[n].history[|r[n].history| - 1] == r[n].score {
      var j :| 0 <= j < |names| && names[j] == n;
      BumpAllAt(ps, names, deltas, |names|, j);
    }
  }

  /**
   * One step of the next-round loop, for the `i`-th name: its key leaves the
   * tree, its record is bumped by its delta, its history replaced, and the new
   * key enters the tree. The state stays the round so far, and consistent.
   */
  method BumpOne(ps: map<string, Player>, names: seq<string>, deltas: seq<int>, i: int,
                 q: map<string, Player>, qh: map<string, seq<int>>, u: AvlTree.Tree)
    returns (q': map<string, Player>, qh': map<string, seq<int>>, u': AvlTree.Tree)
    requires 0 <= i < |names| == |deltas| && forall n :: n in names ==> n in ps
    requires q == BumpAll(ps, names, deltas, i)
    requires AvlTree.Valid(u) && AvlTree.KeySet(u) == KeysOf(q) && Agree(q, qh)
    ensures q' == BumpAll(ps, names, deltas, i + 1)
    ensures AvlTree.Valid(u') && AvlTree.KeySet(u') == KeysOf(q') && Agree(q', qh')
  {
    var n := names[i];
    var p := Bumped(q[n], deltas[i]);
    BumpAllNext(ps, names, deltas, i);
    KeysOfSet(q, n, p);
    AgreeSet(q, qh, n, p);
    var v := AvlTree.DeleteKey(u, Key(q[n].score, n));
    u' := AvlTree.InsertKey(v, Key(p.score, n));
    q' := q[n := p];
    qh' := qh[n := p.history];
  }

  /**
   * The next-round batch on the players map, the history map and the tree,
   * over the key order `names`: with no names, nothing happens and no snapshot
   * is taken. Otherwise the rank snapshot is taken first; then for each name in
   * turn its key leaves the tree, its record is bumped by that name's delta (the
   * new score appended to its history, which `playerHistory` records too) and
   * the new key enters the tree.
   */
  method Round(ps: map<string, Player>, ph: map<string, seq<int>>, t: AvlTree.Tree, names: seq<string>, deltas: seq<int>)
    returns (oldRanks: Option<map<string, int>>, ps': map<string, Player>, ph': map<string, seq<int>>, t': AvlTree.Tree)
    requires AvlTree.Valid(t) && AvlTree.KeySet(t) == KeysOf(ps) && Agree(ps, ph)
    requires Covers(names, ps) && |deltas| == |names|
    ensures oldRanks == if names == [] then None else Some(RanksOf(AvlTree.InOrder(t)))
    ensures AvlTree.Valid(t') && AvlTree.KeySet(t') == KeysOf(ps') && Agree(ps', ph') && Covers(names, ps')
    ensures ps'.Keys == ps.Keys
    ensures forall j :: 0 <= j < |names| ==> ps'[names[j]] == Bumped(ps[names[j]], deltas[j])
    ensures HistoryTracksScore(ps')
  {
    if |names| == 0 {
      CoversEmpty(names, ps);
      return None, ps, ph, t;
    }
    var ranks := AllRanks(AvlTree.InOrder(t));  // `getAllRanks()`
    oldRanks := Some(ranks);
    ps', ph', t' := Bump(ps, ph, t, names, deltas);
    BumpAllRound(ps, names, deltas);
  }

  /**
   * The loop of the next-round batch: for each name in turn, its key leaves the
   * tree, its record is bumped by that name's delta and its history replaced,
   * and the new key enters the tree.
   */
  method Bump(ps: map<string, Player>, ph: map<string, seq<int>>, t: AvlTree.Tree, names: seq<string>, deltas: seq<int>)
    returns (ps': map<string, Player>, ph': map<string, seq<int>>, t': AvlTree.Tree)
    requires AvlTree.Valid(t) && AvlTree.KeySet(t) == KeysOf(ps) && Agree(ps, ph)
    requires |deltas| == |names| && forall n :: n in names ==> n in ps
    ensures ps' == BumpAll(ps, names, deltas, |names|)
    ensures AvlTree.Valid(t') && AvlTree.KeySet(t') == KeysOf(ps') && Agree(ps', ph')
  {
    ps', ph', t' := ps, ph, t;
    // `if (!obj) return;` never fires: every name of the key order is a player.
    for i := 0 to |names|
      invariant ps' == BumpAll(ps, names, deltas, i)
      invariant AvlTree.Valid(t') && AvlTree.KeySet(t') == KeysOf(ps') && Agree(ps', ph')
    {
      ps', ph', t' := BumpOne(ps, names, deltas, i, ps', ph', t');
    }
  }

  /** The players map after `renderRankMovement` has stamped the first `idx` listed players with their rank. */
  function Stamp(ps: map<string, Player>, s: seq<Key>, idx: int): (r: map<string, Player>)
    requires 0 <= idx <= |s| && forall i :: 0 <= i < |s| ==> s[i].name in ps
    ensures r.Keys == ps.Keys
    decreases idx
  {
    if idx == 0 then ps
    else
      var q := Stamp(ps, s, idx - 1);
      q[s[idx - 1].name := q[s[idx - 1].name].(lastRank := Some(idx))]
  }

  /** One more step of the stamping unfolds to stamping the next listed player's current record. */
  lemma StampNext(ps: map<string, Player>, s: seq<Key>, idx: int)
    requires 0 <= idx < |s| && forall i :: 0 <= i < |s| ==> s[i].name in ps
    ensures Stamp(ps, s, idx + 1) ==
      Stamp(ps, s, idx)[s[idx].name := Stamp(ps, s, idx)[s[idx].name].(lastRank := Some(idx + 1))]
  {
  }

  /** With distinct names, each of the first `idx` listed players holds its 1-based position as `lastRank`. */
  lemma {:induction false} StampAt(ps: map<string, Player>, s: seq<Key>, idx: int, n: string)
    requires 0 <= idx <= |s| && forall i :: 0 <= i < |s| ==> s[i].name in ps
    requires DistinctNames(s) && n in ps
    ensures Stamp(ps, s, idx)[n] ==
      if 0 <= IndexOfName(s, n) < idx then ps[n].(lastRank := Some(IndexOfName(s, n) + 1)) else ps[n]
    decreases idx
  {
    if idx > 0 {
      StampAt(ps, s, idx - 1, n);
      if s[idx - 1].name == n {
        assert IndexOfName(s, n) == idx - 1;
      }
    }
  }

  /**
   * Stamping the whole listing of a consistent tree gives every player the
   * lastRank one more than the number of players ahead of it, and changes
   * nothing else.
   */
  lemma StampListing(t: AvlTree.Tree, ps: map<string, Player>)
    requires AvlTree.Valid(t) && AvlTree.KeySet(t) == KeysOf(ps)
    ensures forall i :: 0 <= i < |AvlTree.InOrder(t)| ==> AvlTree.InOrder(t)[i].name in ps
    ensures forall n :: n in ps ==>
      Stamp(ps, AvlTree.InOrder(t), |AvlTree.InOrder(t)|)[n] == ps[n].(lastRank := Some(1 + |Better(ps, n)|))
  {
    ListingNames(t, ps);
    forall n | n in ps
      ensures Stamp(ps, AvlTree.InOrder(t), |AvlTree.InOrder(t)|)[n] == ps[n].(lastRank := Some(1 + |Better(ps, n)|))
    {
      StampPlayer(t, ps, n);
    }
  }

  /** One player after stamping the whole listing of a consistent tree. */
  lemma StampPlayer(t: AvlTree.Tree, ps: map<string, Player>, n: string)
    requires AvlTree.Valid(t) && AvlTree.KeySet(t) == KeysOf(ps) && n in ps
    requires DistinctNames(AvlTree.InOrder(t))
    requires forall i :: 0 <= i < |AvlTree.InOrder(t)| ==> AvlTree.InOrder(t)[i].name in ps
    ensures Stamp(ps, AvlTree.InOrder(t), |AvlTree.InOrder(t)|)[n] == ps[n].(lastRank := Some(1 + |Better(ps, n)|))
  {
    var s := AvlTree.InOrder(t);
    PositionOfPlayer(t, ps, n);
    StampAt(ps, s, |s|, n);
  }

  /**
   * The loop of `updateUI` over the listing `s`: the row of each entry, and
   * `renderRankMovement`'s stamp of its 1-based position into the player's
   * `lastRank`.
   */
  method RankRows(s: seq<Key>, ps: map<string, Player>, oldRanks: map<string, int>) returns (rows: seq<Row>, ps': map<string, Player>)
    requires forall i :: 0 <= i < |s| ==> s[i].name in ps
    ensures |rows| == |s| && forall i :: 0 <= i < |s| ==> rows[i] == RowAt(s, i, oldRanks)
    ensures ps' == Stamp(ps, s, |s|)
  {
    rows, ps' := [], ps;
    for idx := 0 to |s|
      invariant |rows| == idx && forall i :: 0 <= i < idx ==> rows[i] == RowAt(s, i, oldRanks)
      invariant ps' == Stamp(ps, s, idx)
    {
      var name := s[idx].name;
      StampNext(ps, s, idx);
      rows := rows + [RowAt(s, idx, oldRanks)];
      ps' := ps'[name := ps'[name].(lastRank := Some(idx + 1))];
    }
  }

  /**
   * The ranking part of the page refresh on the players map and the tree: the
   * rows of the listing and the players stamped with their ranks. Scores and
   * histories stay, so the store stays consistent.
   */
  method Ranking(t: AvlTree.Tree, ps: map<string, Player>, ph: map<string, seq<int>>, order: seq<string>, oldRanks: map<string, int>)
    returns (rows: seq<Row>, ps': map<string, Player>)
    requires AvlTree.Valid(t) && AvlTree.KeySet(t) == KeysOf(ps) && Agree(ps, ph) && Covers(order, ps)
    ensures |rows| == |AvlTree.InOrder(t)| && forall i :: 0 <= i < |rows| ==> rows[i] == RowAt(AvlTree.InOrder(t), i, oldRanks)
    ensures ps'.Keys == ps.Keys
    ensures forall n :: n in ps' ==> ps'[n] == ps[n].(lastRank := Some(1 + |Better(ps, n)|))
    ensures AvlTree.KeySet(t) == KeysOf(ps') && Agree(ps', ph) && Covers(order, ps')
  {
    StampListing(t, ps);
    rows, ps' := RankRows(AvlTree.InOrder(t), ps, oldRanks);
    SameScoresAndHistories(ps, ps', ph, order);
  }

  /**
   * The loop of the bulk load, starting from empty maps, key order and tree:
   * for each `[name, obj]` in turn, set the record, set the history to the
   * record's own, append a new name to the key order and insert the key.
   */
  method Load(entries: seq<(string, Player)>)
    returns (ps: map<string, Player>, ph: map<string, seq<int>>, order: seq<string>, t: AvlTree.Tree)
    ensures ps == MapOf(entries) && order == OrderOf(entries)
    ensures AvlTree.Valid(t) && AvlTree.KeySet(t) == LoadKeys(entries)
    ensures Agree(ps, ph)
  {
    ps, ph, order, t := map[], map[], [], AvlTree.Leaf;
    for i := 0 to |entries|
      invariant ps == MapOf(entries[..i]) && order == OrderOf(entries[..i])
      invariant AvlTree.Valid(t) && AvlTree.KeySet(t) == LoadKeys(entries[..i])
      invariant Agree(ps, ph)
    {
      LoadNext(entries, i);
      var name, obj := entries[i].0, entries[i].1;
      if name !in order {
        order := order + [name];
      }
      AgreeSet(ps, ph, name, obj);
      ps := ps[name := obj];
      ph := ph[name := obj.history];
      t := AvlTree.InsertKey(t, Key(obj.score, name));
    }
    assert entries[..|entries|] == entries;
  }

  /**
   * The state after `addOrUpdatePlayer(name, score)` with a non-empty name: the
   * record and history are replaced, a new name goes last in the key order, and
   * the tree trades the player's old key for the new one.
   */
  method Upsert(ps: map<string, Player>, ph: map<string, seq<int>>, order: seq<string>, t: AvlTree.Tree,
                name: string, score: int)
    returns (ps': map<string, Player>, ph': map<string, seq<int>>, order': seq<string>, t': AvlTree.Tree)
    requires AvlTree.Valid(t) && AvlTree.KeySet(t) == KeysOf(ps) && Agree(ps, ph) && Covers(order, ps)
    ensures ps' == ps[name := Player(score, NewHistory(ps, name, score), None)]
    ensures ph' == ph[name := NewHistory(ps, name, score)]
    ensures order' == if name in ps then order else order + [name]
    ensures AvlTree.Valid(t') && AvlTree.KeySet(t') == KeysOf(ps') && Agree(ps', ph') && Covers(order', ps')
  {
    var hist := NewHistory(ps, name, score);
    var p := Player(score, hist, None);
    KeysOfSet(ps, name, p);
    AgreeSet(ps, ph, name, p);
    CoversSet(order, ps, name, p);
    t' := t;
    order' := order;
    if name in ps {
      t' := AvlTree.DeleteKey(t', Key(ps[name].score, name));
    } else {
      order' := order + [name];
    }
    t' := AvlTree.InsertKey(t', Key(score, name));
    ps' := ps[name := p];
    ph' := ph[name := hist];
  }

  class Leaderboard {
    var players: map<string, Player>
    var playerHistory: map<string, seq<int>>
    var order: seq<string>
    var tree: AvlTree.Tree

    /**
     * The store invariant: the tree is a valid AVL tree holding exactly one key
     * per player, both maps have the same names and the same history for each,
     * and the key order lists every player once.
     */
    ghost predicate Valid()
      reads this
    {
      AvlTree.Valid(tree) && AvlTree.KeySet(tree) == KeysOf(players) &&
      Agree(players, playerHistory) && Covers(order, players)
    }

    constructor ()
      ensures Valid()
      ensures players == map[] && playerHistory == map[] && order == [] && tree == AvlTree.Leaf
    {
      players := map[];
      playerHistory := map[];
      order := [];
      tree := AvlTree.Leaf;
    }

    /** `avl.toArrayDesc()`. */
    function Listing(): seq<Key>
      reads this
    {
      AvlTree.InOrder(tree)
    }

    /** `[...players]`, as saved and exported. */
    function Export(): seq<(string, Player)>
      reads this
      requires Valid()
    {
      EntriesOf(players, order)
    }

    /** `getAllRanks`: every player's 1-based position in the listing. */
    method GetAllRanks() returns (ranks: map<string, int>)
      requires Valid()
      ensures ranks == RanksOf(Listing())
      ensures ranks.Keys == players.Keys
      ensures forall n :: n in players ==> ranks[n] == 1 + |Better(players, n)|
    {
      ranks := AllRanks(Listing());
      RankSnapshot(tree, players);
    }

    /**
     * `addOrUpdatePlayer`: an empty name changes nothing. Otherwise the
     * player's old key leaves the tree, the record is replaced by one with the
     * new score and the history extended by it (dropping `lastRank`), and the
     * new key enters the tree. A new name goes to the end of the key order.
     * The result is the rank snapshot taken before the change.
     */
    method AddOrUpdate(name: string, score: int) returns (oldRanks: Option<map<string, int>>)
      requires Valid()
      modifies this
      ensures Valid()
      ensures name == "" ==> oldRanks == None && unchanged(this)
      ensures name != "" ==> oldRanks == Some(RanksOf(old(Listing())))
      ensures name != "" ==> players == old(players)[name := Player(score, NewHistory(old(players), name, score), None)]
      ensures name != "" ==> playerHistory == old(playerHistory)[name := NewHistory(old(players), name, score)]
      ensures name != "" ==> order == if name in old(players) then old(order) else old(order) + [name]
      ensures HistoryTracksScore(old(players)) ==> HistoryTracksScore(players)
    {
      if name == "" {
        return None;
      }
      var ranks := AllRanks(Listing());  // `getAllRanks()`
      oldRanks := Some(ranks);
      if HistoryTracksScore(players) {
        HistoryTracksSet(players, name, Player(score, NewHistory(players, name, score), None));
      }
      players, playerHistory, order, tree := Upsert(players, playerHistory, order, tree, name, score);
    }

    /**
     * `removePlayer`: an unknown name changes nothing; otherwise the player's
     * key leaves the tree and the name leaves both maps and the key order.
     */
    method Remove(name: string) returns (found: bool)
      requires Valid()
      modifies this
      ensures Valid()
      ensures found <==> name in old(players)
      ensures !found ==> unchanged(this)
      ensures found ==> players == old(players) - {name} && playerHistory == old(playerHistory) - {name}
      ensures found ==> order == Without(old(order), name)
      ensures HistoryTracksScore(old(players)) ==> HistoryTracksScore(players)
    {
      if name !in players {
        return false;
      }
      KeysOfRemove(players, name);
      AgreeRemove(players, playerHistory, name);
      CoversRemove(order, players, name);
      if HistoryTracksScore(players) {
        HistoryTracksRemove(players, name);
      }
      var t := AvlTree.DeleteKey(tree, Key(players[name].score, name));
      tree := t;
      players := players - {name};
      playerHistory := playerHistory - {name};
      order := Without(order, name);
      return true;
    }

    /**
     * `changeScoreBy`: an unknown name changes nothing; otherwise the player is
     * updated to its score plus `delta`, as `addOrUpdatePlayer` does (which
     * itself ignores the empty name).
     */
    method ChangeScoreBy(name: string, delta: int) returns (oldRanks: Option<map<string, int>>)
      requires Valid()
      modifies this
      ensures Valid()
      ensures name !in old(players) || name == "" ==> oldRanks == None && unchanged(this)
      ensures name in old(players) && name != "" ==>
        var p := old(players)[name];
        var h := NewHistory(old(players), name, p.score + delta);
        h == p.history + [p.score + delta] &&
        oldRanks == Some(RanksOf(old(Listing()))) &&
        players == old(players)[name := Player(p.score + delta, h, None)] &&
        playerHistory == old(playerHistory)[name := h] &&
        order == old(order)
      ensures HistoryTracksScore(old(players)) ==> HistoryTracksScore(players)
    {
      if name !in players {
        return None;
      }
      oldRanks := AddOrUpdate(name, players[name].score + delta);
    }

    /**
     * The bulk load of `loadFromLocal` and `importJSON`: clear both maps and the
     * tree, then for each `[name, obj]` set the record, set the history to the
     * record's own, and insert the key. A repeated name keeps its first place
     * in the key order and its last record, but the tree keeps a key for every
     * pair, so the store is consistent only when the names are distinct.
     */
    method BulkLoad(entries: seq<(string, Player)>)
      modifies this
      ensures players == MapOf(entries) && order == OrderOf(entries)
      ensures AvlTree.Valid(tree) && AvlTree.KeySet(tree) == LoadKeys(entries)
      ensures playerHistory.Keys == players.Keys && forall n :: n in players ==> playerHistory[n] == players[n].history
      ensures NamesDistinct(entries) ==> Valid()
      ensures old(Valid()) && entries == old(EntriesOf(players, order)) ==>
        players == old(players) && order == old(order) && Listing() == old(Listing())
    {
      ghost var valid0 := Valid();
      ghost var ps0, order0, tree0 := players, order, tree;
      var ps, ph, o, t := Load(entries);
      players, playerHistory, order, tree := ps, ph, o, t;
      if NamesDistinct(entries) {
        LoadValid(entries);
      }
      if valid0 && entries == EntriesOf(ps0, order0) {
        ExportLoadListing(ps0, order0, tree0, tree);
      }
    }

    /**
     * The next-round batch: for each name in key order, the player's key leaves
     * the tree, its score moves by that name's delta, the new score is appended
     * to its history, which `playerHistory` records too, and the new key enters
     * the tree. With no players, nothing happens and no snapshot is taken.
     */
    method NextRound(deltas: seq<int>) returns (oldRanks: Option<map<string, int>>)
      requires Valid() && |deltas| == |order|
      modifies this
      ensures Valid()
      ensures oldRanks == if old(order) == [] then None else Some(RanksOf(old(Listing())))
      ensures order == old(order) && players.Keys == old(players).Keys
      ensures forall j :: 0 <= j < |order| ==> players[order[j]] == Bumped(old(players)[order[j]], deltas[j])
      ensures HistoryTracksScore(players)
    {
      var ranks, ps, ph, t := Round(players, playerHistory, tree, order, deltas);
      oldRanks := ranks;
      players, playerHistory, tree := ps, ph, t;
    }

    /**
     * The ranking part of `updateUI`: one row per listed player with its rank,
     * badges and movement against `oldRanks`, and `renderRankMovement`'s write of
     * the current rank into each player's `lastRank`.
     */
    method Refresh(oldRanks: map<string, int>) returns (rows: seq<Row>)
      requires Valid()
      modifies this
      ensures Valid()
      ensures |rows| == |old(Listing())| && forall i :: 0 <= i < |rows| ==> rows[i] == RowAt(old(Listing()), i, oldRanks)
      ensures players.Keys == old(players).Keys
      ensures forall n :: n in players ==> players[n] == old(players)[n].(lastRank := Some(1 + |Better(old(players), n)|))
      ensures tree == old(tree) && order == old(order) && playerHistory == old(playerHistory)
    {
      var s := Listing();
      var r, ps := Ranking(tree, players, playerHistory, order, oldRanks);
      rows, players := r, ps;
      assert Listing() == s;
    }

    /**
     * `renderTopK(Number(value) || 5)` without the list rendering: the top-K
     * selection over the players in key order. A negative count makes the
     * selection throw once there is a player.
     */
    method ShowTopK(k: int) returns (top: Option<seq<Key>>)
      requires Valid()
      ensures top.None? <==> k < 0 && |order| > 0
      ensures top.Some? && k >= 0 ==> |top.value| == TopK.Min(TopKCount(k), |order|)
      ensures top.Some? ==> TopK.NonIncreasing(top.value) && Distinct(top.value)
      ensures top.Some? ==> forall y :: y in top.value ==> y in KeysOf(players)
      ensures top.Some? ==> forall x, y :: x in KeysOf(players) && x !in top.value && y in top.value ==> x.score <= y.score
    {
      var c := Candidates(players, order);
      CandidatesAreKeys(players, order);
      top := TopK.TopK(c, TopKCount(k));
      if top.Some? {
        forall y | y in top.value ensures y in KeysOf(players) {
          assert y in multiset(top.value);
          assert y in c;
        }
        forall x, y | x in KeysOf(players) && x !in top.value && y in top.value ensures x.score <= y.score {
          assert x in Elements(c);
          ExcludedKey(c, top.value, x);
        }
      }
    }

    /**
     * `selectPlayer`: an unknown name changes nothing. Otherwise the panel shows
     * the player's score, its rank, the entries above and below it, and its
     * movement since its `lastRank`, which then becomes the current rank.
     */
    method SelectPlayer(name: string) returns (sel: Option<Selection>)
      requires Valid()
      modifies this
      ensures Valid()
      ensures name !in old(players) ==> sel == None && unchanged(this)
      ensures name in old(players) ==>
        sel.Some? &&
        sel.value.score == old(players)[name].score &&
        sel.value.rank == 1 + |Better(old(players), name)| &&
        1 <= sel.value.rank <= |Listing()| &&
        Listing()[sel.value.rank - 1] == Key(sel.value.score, name) &&
        sel.value.around == Neighbors(Listing(), sel.value.rank - 1) &&
        sel.value.change == Movement(sel.value.rank, OldRankOrCurrent(old(players)[name].lastRank, sel.value.rank)) &&
        players == old(players)[name := old(players)[name].(lastRank := Some(sel.value.rank))]
      ensures tree == old(tree) && order == old(order) && playerHistory == old(playerHistory)
    {
      if name !in players {
        return None;
      }
      var obj := players[name];
      var arr := Listing();
      var idx := IndexOfName(arr, name);
      PositionOfPlayer(tree, players, name);
      var rank := idx + 1;
      var around := Neighbors(arr, idx);
      var change := Movement(rank, OldRankOrCurrent(obj.lastRank, rank));
      SameScoresAndHistories(players, players[name := obj.(lastRank := Some(rank))], playerHistory, order);
      players := players[name := obj.(lastRank := Some(rank))];
      return Some(Selection(obj.score, rank, around, change));
    }
  }
}
