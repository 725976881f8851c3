/**
 * Values behind the leaderboard store: player records, the key set the tree
 * must hold for a players map, the insertion order of a JavaScript `Map`, and
 * the sequence of `[name, record]` pairs that `[...players]` exports and the
 * bulk load reads back.
 */
module Board {
  import opened Wrappers
  import opened Keys
  import opened KeySeq
  import AvlTree

  /** A record of the players map: `{score, history, lastRank}`; a missing `lastRank` is `None`. */
  datatype Player = Player(score: int, history: seq<int>, lastRank: Option<int>)

  // ------------------------------------------------------- tree consistency

  /** The keys the tree holds for a players map: one `(score, name)` per player. */
  function KeysOf(ps: map<string, Player>): set<Key>
  {
    set n | n in ps :: Key(ps[n].score, n)
  }

  /** A key is in the set exactly when its name is a player with that score. */
  lemma KeysOfMember(ps: map<string, Player>, x: Key)
    ensures x in KeysOf(ps) <==> x.name in ps && ps[x.name].score == x.score
  {
    if x.name in ps && ps[x.name].score == x.score {
      assert x == Key(ps[x.name].score, x.name);
    }
  }

  /** No two keys of a players map share a name, so the tree never lists a name twice. */
  lemma KeysOfUniqueNames(ps: map<string, Player>)
    ensures UniqueNames(KeysOf(ps))
  {
    forall a, b | a in KeysOf(ps) && b in KeysOf(ps) && a.name == b.name ensures a == b {
      KeysOfMember(ps, a);
      KeysOfMember(ps, b);
    }
  }

  /** Setting a record replaces the player's old key, if any, by the new one. */
  lemma KeysOfSet(ps: map<string, Player>, name: string, p: Player)
    ensures KeysOf(ps[name := p]) ==
      (if name in ps then KeysOf(ps) - {Key(ps[name].score, name)} else KeysOf(ps)) + {Key(p.score, name)}
  {
    var lhs := KeysOf(ps[name := p]);
    var rhs := (if name in ps then KeysOf(ps) - {Key(ps[name].score, name)} else KeysOf(ps)) + {Key(p.score, name)};
    forall x | x in lhs ensures x in rhs {
      KeysOfMember(ps[name := p], x);
      if x.name != name {
        KeysOfMember(ps, x);
      }
    }
    forall x | x in rhs ensures x in lhs {
      KeysOfMember(ps[name := p], x);
      KeysOfMember(ps, x);
    }
  }

  /** Deleting a player removes exactly its key. */
  lemma KeysOfRemove(ps: map<string, Player>, name: string)
    requires name in ps
    ensures KeysOf(ps - {name}) == KeysOf(ps) - {Key(ps[name].score, name)}
  {
    forall x ensures x in KeysOf(ps - {name}) <==> x in KeysOf(ps) - {Key(ps[name].score, name)} {
      KeysOfMember(ps - {name}, x);
      KeysOfMember(ps, x);
    }
  }

  /** Changing only the `lastRank` fields leaves the keys alone. */
  lemma KeysOfSameScores(ps: map<string, Player>, qs: map<string, Player>)
    requires ps.Keys == qs.Keys && forall n :: n in ps ==> ps[n].score == qs[n].score
    ensures KeysOf(ps) == KeysOf(qs)
  {
    forall x ensures x in KeysOf(ps) <==> x in KeysOf(qs) {
      KeysOfMember(ps, x);
      KeysOfMember(qs, x);
    }
  }

  /** Every history ends with the player's current score. */
  predicate HistoryTracksScore(ps: map<string, Player>)
  {
    forall n :: n in ps ==> |ps[n].history| > 0 && ps[n].history[|ps[n].history| - 1] == ps[n].score
  }

  /** Setting a record whose history ends with its score keeps every history tracking its score. */
  lemma HistoryTracksSet(ps: map<string, Player>, name: string, p: Player)
    requires HistoryTracksScore(ps) && |p.history| > 0 && p.history[|p.history| - 1] == p.score
    ensures HistoryTracksScore(ps[name := p])
  {
    var q := ps[name := p];
    forall n | n in q ensures |q[n].history| > 0 && q[n].history[|q[n].history| - 1] == q[n].score {
      if n != name {
        assert q[n] == ps[n];
      }
    }
  }

  /** Deleting a player keeps every other history tracking its score. */
  lemma HistoryTracksRemove(ps: map<string, Player>, name: string)
    requires HistoryTracksScore(ps)
    ensures HistoryTracksScore(ps - {name})
  {
    var q := ps - {name};
    forall n | n in q ensures |q[n].history| > 0 && q[n].history[|q[n].history| - 1] == q[n].score {
      assert q[n] == ps[n];
    }
  }

  /** `playerHistory` holds the same names as `players`, each with that player's history array. */
  ghost predicate Agree(ps: map<string, Player>, ph: map<string, seq<int>>)
  {
    ph.Keys == ps.Keys && forall n :: n in ps ==> ph[n] == ps[n].history
  }

  /** Setting a record in `players` and its history in `playerHistory` keeps the two in agreement. */
  lemma AgreeSet(ps: map<string, Player>, ph: map<string, seq<int>>, name: string, p: Player)
    requires Agree(ps, ph)
    ensures Agree(ps[name := p], ph[name := p.history])
  {
  }

  lemma AgreeRemove(ps: map<string, Player>, ph: map<string, seq<int>>, name: string)
    requires Agree(ps, ph)
    ensures Agree(ps - {name}, ph - {name})
  {
  }

  // --------------------------------------------------- map insertion order

  /** The key order lists every player once and nothing else. */
  ghost predicate Covers(order: seq<string>, ps: map<string, Player>)
  {
    Distinct(order) && forall n :: n in order <==> n in ps
  }

  /** `Map.prototype.set`: a known key keeps its place, a new one goes last. */
  lemma CoversSet(order: seq<string>, ps: map<string, Player>, name: string, p: Player)
    requires Covers(order, ps)
    ensures Covers(if name in ps then order else order + [name], ps[name := p])
  {
    if name !in ps {
      assert name !in order;
      forall i, j | 0 <= i < j < |order + [name]| ensures (order + [name])[i] != (order + [name])[j] {
        if j == |order| {
          assert (order + [name])[i] == order[i];
        }
      }
    }
  }

  /** `Map.prototype.delete` on the key order: the name goes, the others keep their order. */
  function Without(s: seq<string>, x: string): (r: seq<string>)
    ensures forall y :: y in r <==> y in s && y != x
    ensures Distinct(s) ==> Distinct(r)
    ensures x !in s ==> r == s
  {
    if s == [] then []
    else if s[0] == x then Without(s[1..], x)
    else
      var r := Without(s[1..], x);
      assert Distinct(s) ==> Distinct(s[1..]) && s[0] !in r;
      assert forall i :: 0 < i < |[s[0]] + r| ==> ([s[0]] + r)[i] == r[i - 1];
      [s[0]] + r
  }

  /** Deleting a name from two concatenated key orders deletes it from each part. */
  lemma {:induction false} WithoutConcat(a: seq<string>, b: seq<string>, x: string)
    ensures Without(a + b, x) == Without(a, x) + Without(b, x)
  {
    if a == [] {
      assert a + b == b;
    } else {
      assert (a + b)[0] == a[0] && (a + b)[1..] == a[1..] + b;
      WithoutConcat(a[1..], b, x);
    }
  }

  /** A sequence is its part before `i`, its element at `i` and its part after. */
  lemma SplitAt(s: seq<string>, i: int)
    requires 0 <= i < |s|
    ensures s == s[..i] + ([s[i]] + s[i + 1..])
  {
    assert s[..i] + ([s[i]] + s[i + 1..]) == s[..i + 1] + s[i + 1..];
  }

  /** In a key order without repeats, the name at `i` occurs neither before nor after it. */
  lemma NotElsewhere(s: seq<string>, i: int)
    requires Distinct(s) && 0 <= i < |s|
    ensures s[i] !in s[..i] && s[i] !in s[i + 1..]
  {
    forall j | 0 <= j < i ensures s[..i][j] != s[i] {
      assert s[..i][j] == s[j];
    }
    var after := s[i + 1..];
    forall j | 0 <= j < |after| ensures after[j] != s[i] {
      assert after[j] == s[i + 1 + j];
    }
  }

  /** Deleting a name that occurs once, between `a` and `b`, leaves `a + b`. */
  lemma WithoutSingle(a: seq<string>, x: string, b: seq<string>)
    requires x !in a && x !in b
    ensures Without(a + ([x] + b), x) == a + b
  {
    WithoutConcat(a, [x] + b, x);
    WithoutConcat([x], b, x);
    assert [x][1..] == [];
  }

  /**
   * In a key order without repeats, deleting the name at position `i` leaves
   * every other name where it was relative to the rest.
   */
  lemma WithoutSplice(s: seq<string>, i: int)
    requires Distinct(s) && 0 <= i < |s|
    ensures Without(s, s[i]) == s[..i] + s[i + 1..]
  {
    NotElsewhere(s, i);
    SplitAt(s, i);
    WithoutSingle(s[..i], s[i], s[i + 1..]);
  }

  /** `Map.prototype.delete` keeps the order covering the remaining players. */
  lemma CoversRemove(order: seq<string>, ps: map<string, Player>, name: string)
    requires Covers(order, ps)
    ensures Covers(Without(order, name), ps - {name})
  {
  }

  /** An empty key order covers only the empty map. */
  lemma CoversEmpty(order: seq<string>, ps: map<string, Player>)
    requires Covers(order, ps) && order == []
    ensures ps == map[]
  {
  }

  /** Covering depends only on the names of the map. */
  lemma CoversSameKeys(order: seq<string>, ps: map<string, Player>, qs: map<string, Player>)
    requires Covers(order, ps) && ps.Keys == qs.Keys
    ensures Covers(order, qs)
  {
  }

  /**
   * Changing records without touching their names, scores or histories (only
   * `lastRank`) keeps the keys, the agreement with `playerHistory` and the
   * key order's coverage.
   */
  lemma SameScoresAndHistories(ps: map<string, Player>, qs: map<string, Player>, ph: map<string, seq<int>>, order: seq<string>)
    requires ps.Keys == qs.Keys
    requires forall n :: n in ps ==> qs[n].score == ps[n].score && qs[n].history == ps[n].history
    ensures KeysOf(qs) == KeysOf(ps)
    ensures Agree(ps, ph) ==> Agree(qs, ph)
    ensures Covers(order, ps) ==> Covers(order, qs)
  {
    KeysOfSameScores(ps, qs);
  }

  // ------------------------------------------------- bulk load and export

  /** The `players` map after `players.set(name, obj)` for each pair in turn, starting empty. */
  function MapOf(e: seq<(string, Player)>): map<string, Player>
  {
    if e == [] then map[] else MapOf(e[..|e| - 1])[e[|e| - 1].0 := e[|e| - 1].1]
  }

  /** The `players` key order after the same calls: names in order of first occurrence. */
  function OrderOf(e: seq<(string, Player)>): seq<string>
  {
    if e == [] then []
    else
      var o := OrderOf(e[..|e| - 1]);
      if e[|e| - 1].0 in o then o else o + [e[|e| - 1].0]
  }

  /** The keys the tree holds after `avl.insert(obj.score, name)` for each pair in turn, starting empty. */
  function LoadKeys(e: seq<(string, Player)>): set<Key>
  {
    if e == [] then {} else LoadKeys(e[..|e| - 1]) + {Key(e[|e| - 1].1.score, e[|e| - 1].0)}
  }

  /** No name occurs twice among the pairs. */
  predicate NamesDistinct(e: seq<(string, Player)>)
  {
    forall i, j :: 0 <= i < j < |e| ==> e[i].0 != e[j].0
  }

  /** Loading one more pair sets its record, appends a new name to the order and inserts its key. */
  lemma LoadNext(e: seq<(string, Player)>, i: int)
    requires 0 <= i < |e|
    ensures MapOf(e[..i + 1]) == MapOf(e[..i])[e[i].0 := e[i].1]
    ensures OrderOf(e[..i + 1]) == if e[i].0 in OrderOf(e[..i]) then OrderOf(e[..i]) else OrderOf(e[..i]) + [e[i].0]
    ensures LoadKeys(e[..i + 1]) == LoadKeys(e[..i]) + {Key(e[i].1.score, e[i].0)}
  {
    assert e[..i + 1][..i] == e[..i];
  }

  /** The map and the order hold exactly the names of the pairs, the order without repetition. */
  lemma {:induction false} LoadedNames(e: seq<(string, Player)>)
    ensures Distinct(OrderOf(e))
    ensures forall n :: n in OrderOf(e) <==> n in MapOf(e)
    ensures forall i :: 0 <= i < |e| ==> e[i].0 in MapOf(e)
  {
    if e != [] {
      var p := e[..|e| - 1];
      LoadedNames(p);
      forall i | 0 <= i < |p| ensures p[i] == e[i] { }
    }
  }

  /** A name that no pair carries is not in the loaded map. */
  lemma {:induction false} MapOfAbsent(e: seq<(string, Player)>, n: string)
    requires forall i :: 0 <= i < |e| ==> e[i].0 != n
    ensures n !in MapOf(e)
  {
    if e != [] {
      MapOfAbsent(e[..|e| - 1], n);
    }
  }

  /** Without repeated names, the loaded keys are exactly the keys of the loaded map. */
  lemma {:induction false} LoadConsistent(e: seq<(string, Player)>)
    requires NamesDistinct(e)
    ensures LoadKeys(e) == KeysOf(MapOf(e))
  {
    if e != [] {
      var p := e[..|e| - 1];
      var last := e[|e| - 1];
      assert NamesDistinct(p);
      LoadConsistent(p);
      MapOfAbsent(p, last.0);
      KeysOfSet(MapOf(p), last.0, last.1);
    }
  }

  /** `[...players]`: the pairs of the map in key order. */
  function EntriesOf(ps: map<string, Player>, order: seq<string>): (e: seq<(string, Player)>)
    requires forall n :: n in order ==> n in ps
    ensures |e| == |order|
    ensures forall i :: 0 <= i < |order| ==> e[i] == (order[i], ps[order[i]])
  {
    if order == [] then [] else EntriesOf(ps, order[..|order| - 1]) + [(order[|order| - 1], ps[order[|order| - 1]])]
  }

  /** The pairs of a part of the order load back to the players of that part. */
  lemma {:induction false} ExportLoadMap(ps: map<string, Player>, order: seq<string>)
    requires forall n :: n in order ==> n in ps
    ensures forall n :: n in MapOf(EntriesOf(ps, order)) <==> n in order
    ensures forall n :: n in MapOf(EntriesOf(ps, order)) ==> MapOf(EntriesOf(ps, order))[n] == ps[n]
  {
    if order != [] {
      var q := order[..|order| - 1];
      var last := order[|order| - 1];
      ExportLoadMap(ps, q);
      var e := EntriesOf(ps, order);
      assert e[..|e| - 1] == EntriesOf(ps, q);
      assert order == q + [last];
    }
  }

  /** The pairs of a part of the order without repetitions load back to that order. */
  lemma {:induction false} ExportLoadOrder(ps: map<string, Player>, order: seq<string>)
    requires Distinct(order) && forall n :: n in order ==> n in ps
    ensures OrderOf(EntriesOf(ps, order)) == order
  {
    if order != [] {
      var q := order[..|order| - 1];
      assert Distinct(q);
      ExportLoadOrder(ps, q);
      var e := EntriesOf(ps, order);
      assert e[..|e| - 1] == EntriesOf(ps, q);
      assert order[|order| - 1] !in q;
    }
  }

  lemma SameMap(a: map<string, Player>, b: map<string, Player>)
    requires forall n :: n in a <==> n in b
    requires forall n :: n in a ==> a[n] == b[n]
    ensures a == b
  {
  }

  lemma EntriesNamesDistinct(ps: map<string, Player>, order: seq<string>)
    requires Distinct(order) && forall n :: n in order ==> n in ps
    ensures NamesDistinct(EntriesOf(ps, order))
  {
    var e := EntriesOf(ps, order);
    forall i, j | 0 <= i < j < |e| ensures e[i].0 != e[j].0 {
      assert e[i].0 == order[i] && e[j].0 == order[j];
    }
  }

  /**
   * Export followed by bulk load restores the map, its key order and the tree's
   * keys, so the listing is the same after the round trip.
   */
  lemma ExportLoadRoundTrip(ps: map<string, Player>, order: seq<string>)
    requires Distinct(order) && forall n :: n in order <==> n in ps
    ensures MapOf(EntriesOf(ps, order)) == ps
    ensures OrderOf(EntriesOf(ps, order)) == order
    ensures LoadKeys(EntriesOf(ps, order)) == KeysOf(ps)
  {
    var e := EntriesOf(ps, order);
    ExportLoadMap(ps, order);
    ExportLoadOrder(ps, order);
    SameMap(MapOf(e), ps);
    EntriesNamesDistinct(ps, order);
    LoadConsistent(e);
  }

  /** Loading pairs with distinct names gives one key per player and a key order covering the map. */
  lemma LoadValid(e: seq<(string, Player)>)
    requires NamesDistinct(e)
    ensures LoadKeys(e) == KeysOf(MapOf(e))
    ensures Covers(OrderOf(e), MapOf(e))
  {
    LoadConsistent(e);
    LoadedNames(e);
  }

  /** Loading what a consistent store exports restores its map, its key order and its listing. */
  lemma ExportLoadListing(ps: map<string, Player>, order: seq<string>, t: AvlTree.Tree, u: AvlTree.Tree)
    requires AvlTree.Valid(t) && AvlTree.KeySet(t) == KeysOf(ps) && Covers(order, ps)
    requires AvlTree.Valid(u) && AvlTree.KeySet(u) == LoadKeys(EntriesOf(ps, order))
    ensures MapOf(EntriesOf(ps, order)) == ps
    ensures OrderOf(EntriesOf(ps, order)) == order
    ensures AvlTree.InOrder(u) == AvlTree.InOrder(t)
  {
    ExportLoadRoundTrip(ps, order);
    AvlTree.SameKeysSameListing(u, t);
  }
}
