/**
 * The history arrays as the original actually shares them. A player record
 * holds its history array, and `playerHistory` holds for that name either the
 * very same array or a separate array with the same contents:
 *
 * - updating a known player puts one new array `hist` into both maps;
 * - adding a new player (and seeding the demo data) builds two separate
 *   arrays `[score]`;
 * - the next-round loop only appends to the record's array with
 *   `obj.history.push(newScore)`, which `playerHistory` sees only when it
 *   holds the same array.
 *
 * `Histories` records which names share their array. The rest of the model
 * follows the evidently intended behaviour instead, in which `playerHistory`
 * always holds the player's own history (`Board.Agree`, kept by every store
 * operation).
 */
module Sharing {
  import opened Wrappers
  import opened Board
  import Store

  /** Both maps, and the names whose `playerHistory` entry is the record's own array. */
  datatype Histories = Histories(players: map<string, Player>, playerHistory: map<string, seq<int>>, shared: set<string>)

  /**
   * What does hold as written: the same names, shared arrays agree, and every
   * `playerHistory` entry is a prefix of the player's history (it may miss the
   * scores of the later rounds).
   */
  predicate Stale(h: Histories)
  {
    h.playerHistory.Keys == h.players.Keys && h.shared <= h.players.Keys &&
    (forall n :: n in h.shared ==> h.playerHistory[n] == h.players[n].history) &&
    (forall n :: n in h.players ==> h.playerHistory[n] <= h.players[n].history)
  }

  /**
   * `addOrUpdatePlayer(name, score)` on the histories, as written: a known
   * player's new array goes into both maps; a new player gets two separate
   * one-element arrays.
   */
  function AddAsWritten(h: Histories, name: string, score: int): (r: Histories)
    ensures r.players == h.players[name := Player(score, Store.NewHistory(h.players, name, score), None)]
    ensures r.playerHistory == h.playerHistory[name := Store.NewHistory(h.players, name, score)]
    ensures name in r.shared <==> name in h.players
  {
    var hist := Store.NewHistory(h.players, name, score);
    Histories(h.players[name := Player(score, hist, None)], h.playerHistory[name := hist],
              if name in h.players then h.shared + {name} else h.shared - {name})
  }

  /**
   * One step of the next-round loop, as written: the record's score moves by
   * `delta` and its array grows by the new score; `playerHistory` changes only
   * when it holds that same array.
   */
  function BumpAsWritten(h: Histories, name: string, delta: int): (r: Histories)
    requires name in h.players
    ensures r.players == h.players[name := Store.Bumped(h.players[name], delta)]
    ensures name in h.shared ==> r.playerHistory == h.playerHistory[name := r.players[name].history]
    ensures name !in h.shared ==> r.playerHistory == h.playerHistory
    ensures r.shared == h.shared
  {
    var p := Store.Bumped(h.players[name], delta);
    Histories(h.players[name := p],
              if name in h.shared then h.playerHistory[name := p.history] else h.playerHistory,
              h.shared)
  }

  /** Adding a player keeps the weaker as-written invariant. */
  lemma AddKeepsStale(h: Histories, name: string, score: int)
    requires Stale(h)
    ensures Stale(AddAsWritten(h, name, score))
  {
  }

  /** A round step keeps the weaker as-written invariant: an unshared entry falls one score behind. */
  lemma BumpKeepsStale(h: Histories, name: string, delta: int)
    requires Stale(h) && name in h.players
    ensures Stale(BumpAsWritten(h, name, delta))
  {
    var r := BumpAsWritten(h, name, delta);
    forall n | n in r.players ensures r.playerHistory[n] <= r.players[n].history {
      if n == name && name !in h.shared {
        assert h.playerHistory[n] <= h.players[n].history;
        assert r.players[n].history == h.players[n].history + [h.players[n].score + delta];
      }
    }
  }

  /** For a name whose array is shared, the as-written step keeps the two maps in agreement. */
  lemma SharedBumpAgrees(h: Histories, name: string, delta: int)
    requires Agree(h.players, h.playerHistory) && name in h.players && name in h.shared
    ensures var r := BumpAsWritten(h, name, delta); Agree(r.players, r.playerHistory)
  {
  }

  /**
   * Adding a new player and playing one round: the record's history is
   * `[10, 13]`, but `playerHistory` (which the score-history chart reads)
   * still holds `[10]`.
   */
  lemma NewPlayerHistoryGoesStale()
    ensures var h := BumpAsWritten(AddAsWritten(Histories(map[], map[], {}), "Amy", 10), "Amy", 3);
      h.players["Amy"].history == [10, 13] && h.playerHistory["Amy"] == [10] && !Agree(h.players, h.playerHistory)
  {
    var h0 := Histories(map[], map[], {});
    var h1 := AddAsWritten(h0, "Amy", 10);
    assert h1.players["Amy"].history == [10] && "Amy" !in h1.shared;
    var h2 := BumpAsWritten(h1, "Amy", 3);
    assert h2.players["Amy"].history == [10, 13];
    assert h2.playerHistory["Amy"] == [10];
  }
}
