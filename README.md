# Dynamic Leaderboard — a verified model of the ranking engine

This project models the core of the Dynamic Leaderboard page (`script.js`) in Dafny. The page keeps a
`players` map (name → `{score, history, lastRank}`) and a `playerHistory` map (name → scores).
Beside them it keeps an AVL tree of (score, name) keys. The tree orders keys by score descending
and, for equal scores, by name ascending. Its in-order listing (`toArrayDesc`) is the leaderboard.
On top of that store the page:
- computes a rank snapshot (`getAllRanks`);
- renders the table rows with badges (`badgeFor`) and rank movement (`renderRankMovement`), and
  stamps each player's `lastRank`;
- selects the top K players with a bounded min-heap (`renderTopK`);
- shows a selected player's rank, neighbours and movement (`selectPlayer`);
- plays a "next round" that moves every score by a delta;
- saves, loads, exports and imports the players as `[name, record]` pairs.

The model is split into modules by the program's own structure:

- `Keys` (keys.dfy): the (score, name) key and the comparator `cmp`. The comparator is proved to be
  a strict total order.
- `KeySeq` (keyseq.dfy): facts about sorted key sequences, and `findIndex` by name.
- `AvlTree` (avl.dfy): the AVL tree as an inductive value, because `_insert` and `_delete` return
  the new subtree root, which the caller stores back. The rotations, `_insert` and `_delete` (with
  their rebalancing tails) are functions. `_minValueNode` and `rankOf` are loop methods. `insert` and
  `delete` are root-update methods. `Insert`, `Delete`, `InsertFix`, `DeleteFix` and `RemoveRoot`
  are proved to return a valid AVL tree (order, stored heights, balance) with the exact key set.
  The rotations keep the listing and the keys, and give a valid tree in the four rebalancing
  cases. The listing is proved sorted.
- `Heap` (heap.dfy): `MinHeap` as a class whose `data` sequence the methods reassign. It has the
  sift-up and sift-down loops.
- `TopK` (topk.dfy): the `renderTopK` selection loop, the drain loop and the reversal.
- `Ranks` (ranks.dfy): the rank snapshot and its loop, badges, rank movement, and the neighbour
  lookup of `selectPlayer`.
- `Board` (board.dfy): player records, the key set the tree must hold, the insertion order of a
  JavaScript `Map`, and the export/bulk-load round trip.
- `Store` (store.dfy): the store class `Leaderboard`, with fields `players`, `playerHistory`,
  `order` (the `Map` key order) and `tree`. It has the value-level loop methods of next round,
  `updateUI` and bulk load. Every operation except a bulk load with repeated names keeps the
  invariant `Valid()`: the tree is a valid AVL
  tree whose keys are exactly one (score, name) per player, both maps hold the same names with the
  same histories, and `order` lists every player exactly once.
- `Sharing` (sharing.dfy): how the original actually shares history arrays between the two maps
  (see Findings).

## Model

| member | source | states |
|---|---|---|
| Keys.NameCompare | script.js:31 | the name comparison yields -1, 0 or 1 |
| Keys.NameCompareZero | script.js:31 | names compare equal exactly when they are the same string |
| Keys.Cmp | script.js:31 | `cmp`: the score difference `s2 - s1` when the scores differ, otherwise the name comparison; its meaning is stated by `Keys.CmpNegative`, `Keys.CmpZero` and `Keys.CmpFlip` |
| Keys.CmpNegative | script.js:31 | a key comes first exactly when its score is higher, or the score is equal and the name smaller |
| Keys.CmpZero | script.js:31 | `cmp` is zero exactly on identical (score, name) keys, which is when `_insert` keeps the node and `_delete` removes it |
| Keys.CmpFlip | script.js:31 | a positive `cmp` means the second key comes first, a negative one the first |
| Keys.BeforeIsStrictTotalOrder | script.js:31 | leaderboard order is irreflexive, asymmetric, transitive and total on distinct keys |
| Keys.EqualScoresByName | script.js:31 | at equal scores "Amy" ranks before "Bob" |
| AvlTree.Height | script.js:27 | `height(n)`: the stored height, 0 for an empty subtree (a definition, no contract of its own) |
| AvlTree.MakeNode | script.js:28 | a node with `updateHeight` applied: one more than the taller child (a definition, no contract of its own) |
| AvlTree.RotateRight | script.js:29 | the left child becomes the root, with the same listing and the same keys |
| AvlTree.RotateLeft | script.js:30 | the right child becomes the root, with the same listing and the same keys |
| AvlTree.RotateRightValid | script.js:29 | a right rotation of a node left-heavy by two yields a valid AVL tree, one level shorter unless the left child was even |
| AvlTree.RotateLeftValid | script.js:30 | the mirror image for a right-heavy node |
| AvlTree.RotateLeftRightValid | script.js:42 | rotating the left child left and then the node right repairs a left-right imbalance and shortens the tree by one |
| AvlTree.RotateRightLeftValid | script.js:43 | rotating the right child right and then the node left repairs a right-left imbalance and shortens the tree by one |
| AvlTree.InsertFix | script.js:38-44 | the four rotation cases of `_insert` yield a valid AVL tree with the same keys and listing; a balanced node is returned unchanged, and a rotated one is one level shorter |
| AvlTree.Insert | script.js:32-45 | `_insert` yields a valid AVL tree holding the old keys plus the new one, at most one level taller; an equal key present leaves the tree as it is |
| AvlTree.InsertedLeft | script.js:35 | after inserting into the left subtree, the node meets the rotation cases' precondition, has the right key set and grows by at most one |
| AvlTree.InsertedRight | script.js:36 | the same after inserting into the right subtree |
| AvlTree.MinKey | script.js:47 | the leftmost key is a key of the subtree |
| AvlTree.MinKeyIsLeast | script.js:47 | the leftmost key precedes every other key of a search tree |
| AvlTree.MinValueNode | script.js:47 | walking left returns the leftmost key |
| AvlTree.DeleteFix | script.js:61-68 | the height update and the four rotation cases of `_delete` yield a valid AVL tree with the same keys and listing, at most one level shorter |
| AvlTree.Delete | script.js:48-69 | `_delete` yields a valid AVL tree holding the old keys minus the given one, at most one level shorter; an absent key leaves the tree as it is |
| AvlTree.RemoveRoot | script.js:53-60 | removing a node's own key, by its only child or by moving up the right minimum, yields a valid AVL tree without that key |
| AvlTree.DeletedLeft | script.js:51 | deleting in the left subtree and rebalancing gives the tree without the key, unchanged when the key is absent |
| AvlTree.DeletedRight | script.js:52 | the same for the right subtree |
| AvlTree.ReplacedByChild | script.js:54 | a node with at most one child is replaced by that child, which is valid and lacks only the node's key |
| AvlTree.DeletedMin | script.js:56-58 | moving the right minimum into a node with two children and deleting it below keeps the order and removes exactly the old key |
| AvlTree.InsertKey | script.js:46 | `insert` leaves a valid AVL tree holding the old keys and the new one |
| AvlTree.DeleteKey | script.js:70 | `delete` leaves a valid AVL tree holding the old keys minus that one |
| AvlTree.InOrder | script.js:72-77 | `toArrayDesc`: left subtree, node, right subtree (a definition; `AvlTree.InOrderSorted` states its order and contents) |
| AvlTree.InOrderSorted | script.js:72-77 | the listing of a search tree is strictly sorted in leaderboard order and lists exactly its keys |
| AvlTree.SameKeysSameListing | script.js:72-77 | two search trees with the same keys have the same listing, whatever their shapes |
| AvlTree.RankOf | script.js:78 | `rankOf` is -1 exactly when no listed entry has the name, otherwise the 1-based position of its first entry |
| AvlTree.RankCountsBefore | script.js:78 | with unique names, a key's position in the listing is the number of keys that precede it |
| KeySeq.IndexOfName | script.js:281 | `findIndex` returns the first index holding the name, or -1 when none does |
| KeySeq.SortedUnique | script.js:72-77 | a strictly sorted sequence is determined by its elements |
| KeySeq.SortedCountBefore | script.js:78 | in a sorted listing, the keys before position i are exactly the keys preceding its entry, and there are i of them |
| Heap.Swap | script.js:91 | the destructuring swap exchanges two positions and keeps the contents |
| Heap.HeapRootIsMinAll | script.js:88 | in a heap the root has the minimal score |
| Heap.MinHeap.constructor | script.js:86 | a new heap is empty |
| Heap.MinHeap.Size | script.js:87 | `size()`: the number of stored pairs (a definition, no contract of its own) |
| Heap.MinHeap.Top | script.js:88 | `top()` is a pair of minimal score |
| Heap.MinHeap.Push | script.js:89 | `push` keeps the heap property and adds the pair to the contents |
| Heap.MinHeap.Pop | script.js:90 | `pop` returns null on an empty heap, otherwise the root, a pair of minimal score, removing exactly it and keeping the heap property |
| Heap.MinHeap.SiftUp | script.js:91 | sifting up repairs the one broken edge and keeps the contents |
| Heap.MinHeap.SiftDown | script.js:92 | sifting down repairs the broken edges below a slot and keeps the contents |
| Heap.SiftDownStep | script.js:92 | one swap with the smaller child moves the defect one level down |
| TopK.Offer | script.js:202-203 | one step of the selection: with room, the pair is pushed and nothing is excluded; on a full heap, a pair scoring strictly above the root (a minimum) evicts that root, and any other pair is itself excluded, so the contents are old − {root} + {pair} or unchanged; every excluded pair scores no higher than every kept one |
| TopK.Fill | script.js:199-204 | after the loop the heap holds min(k, n) of the pairs, and the excluded ones score no higher than every kept one |
| TopK.Drain | script.js:206 | popping until empty yields the heap's contents in non-decreasing score order |
| TopK.Reverse | script.js:207 | `reverse` puts element i at position n-1-i |
| TopK.ReverseMultiset | script.js:207 | reversing keeps the contents |
| TopK.TopK | script.js:198-207 | the result holds min(k, n) pairs drawn from the players, highest score first, with no excluded pair scoring higher than a kept one; with k < 1 and a player it fails |
| Ranks.BadgeFor | script.js:171-179 | each placement badge is given exactly for its ranks, and the climber badge exactly when a truthy old rank is at least three places worse, always last; there is one badge per condition met, so no badge appears twice |
| Ranks.PlacementBadges | script.js:173-176 | ranks 1 to 10 get exactly one placement badge, worse ranks none |
| Ranks.FastClimberExample | script.js:177 | climbing from 5th to 2nd yields Top 2 and Fast Climber; moving from 14th to 12th yields no badge |
| Ranks.OldRankOrCurrent | script.js:239 | a falsy old rank defaults to the current rank |
| Ranks.Movement | script.js:220-224 | the change is up or down by a positive number of places, or unchanged |
| Ranks.MovementOrigin | script.js:220-224 | the movement and the rank it started from are inverse to each other |
| Ranks.NoHistoryNoMovement | script.js:285-288 | a player without a prior rank, or at its prior rank, shows no movement |
| Ranks.MovementExample | script.js:285-288 | 5th to 2nd gains three places, 1st to 4th loses three |
| Ranks.RanksOf | script.js:313 | the `ranks` object of `getAllRanks`: each listed name at its 1-based position, a later entry overwriting an earlier one (a definition; `Ranks.RanksOfLast` states its meaning) |
| Ranks.RanksOfLast | script.js:313 | the snapshot maps exactly the listed names, each to a position holding that name and not before any of its other positions |
| Ranks.AllRanks | script.js:313 | the `getAllRanks` loop computes the snapshot of the listing |
| Ranks.RanksOfIndex | script.js:313 | with unique names, a name is in the snapshot exactly when `findIndex` finds it, at that index plus one |
| Ranks.Neighbors | script.js:283-284 | there is an entry above exactly when the index is positive, and one below exactly when it is not the last, each taken from the adjacent slot |
| Ranks.NeighborsAdjacent | script.js:283-284 | in the sorted listing the neighbours are the immediate predecessor and successor; a missing one means the player is first or last |
| Board.KeysOfSet | script.js:134-145 | setting a record trades the player's old key, if any, for its new key |
| Board.KeysOfRemove | script.js:154-155 | removing a player removes exactly its key |
| Board.CoversSet | script.js:138 | `Map.set` keeps a known name's place in the key order and appends a new one |
| Board.Without | script.js:155 | `Map.delete` on the key order: exactly the other names remain, without repeats when there were none, and an absent name changes nothing |
| Board.WithoutConcat | script.js:155 | deleting a name from two concatenated key orders deletes it from each part |
| Board.WithoutSplice | script.js:155 | with no repeated names, deleting the name at position i leaves the names before and after it in their order |
| Board.LoadConsistent | script.js:122 | loading pairs with distinct names inserts exactly the keys of the loaded map |
| Board.LoadValid | script.js:122 | loading pairs with distinct names gives one key per player and a key order listing every player once |
| Board.EntriesOf | script.js:118 | `[...players]` is the pairs of the map in key order |
| Board.ExportLoadRoundTrip | script.js:118-122 | loading what a consistent store saved restores its map, its key order and its tree's keys |
| Board.ExportLoadListing | script.js:118-122 | after that round trip the leaderboard listing is the same |
| Store.Lookup | script.js:239 | `oldRanks[name]` is present exactly for the names of the snapshot |
| Store.NewHistory | script.js:137 | a known player's history gains the new score; a new player's history is just that score |
| Store.Bumped | script.js:357-360 | a round moves the score by the delta, appends the new score to the history and keeps `lastRank` |
| Store.TopKCount | script.js:249 | a count of 0 falls back to 5, any other count is kept, so the count is never 0 |
| Store.Candidates | script.js:200-201 | the top-K loop visits each player's (score, name) pair in key order |
| Store.CandidatesAreKeys | script.js:200-201 | over the whole key order the candidates are the players' keys, each once |
| Store.ListingNames | script.js:232 | the listing of a consistent store names every player and only players, each once, under its current score |
| Store.PositionOfPlayer | script.js:281 | a player's index in the listing is the number of players ranked ahead of it |
| Store.RankSnapshot | script.js:313 | the snapshot holds exactly the players, each at one more than the number of players ahead of it |
| Store.BumpAllAt | script.js:353-363 | with distinct names, each name processed so far was bumped once by its own delta and the others are untouched |
| Store.BumpAllRound | script.js:353-363 | after a whole round every player was bumped once by its delta, and every history ends with its score |
| Store.BumpOne | script.js:355-362 | one step of the round swaps the player's key in the tree and keeps tree, maps and histories consistent |
| Store.Bump | script.js:353-363 | the round's loop computes the bumped map and keeps the store consistent |
| Store.Round | script.js:344-363 | with no players nothing happens; otherwise the snapshot is taken first and every player is bumped by its delta, consistently |
| Store.RowAt | script.js:233-239 | the table row `updateUI` builds for the entry at a position: rank, name, score, badges and movement (a definition; `Store.RankRows` states the rows) |
| Store.Stamp | script.js:220 | the players after `renderRankMovement` stamped the first idx listed players; the names stay the same (the stamps are stated by `Store.StampAt`) |
| Store.StampAt | script.js:220 | stamping the first idx listed players gives each of them its 1-based position as `lastRank` and leaves the others |
| Store.StampListing | script.js:233-239 | stamping the whole listing gives every player `lastRank` one more than the number of players ahead of it, and changes nothing else |
| Store.RankRows | script.js:233-239 | `updateUI` builds one row per listed entry, with rank, badges and movement, and stamps the ranks |
| Store.Ranking | script.js:231-239 | the rows of the listing and the stamped players; the store stays consistent |
| Store.Load | script.js:121-122 | the bulk-load loop yields the map and key order of the pairs, and a valid tree holding each pair's key |
| Store.Upsert | script.js:133-147 | the record and history are replaced, a new name goes last in the key order, and the store stays consistent |
| Store.Leaderboard.constructor | script.js:9-10 | a new store is empty |
| Store.Leaderboard.Listing | script.js:73-77 | `avl.toArrayDesc()` of the store's tree (a definition; sorted by `AvlTree.InOrderSorted`) |
| Store.Leaderboard.Export | script.js:118 | `[...players]` of the store: its entries in key order (a definition; `Board.ExportLoadRoundTrip` states the round trip) |
| Store.Leaderboard.GetAllRanks | script.js:313 | `getAllRanks` gives exactly the players, each one more than the number ahead of it |
| Store.Leaderboard.AddOrUpdate | script.js:129-148 | an empty name changes nothing; otherwise the snapshot is taken before the change, and the record, history and key order are updated consistently |
| Store.Leaderboard.Remove | script.js:151-156 | an unknown name changes nothing; otherwise the name leaves both maps, the key order and the tree |
| Store.Leaderboard.ChangeScoreBy | script.js:159 | an unknown name changes nothing; otherwise the player is re-added at its score plus the delta, keeping its place in the key order |
| Store.Leaderboard.BulkLoad | script.js:119-122 | the store becomes the loaded map, key order and keys; it is consistent when names are distinct, and loading what it saved restores map, order and listing |
| Store.Leaderboard.NextRound | script.js:344-366 | every player is bumped by its delta in key order; the snapshot is taken first unless there are no players |
| Store.Leaderboard.Refresh | script.js:231-247 | one row per listed player, and every player's `lastRank` becomes its rank; scores, histories, order and tree stay |
| Store.Leaderboard.ShowTopK | script.js:198-207 | the top min(K, n) players by score, highest first, each once; no player left out scores higher; a negative K fails once there is a player |
| Store.Leaderboard.SelectPlayer | script.js:279-289 | an unknown name changes nothing; otherwise score, rank, the entries above and below, and the movement since `lastRank`, which becomes the rank |
| Sharing.AddAsWritten | script.js:133-147 | as written, a known player shares one new history array between the maps, a new player gets two separate ones |
| Sharing.BumpAsWritten | script.js:355-361 | as written, a round step appends only to the record's array; `playerHistory` changes only when it shares that array |
| Sharing.AddKeepsStale | script.js:133-147 | adding keeps the weaker as-written invariant: `playerHistory` entries are prefixes of the histories |
| Sharing.BumpKeepsStale | script.js:355-361 | a round step keeps that weaker invariant |
| Sharing.SharedBumpAgrees | script.js:139 | for a name whose array is shared, the as-written step keeps both maps in agreement |
| Sharing.NewPlayerHistoryGoesStale | script.js:143-144 | adding "Amy" at 10 and playing a round of +3 leaves her history at [10, 13] but `playerHistory` at [10] |

## Left out

- The page itself is not modelled: DOM rendering, the table markup, `renderTop3`, the highlight, the
  search filter, the avatar preview, toasts, `alert` and `confirm`, and the Chart.js charts.
- `computeStats` is left out: its average uses floating-point division and `Math.round`.
- `localStorage`, `JSON.stringify`/`JSON.parse`, `FileReader` and the download link are left out.
  Saving and exporting are modelled as the pair sequence `[...players]` (`Board.EntriesOf`).
  Loading and importing are modelled as the bulk load of such a sequence (`BulkLoad`). A parse error
  is outside the model.
- `Math.random` in the next round becomes the parameter `deltas`, one per name in key order. The
  source draws each from -10 to 10; the model does not restrict the range.
- `Number(score) || 0` and `Number(value) || 5` coercions from text are left out. Scores and counts
  are integers, and only the `|| 5` fallback for a zero count is kept (`TopKCount`).
- `localeCompare` is replaced by a comparison of character codes (`Keys.NameCompare`), because
  locale collation has no model here.
- A loaded record always carries a history, so the `obj.history || [obj.score]` fallback and the
  `(old.history || [])` fallback are not modelled.
- `seedData`, the reset button, and the composition of `updateUI` after each operation (which calls
  `Refresh`, `ShowTopK` and the save in turn) are left out. `AddOrUpdate`, `ChangeScoreBy` and `NextRound` return the
  snapshot `updateUI` receives. `Remove` and `BulkLoad` return none, because the source calls
  `updateUI()` with the default empty snapshot after them.
- `exportJSON`'s link and `showPlayerModal` are left out as pure display.
- The unreachable `if(!obj) return;` of the next-round loop is left out. Every name of the key order
  is a player.
- AvlTree.InsertKey: states the new root's validity and key set, not the exact node shape built by `_insert`. The shape is modelled by `AvlTree.Insert`.
- AvlTree.DeleteKey: states the new root's validity and key set, not the exact node shape built by `_delete`. The shape is modelled by `AvlTree.Delete`.
- Store.Leaderboard.AddOrUpdate: states the tree through `Valid()` (exactly the players' keys, hence the listing), not its exact shape.
- Store.Leaderboard.Remove: states the tree through `Valid()`, not its exact shape.
- Store.Leaderboard.ChangeScoreBy: states the tree through `Valid()`, not its exact shape.
- Store.Leaderboard.NextRound: states the tree through `Valid()`, not its exact shape.
- Store.Leaderboard.BulkLoad: states the tree by its key set, not its exact shape.
- TopK.TopK: among pairs of equal score, which are kept depends on the iteration order and the heap layout; the contract does not say which.
- Store.Leaderboard.ShowTopK: the same tie caveat as `TopK.TopK`.
- Ranks.AllRanks: the snapshot is a plain JavaScript object (`const ranks={}`), modelled as a map.
  The one name for which they differ is `__proto__`, which the add form accepts: assigning a
  number to it goes to `Object.prototype`'s setter and is dropped, so the source's snapshot has no
  entry for that player. The model gives it its rank like any other name.
- Store.Leaderboard.GetAllRanks: the same `__proto__` caveat; the model's snapshot holds every
  player, including one named `__proto__`.
- Store.Lookup: `oldRanks["__proto__"]` yields `Object.prototype`, not `undefined`, so such a player
  never shows a movement or the Fast Climber badge in the source (`oldRank - currentRank` is NaN).
  The model treats the name like any other. Other inherited names such as `toString` show the same
  "—" as an absent entry, as the model does.
- With repeated names, a bulk load leaves a key in the tree for every distinct (score, name) pair, so the listing shows a
  name more than once. The model states the loaded keys (`LoadKeys`) and claims consistency only
  for distinct names. Every later store operation except `BulkLoad` requires `Valid()`, so the
  model says nothing about using the store after such a load, although the source keeps working.

## Findings

| source | as written | input that shows it | evidently intended | confidence | as-written member | corrected member |
|---|---|---|---|---|---|---|
| script.js:143-144 | a new player gets two separate `[score]` arrays in `players` and `playerHistory`, and the next round only does `obj.history.push(newScore)`, so `playerHistory` misses every later round (the same holds for `seedData`) | add "Amy" at 10, then a round with delta +3: the record's history is [10, 13], while `playerHistory` (read by the score chart) is [10] | `playerHistory` holds each player's history, as it does after an update | high, not executed | Sharing.NewPlayerHistoryGoesStale | Store.BumpOne |

The store model follows the intended behaviour. Each round step also records the new history in
`playerHistory`, so `Board.Agree` holds after every operation. This is proved by `Store.BumpOne`
and kept in `Store.Leaderboard.Valid`.
