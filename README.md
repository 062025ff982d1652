# snipez server core, modelled in Dafny

This project models the server of the snipez maze shooter (`server/server.c`).
The model covers these parts:

- **Maze generation** in `create_game`:
  - the all-ones wall bitmaps;
  - the random scramble of the wall indices;
  - the candidate walls threaded into the intrusive doubly-linked list in `tmp_walls`;
  - the disjoint sets kept as `set_number` labels plus `next_in_set` rings;
  - the merge loop, which renumbers the higher set, removes walls that now separate cells of one set (`remove_tmp_wall`), and splices the two rings.
- **The occupancy query** `get_occupancy`.
- **Placing a new user** on a random empty tile (`create_user`).
- **Rendering arithmetic**:
  - `int_div`;
  - the view window and the wrap mapping of `create_user_update`;
  - the grow-by-doubling `append_element_json`.
- **The game registry**:
  - `find_game` and `find_user`;
  - the serve-or-park decision of `handle_update_game`.

Each file is one module:

| file | module | contents |
|---|---|---|
| `util.dfy` | `Util` | Option, bytes, 32-bit conversions, first-match search, arithmetic helpers |
| `random.dfy` | `Random` | `random_int_range` |
| `scramble.dfy` | `Scramble` | `swap_ints` and the scramble loop, proved to produce a permutation |
| `maze_walls.dfy` | `MazeWalls` | wall and cell geometry, the candidate filter, the main loop's pairing, the four per-cell scans |
| `wall_list.dfy` | `WallList` | the `tmp_walls` list as `prev`/`next` index arrays (class `CandidateList`) and its encoding of a ghost sequence |
| `set_rings.dfy` | `SetRings` | `set_number`/`next_in_set` as arrays (class `DisjointSets`) and the ghost map from set number to ring |
| `maze_gen.dfy` | `MazeGen` | class `Generator`, the body of `create_game` step by step |
| `world.dfy` | `World` | users, bullets, enemies, generators, cells, `get_occupancy`, class `Game` with `create_user` |
| `render.dfy` | `Render` | `int_div`, the view window, the wrap mapping, class `ElementArray` |
| `server.dfy` | `Server` | class `Registry` (`all_games`), the lookups, game creation, the update decision |

Pointers into `tmp_walls` and `sets` become indices:

- `NULL` is `-1` (`NIL`);
- the `(void*) 1` mark of an unlinked node is `-2` (`UNLINKED`);
- memory `dsk_malloc` left unwritten is `-3` (`UNINIT`).

The results of `rand()` come in as a sequence of draws.

The generator keeps these quirks of the code as written:

- only the first `usize` of the `2*usize` scrambled walls are enqueued (`Generator.EnqueueCandidates`, `UnscrambledHalfStands`);
- the main loop pairs an odd (horizontal) wall with the cell to the left and an even one with the cell above, while the per-cell scans treat the even wall as the left wall and the odd one as the top wall (`PairingDisagreesWithScan`);
- the "bottom" scan repeats the right-neighbour test and names the odd wall of the right neighbour (`BottomMirrorsRight`);
- every wall the scans name is knocked down in the bitmap, not just the chosen one (`Generator.DropSameSetWalls`).

Because of these quirks, the model proves local properties of each step rather than properties of the finished maze. When a scan names a wall that is not on the candidate list (one never enqueued, or one already removed), the C code would dereference a non-list pointer; the model stops with `UnlinkedFault` instead. A failed `dsk_assert` at line 256 gives `SameSetFault`.

## Model

| member | source | states |
|---|---|---|
| Random.RandomIntRange | server/server.c:31-34 | the result is below `max`, and is the draw itself when the draw is already below `max` |
| Scramble.SwapInts | server/server.c:169-174 | the array afterwards is the old contents with positions `i` and `j` exchanged |
| Scramble.Shuffle | server/server.c:202-206 | any number of swaps keeps the length of the sequence (the permutation property is `Scramble.ShufflePermutes`) |
| Scramble.ShufflePermutes | server/server.c:202-206 | any number of random swaps of the identity of length `n` leaves a permutation of `0..n-1` |
| Scramble.PermutationCoversRange | server/server.c:202-206 | a permutation of `0..n-1` contains every index below `n` |
| Scramble.ScrambleWalls | server/server.c:202-206 | the scramble loop fills `0..n-1` and applies one swap per pair of draws, indices reduced by `random_int_range`; the result is the `Shuffle` of the identity |
| MazeWalls.WallColumn | server/server.c:213 | the column `create_game` computes for a wall is below `width` |
| MazeWalls.WallRow | server/server.c:214 | the row `create_game` computes as `e / (width*2)` is the row of the wall's cell `e/2` |
| MazeWalls.Eligible | server/server.c:215-219 | with wrap every wall passes the enqueue filter; without it a horizontal wall passes exactly when its index is at least `2*width` (not in row 0), and a vertical wall exactly when its cell is not in column 0 |
| MazeWalls.WallCoords | server/server.c:212-214 | the column and row computed from a wall index lie inside the universe and name the wall's cell `e/2` |
| MazeWalls.CandidatesMembers | server/server.c:208-219 | a wall is a candidate exactly when it is among the scanned walls and passes the no-wrap border test |
| MazeWalls.NoBorderCandidates | server/server.c:215-219 | without wrap, no horizontal wall of row 0 and no vertical wall of column 0 is a candidate |
| MazeWalls.CandidatesStep | server/server.c:208-225 | scanning one more wall adds it to the front of the candidate list exactly when it passes the border test |
| MazeWalls.PairedCell | server/server.c:240-255 | the main loop pairs an odd wall's cell with its left neighbour (wrapping) and an even wall's cell with the cell above (wrapping) |
| MazeWalls.LeftScan | server/server.c:270-277 | the left scan names wall `2c` exactly when the left neighbour (wrapping only with wrap on) is in the kept set |
| MazeWalls.RightScan | server/server.c:279-286 | the right scan names the even wall of the right neighbour exactly when that neighbour (wrapping only with wrap on) is in the kept set |
| MazeWalls.TopScan | server/server.c:288-295 | the top scan names wall `2c+1` exactly when the cell above (wrapping only with wrap on) is in the kept set |
| MazeWalls.BottomScan | server/server.c:297-304 | the "bottom" scan tests the right neighbour and names its odd wall |
| MazeWalls.ScanWalls | server/server.c:270-304 | the four scans of a cell, in order left, right, top, "bottom", each `-1` or a wall index below `2*usize` |
| MazeWalls.LeftWallIdx | server/server.c:270-277 | the left scan yields `-1` or the cell's own vertical wall `2c`, always below `2*usize` |
| MazeWalls.RightWallIdx | server/server.c:279-286 | the right scan yields `-1` or the vertical wall of the right neighbour (wrapping), always below `2*usize` |
| MazeWalls.TopWallIdx | server/server.c:288-295 | the top scan yields `-1` or the cell's own horizontal wall `2c+1`, always below `2*usize` |
| MazeWalls.BottomWallIdx | server/server.c:297-304 | the "bottom" scan yields `-1` or the horizontal wall of the right neighbour (wrapping), always below `2*usize` |
| MazeWalls.Candidates | server/server.c:208-225 | the enqueued walls are no more than the scanned walls (membership is `MazeWalls.CandidatesMembers`) |
| MazeWalls.BottomMirrorsRight | server/server.c:279-304 | the bottom scan fires exactly when the right scan does, naming the next wall index |
| MazeWalls.PairingDisagreesWithScan | server/server.c:242-295 | on a universe of at least 2 by 2, the cell the main loop pairs with an odd wall is the left neighbour, which differs from the cell above that the scans treat as the odd wall's other side; likewise for even walls |
| WallList.UnlinkedHead | server/server.c:152-156 | unlinking moves the list head only when the node has no predecessor, and then the new head is the node's successor |
| WallList.UnlinkedNext | server/server.c:157-161 | after unlinking `e`, its predecessor's `next` is `e`'s successor, `e` is marked unlinked, and every other `next` is unchanged |
| WallList.UnlinkedPrev | server/server.c:159-161 | after unlinking `e`, its successor's `prev` is `e`'s predecessor, `e` is marked unlinked, and every other `prev` is unchanged |
| WallList.Neighbours | server/server.c:152-161 | in a well-formed list, a node's `prev` is its predecessor or `NULL` and its `next` is its successor or `NULL` |
| WallList.LinkedTest | server/server.c:152-156 | a node is on the list exactly when it is the head or has a non-`NULL` `prev` |
| WallList.UnlinkEncodes | server/server.c:152-161 | the pointer surgery on the node at position `p` leaves a well-formed list of the other nodes in their order |
| WallList.PushFrontEncodes | server/server.c:220-224 | linking a node that is not on the list at the front gives a well-formed list with that node first |
| WallList.FilterRemoveAt | server/server.c:152-161 | in a list without repeats, removing the node at a position is removing its value |
| WallList.FilterFilter | server/server.c:267-304 | removing one set of walls and then another is removing both at once |
| WallList.DropOne | server/server.c:267-304 | one "maybe remove" step fails exactly when it names a wall that is not on the list, and otherwise leaves a list without that wall and with nothing new |
| WallList.DropSeq | server/server.c:267-304 | a successful run of "maybe remove" steps leaves a list with nothing new and none of the walls it named |
| WallList.DropSeqMeaning | server/server.c:267-304 | a run of "maybe remove" steps succeeds exactly when its named walls are distinct and all on the list, and then leaves the list without them |
| WallList.DropSeqAppend | server/server.c:267-304 | running the "maybe remove" steps of `a + b` is running those of `a`, then those of `b` |
| WallList.StoppedAtFails | server/server.c:267-304 | once a step names a wall that is not on the list, the whole run of steps fails |
| WallList.DropPrefixStep | server/server.c:267-304 | a successful step extends the run of the first `i` steps to the first `i+1` |
| WallList.DropPrefixStops | server/server.c:267-304 | a failed step `i` is where the run stops, and the whole run fails |
| WallList.UnlinkFilter | server/server.c:152-161 | unlinking a listed wall leaves a well-formed list of exactly the other walls, and `prev == NULL` only at the head |
| WallList.CandidateList.constructor | server/server.c:200 | a fresh `tmp_walls` of `n` uninitialised nodes and an empty list |
| WallList.CandidateList.IsLinked | server/server.c:152-156 | the head-or-`prev` test answers whether the wall is on the list |
| WallList.CandidateList.PushFront | server/server.c:220-224 | the list afterwards is the wall followed by the old list |
| WallList.CandidateList.Unlink | server/server.c:152-161 | the list afterwards is the old list without the wall, and the node's links are both the `(void*) 1` mark |
| WallList.CandidateList.Splice | server/server.c:152-161 | the head, `prev` and `next` afterwards are the unlink functions of the old ones |
| SetRings.DisjointSets.constructor | server/server.c:198 | a fresh `sets` of `n` records: two distinct arrays of length `n` |
| SetRings.Relabel | server/server.c:268 | every cell of set `from` carries `to` afterwards, every other cell keeps its number |
| SetRings.SwapSuccessors | server/server.c:311-313 | `k` and `d` exchange their successors; every other successor is unchanged |
| SetRings.RingCloses | server/server.c:307-308 | on a ring, the walk is back at its start exactly after the last member |
| SetRings.RingFromMember | server/server.c:263-308 | the ring of a cell's set, read from that cell, starts at the cell, is a ring of the successor array and holds exactly the members of the set |
| SetRings.SingletonsPartition | server/server.c:227-231 | cell `i` in set `i` with itself as successor partitions the cells into one-cell rings |
| SetRings.RotateRing | server/server.c:263-308 | a ring read from any of its members is still the same ring |
| SetRings.PositionOnRing | server/server.c:263-308 | every cell lies on the ring of its own set number |
| SetRings.SpliceRing | server/server.c:310-313 | swapping the successors of one member of each of two disjoint rings yields one ring holding the members of both |
| SetRings.OtherRing | server/server.c:310-313 | a ring that holds neither swapped cell is unchanged by the swap |
| SetRings.MergePartition | server/server.c:256-313 | renumbering set `ds` to `ks` and swapping the successors leaves a partition in which `ds` is gone and the rest is unchanged |
| SetRings.PartRelabelRing | server/server.c:263-308 | renumbering every member met on the ring of set `ds` renumbers exactly set `ds` |
| SetRings.DisjointSets.Init | server/server.c:227-231 | every cell is its own set and its own successor, and the rings are the singletons |
| SetRings.DisjointSets.SpliceRings | server/server.c:310-313 | the successor swap merges the two rings: set `ds` disappears (one set fewer), set `ks` holds the members of both, and other sets are unchanged |
| MazeGen.GenerateOnes | server/server.c:121-124 | a fresh bitmap of `count` ones |
| MazeGen.Generator.constructor | server/server.c:186-201 | both bitmaps all ones, the candidate list empty, nothing enqueued |
| MazeGen.Generator.KnockDown | server/server.c:160-165 | exactly the bitmap entry of wall `index` becomes 0 (`h_walls` for odd, `v_walls` for even, at `index/2`); every other entry is unchanged |
| MazeGen.Generator.RemoveTmpWall | server/server.c:141-166 | the wall leaves the list, its node is marked, its bitmap entry is 0, and the invariant "bit 0 exactly for enqueued walls off the list" is kept |
| MazeGen.Generator.DropWall | server/server.c:270-277 | a negative index changes nothing; otherwise the wall is removed when linked, and the result says whether it was linked |
| MazeGen.Generator.DropScan | server/server.c:270-277 | one scan: a successful removal extends the run of scans by one step; a failed one is where the run stops, with the list unchanged |
| MazeGen.Generator.DropSameSetWalls | server/server.c:267-304 | the four scans of the cell are removed in order: it succeeds exactly when the `DropSeq` of them does, and then the list is its value; on failure the scans stopped at scan `stop`, whose wall is not on the list reached by the scans before it |
| MazeGen.Generator.RenumberCell | server/server.c:267-304 | the cell takes the kept number and nothing else is renumbered; then its scans (on the new numbers) run, with the same success, result and stopping point as `DropSameSetWalls` |
| MazeGen.Generator.RelabelRing | server/server.c:263-308 | the walk around the ring of `dring`'s set succeeds exactly when `WalkOutcome` (every member's scans, in ring order, on the numbers renumbered so far) does; then the list is that outcome and exactly the old set of `dring` is renumbered to `keep`; on a fault, the cell returned is ring member `j`, the members up to it are renumbered, and its scans stopped at a wall not on the list |
| MazeGen.Generator.WalkRing | server/server.c:263-308 | the loop of the walk: either it went round the whole ring and the list is the run of all the members' scans, or it stopped at ring member `j`, whose scans stopped at a wall not on the list reached so far |
| MazeGen.Generator.WalkCell | server/server.c:265-306 | one pass of the loop body: member `j` is renumbered and its scans extend the run of the walk, or stop it |
| MazeGen.WalkStep | server/server.c:265-306 | the walk through member `j` is the walk through the members before it, followed by member `j`'s scans |
| MazeGen.WalkCompletes | server/server.c:307-308 | a walk back at its start has run the scans of every member |
| MazeGen.WalkFails | server/server.c:265-306 | a walk whose scans stopped at a member fails as a whole |
| MazeGen.WalkStaysFailed | server/server.c:263-308 | once the walk has failed, the scans of more members do not rescue it |
| MazeGen.Generator.MergeFirstCandidate | server/server.c:233-314 | it reports `SameSetFault` exactly when the head wall's two cells share a set, with the list unchanged; otherwise it reports `UnlinkedFault` exactly when the walk of the higher set (`WalkOutcome`) fails, naming a ring member `c` such that exactly the members up to `c` are renumbered and `c`'s scans stopped at a wall not on the list; on a fault the rings and `next_in_set` links are unchanged; on `Done` the list is the walk's outcome, the higher set is renumbered to the lower, its ring merged into the lower's (one set fewer), and no other set changes |
| MazeGen.Generator.MergeAll | server/server.c:233-314 | walls once down stay down; a fault is described by the state its round started from (`FaultFrom`): on `SameSetFault` that round's head wall's two cells shared a set; on `UnlinkedFault` they did not, and the renumbering walk of the higher set, run from that round's list, labels and rings, fails (`WalkFrom` is `None`); the returned round state is pinned to what the fault leaves (`FaultLeaves`): the rings and `next_in_set` links unchanged and partitioning the cells under that round's labels, nothing changed after `SameSetFault`, and after `UnlinkedFault(c)` the ring members up to `c` renumbered; the post-state cell's scans stopped at a wall not on the list; on completion the list is empty and a wall is down exactly when it was enqueued |
| MazeGen.Generator.EnqueueCandidates | server/server.c:208-225 | the list is the candidates among the first `usize` scrambled walls, in reverse order of scanning |
| MazeGen.Generator.Prepare | server/server.c:196-231 | the enqueued walls are the candidates among the first `usize` walls of the scramble (at most `usize`, none on the border without wrap), the list holds exactly them, and every cell is a set of its own |
| MazeGen.UnscrambledHalfStands | server/server.c:208-209 | no wall of the second half of the scramble is ever a candidate |
| MazeGen.UnlinkedFaultRelabels | server/server.c:263-308 | a round that reports `UnlinkedFault` has already renumbered the first cell of the higher set, so its labels differ from those it started from: the fault is never reported on a state the round left untouched |
| MazeGen.GenerateMaze | server/server.c:186-314 | the enqueued walls are the candidates of the first half of the scramble (at most `usize`); a wall never enqueued keeps its bit, so without wrap every border wall stays; on completion a wall is down exactly when it was enqueued; a fault is explained by the state of the round that raised it and what it left (`FaultFrom`, `FaultLeaves`) |
| World.CellIndex | server/server.c:350 | cells are numbered row by row (the same index is computed at lines 390-392): for a tile within the universe's columns, the index's remainder and quotient by `width` are the tile's cell column and cell row |
| World.GeneratorCovers | server/server.c:357-359 | a generator covers exactly the 2 by 2 square of tiles from its own position |
| World.CellIndexInRange | server/server.c:347-350 | a tile inside the universe has a cell index below `width*height`, whose column and row are the tile's divided by `CELL_SIZE` |
| World.GetOccupancy | server/server.c:340-377 | a tile is a wall exactly when it is outside the universe; otherwise user, then generator footprint, then bullet, then enemy, else empty, in that precedence; an occupant is returned exactly for the four occupied kinds; the user, bullet or enemy returned is the first one at the tile in its cell's list order |
| World.OccupancyIsLocal | server/server.c:350-376 | replacing any other cell does not change a tile's occupancy |
| World.Game.constructor | server/server.c:181-194 | a new game with no users, all cells empty, `latest_update` 0 |
| World.Game.DrawnTile | server/server.c:392-393 | every drawn tile lies inside the universe |
| World.Game.CreateUser | server/server.c:380-417 | every rejected draw was occupied; the placed tile was empty; the user is pushed onto the front of the game's users and becomes the only user of its cell, with `last_update` `(unsigned)-1` |
| World.Game.Park | server/server.c:880-884 | the pending update goes on the front of the game's list; nothing else changes |
| World.PlacedUserIsFound | server/server.c:395-403 | right after placement, the occupancy query at the user's tile finds that user |
| World.PlacementHidesCellmates | server/server.c:401-403 | a user of the same cell at another tile is no longer found once the cell's list is overwritten |
| Render.IntDiv | server/server.c:421-432 | the result of `int_div` is always an `int` (its floor property is `Render.IntDivFloors`) |
| Render.NegativeIntDiv | server/server.c:424-428 | for a negative numerator, the rounded-up magnitude, negated, is the floor of `a/b` |
| Render.NonNegativeIntDiv | server/server.c:429-431 | for a non-negative numerator the result is `a/b` |
| Render.IntDivFloors | server/server.c:421-432 | `int_div` is floor division: `q*b <= a < (q+1)*b` |
| Render.RoundUpDiv | server/server.c:570-573 | `(v + d - 1) / d` is `v/d` rounded up when the sum does not wrap |
| Render.ViewWindow | server/server.c:571-580 | the first cell is the cell holding the first tile, whatever the 32-bit arithmetic does; away from wrap-around, the tiles span the canvas and the cells span the tiles |
| Render.ViewWindowCorner | server/server.c:570-579 | the first tile is the user's tile less half the tile count, rounded up; the first cell holds it; the tile count covers the canvas |
| Render.AlignedViewWindowCovers | server/server.c:570-579 | when the first visible tile starts a cell, every visible tile lies in a rendered cell |
| Render.ViewWindowMissesLastCell | server/server.c:572-579 | at tile 44 with a 400-pixel canvas, visible tile 60 lies in no rendered cell |
| Render.CoveringWindowIsExact | server/server.c:572-579 | the corrected window renders every visible tile, its first and last cells hold visible tiles, and it has at most one cell more |
| Render.WrapCell | server/server.c:599-626 | without wrap, exactly the negative coordinates are skipped and the rest kept as they are; with wrap, none is skipped |
| Render.WrapCellReduces | server/server.c:599-626 | with wrap, a coordinate at most one universe off either side becomes its remainder modulo the size |
| Render.Reallocate | server/server.c:442-443 | the grown buffer starts with the old contents |
| Render.ElementArray.constructor | server/server.c:582-584 | 16 slots allocated and no elements |
| Render.ElementArray.Append | server/server.c:433-447 | `n` grows by one, the value is appended after the old elements, and `alloced` doubles exactly when the buffer was full |
| Server.FindGame | server/server.c:692-701 | the result is a game of that name with no game of that name before it; nothing is found exactly when no game has the name |
| Server.FindUser | server/server.c:702-713 | the result is a user of that name in one of the games; nothing is found exactly when no game has such a user |
| Server.FindUserFindsFirst | server/server.c:702-713 | the user found is in the first game that has one of that name, and is the first such user of that game |
| Server.Registry.constructor | server/server.c:114 | no games |
| Server.Registry.CreateGame | server/server.c:176-319 | a 32 by 32 wrapping game with empty cells, no users and `latest_update` 0 is pushed onto the front of the games; its bitmaps are the generator's, whose enqueued walls are the candidates of the first half of the scramble: every wall never enqueued stands, and on completion exactly the enqueued walls are down; a fault is explained by the state of the round that raised it and what it left (`FaultFrom`, `FaultLeaves`) |
| Server.Registry.HandleUpdateGame | server/server.c:864-887 | an unknown user gets an error; otherwise the request is parked exactly when the user's `last_update` equals the game's `latest_update`, and is served otherwise; nothing but that game's pending list changes |

## Left out

- HTTP routing, CGI lookups, responses, static pages and `main` (server/server.c:715-925) are calls into the `dsk` library. They are not part of this model. Only the decision of `handle_update_game` is modelled.
- The suspension of a parked HTTP request is I/O. A parked request is an opaque number.
- JSON construction in `add_wall`, `add_bullet`, `add_user`, `add_enemy`, `add_generator` and `create_user_update` is left out. Elements are opaque values, and the pixel offsets are not modelled.
- The per-cell rendering loop of `create_user_update` is left out. Only its window and wrap arithmetic are modelled.
- `rand()` is a parameter (a sequence of draws). Its quality is not a property of this code.
- `generator_prob` (a `double`) and `last_seen_time` from the dispatcher are left out.
- Freeing memory is left out, and so are the tick engine and movement, which the source does not have.
- World.Game.CreateUser: the C loop retries until it finds an empty tile, possibly forever. The model stops with no user when the draws run out.
- World.Game.CreateUser: the C code links the user into its cell as a one-node self-loop. In C, `get_occupancy` on another tile of that cell would then never finish. The model keeps a cell's users as a sequence and overwrites it with the new user alone.
- World.Game.constructor: `pending_updates` and `all_bullets` are never initialised by `create_game`. The model starts with an empty pending list.
- Server.Registry.HandleUpdateGame: serving never advances `last_update` in the C code, and the model keeps that. Building the response is left out.
- `handle_join_existing_game` passes a game pointer that is still `NULL` (server/server.c:813). It is not part of this model.
- MazeGen.Generator.MergeAll: the whole maze is not proved to be a spanning tree, to be connected, or to finish without a fault. The code as written does not guarantee any of these.
- MazeGen.Generator.RemoveTmpWall: the model requires the wall to be linked. Callers in the model check first and report `UnlinkedFault`, where C would dereference an invalid pointer.
- Server.Registry.CreateGame: a fault outcome still registers the half-carved game. The C server stops at the failed `dsk_assert` (server/server.c:256) or has undefined behaviour at the invalid unlink in `remove_tmp_wall` (server/server.c:154-160).
- Render.ElementArray.Append: requires `alloced < 2^31`, so the doubling of the unsigned count never wraps.
- Render.IntDivFloors: stated for divisors up to `2^31`. The only divisor the server uses is `CELL_SIZE`.
- Render.ViewWindowCorner: stated for positions and canvas sizes below `2^30`, where none of the 32-bit arithmetic wraps.
- Scramble.ScrambleWalls: the permutation property is stated as a separate lemma about `Shuffle` (`Scramble.ShufflePermutes`), not in the method's own contract.

## Findings

| source | as written | input that shows it | evidently intended | confidence | as-written member | corrected member |
|---|---|---|---|---|---|---|
| server/server.c:572-579 | `cell_width` is the visible tile count divided by `CELL_SIZE`, rounded up, counted from the cell holding the first visible tile | a 400-pixel canvas at tile 44: tiles 19..68 are visible, cells 0..2 (tiles 0..59) are rendered, tiles 60..68 are not | render from the cell of the first visible tile through the cell of the last one | not executed | Render.ViewWindowMissesLastCell | Render.CoveringWindowIsExact |
