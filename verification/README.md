# Timetable search and Halma board — a Dafny model

This project models the integer core of two student programs.

The first is a public-transport journey planner (`lista1/zad1`). It covers:

- the conversion of `HH:MM:SS` strings to seconds and back (`time_to_int`, `time_to_str`);
- the assignment of numeric ids to stop names in order of first appearance (`hash_stop_ids`);
- the stop index built from the flat list of timetabled edges (`astar_get_max_node_id`, `astar_construct_node_info`);
- the transfer-aware travel cost (`astar_travel_cost`): a binary search for the earliest boardable trip, a scan that prefers staying on the current line, a change counter, and a one-day fallback;
- the relax-and-reopen step of the A* loop in `astar_compute`;
- the route reconstruction that walks back-pointers from the destination and groups the legs into stages ridden on one line.

The second is a Halma board (`lista2`). It covers:

- the 16×16 grid with its two per-player piece lists, kept in step by `set_piece`, `remove_piece` and `move_piece`;
- legal-move generation (`get_legal_moves`, `rec_add_jump_moves`): single steps plus chains of jumps guarded by a visited bit set;
- the Manhattan and Chebyshev move metrics `first_strategy` and `third_strategy`.

Everything is a value: the board is a datatype rather than a mutable object, and each mutator is a function from the old board to the new one. The C++ pointer `previous_edge` into a neighbour's trip list becomes a `TripRef(group, instance)` index pair. The printed route becomes the list of stages the printout describes. The float heuristic is a parameter `h: int -> int`.

Modules, in dependency order:

- `Common`: `Option`.
- `TimeFormat`: `time_to_str` and `time_to_int`.
- `Graph`: the `graph_edge` record.
- `StopIds`: `hash_stop_ids`.
- `TripOrder`: the `(departure, arrival, line)` tuple order and sorting.
- `Timetable` and `TimetableFacts`: the index and what it holds.
- `Travel`: `astar_travel_cost`.
- `Search`: the search state and the relax, expand and pop steps.
- `Route`: the back-pointer walk and stage grouping.
- `Board`: the board value and its mutators.
- `Moves`: move generation.
- `Metrics`: the two move metrics.

A few behaviours of the planner's code are worth stating plainly, since the model reproduces them as written:

- `astar_compute` never reads its `optimize_time` argument. The change penalty is always the plain count of line changes, and any strict improvement of a cost reopens a closed node, with no margin.
- The trips of a group are not deduplicated: every edge's triple is kept, duplicates included. The triples are sorted lexicographically: by departure, then arrival, then line.
- Strings are C byte strings: each `char` of the model stands for one byte, in 0..255, so `strlen`, `atoi` and the `std::string` order see non-ASCII text as its encoded bytes.

## Model

| member | source | states |
|---|---|---|
| TimeFormat.TimeToStr | lista1/zad1/utils.h:4-19 | Eight characters with ':' at positions 2 and 5. The digits are those of t/3600, (t/60) mod 60 and t mod 60, each added to '0' in an 8-bit char. |
| TimeFormat.MinutesSeconds | lista1/zad1/utils.h:7-9 | For t ≥ 0 the minutes and seconds computed by subtraction equal (t/60) mod 60 and t mod 60, so both lie in 0..59. |
| TimeFormat.TimeToStrDigits | lista1/zad1/utils.h:7-16 | For 0 ≤ t < 360000 every non-separator character is a decimal digit. The six digits decode back to t. |
| TimeFormat.CStrLen | lista1/zad1/main.cpp:13 | `strlen` stops at the first NUL: every earlier character is non-NUL, and the one at the result, if any, is NUL. |
| TimeFormat.TimeToInt | lista1/zad1/main.cpp:12-29 | 0 whenever `strlen` is not 8. Otherwise `atoi` of the fields at 0-1, 3-4 and 6-7, weighted 3600, 60 and 1. |
| TimeFormat.AtoiTwoDigits | lista1/zad1/main.cpp:17-20 | `atoi` of two decimal digits is their two-digit value. |
| TimeFormat.TimeToIntDigits | lista1/zad1/main.cpp:17-28 | For an 8-character string with digits at 0, 1, 3, 4, 6 and 7 the result is HH·3600 + MM·60 + SS. |
| TimeFormat.SeparatorsIgnored | lista1/zad1/main.cpp:17-26 | Replacing the characters at positions 2 and 5 by any non-NUL characters leaves the parsed time unchanged. |
| TimeFormat.TimeRoundTrip | lista1/zad1/main.cpp:12-29 | Parsing the formatted time gives t back for 0 ≤ t < 360000. |
| StopIds.Distinct | lista1/zad1/main.cpp:85-104 | The names in order of first appearance: the same names as the input, none repeated. |
| StopIds.DistinctCount | lista1/zad1/main.cpp:86-104 | As many ids are issued as there are distinct names. |
| StopIds.FirstAppearance | lista1/zad1/main.cpp:89-103 | A name first seen at position i gets one more than the number of distinct names before i. A name seen earlier gets an id already issued. |
| StopIds.FindOrAdd | lista1/zad1/main.cpp:89-95 | The map lookup: a known name keeps its id; an unknown name gets `++index` and joins the map. The map and counter stay those of the first-appearance order. |
| StopIds.HashEdge | lista1/zad1/main.cpp:88-104 | One edge: the start name is numbered before the end name, and only the two id fields change. |
| StopIds.HashStopIds | lista1/zad1/main.cpp:83-105 | Each endpoint id is the name's 1-based rank in first-appearance order and lies in 1..number of distinct names. Two endpoints share an id iff their names are equal. No other field changes. |
| TripOrder.StrLessTransitive | lista1/zad1/astar.cpp:110 | The `std::string` order used when sorting triples is transitive. |
| TripOrder.StrLessTotal | lista1/zad1/astar.cpp:110 | Two different strings are ordered one way or the other. |
| TripOrder.TripLeAntisymmetric | lista1/zad1/astar.cpp:110 | The tuple order on triples is antisymmetric; with TripLeTotal and TripLeTransitive it is a total order. |
| TripOrder.InsertSorted | lista1/zad1/astar.cpp:110 | Inserting into a sorted list keeps it sorted and adds exactly the new triple. |
| TripOrder.SortTrips | lista1/zad1/astar.cpp:109-111 | The result is sorted and a permutation of the input. |
| TripOrder.SortedUnique | lista1/zad1/astar.cpp:110 | Two sorted permutations of the same triples are equal, so any correct sort gives the `std::sort` result. |
| TripOrder.SortedDepartures | lista1/zad1/astar.cpp:138-151 | In a sorted group departures never decrease, which the binary search relies on. |
| Timetable.MaxNodeId | lista1/zad1/astar.cpp:32-40 | At least every start and end id and at least 0. It is 0 without edges, and otherwise 0 or an id some edge carries. |
| Timetable.AddTrip | lista1/zad1/astar.cpp:84-100 | The triple joins the existing group for the destination, or a new group is opened at the end. No other group changes, and destinations stay distinct. |
| Timetable.ConstructNodeInfo | lista1/zad1/astar.cpp:65-115 | One record per id 0..maxId, with all search fields reset to 0 or no back-pointer. |
| Timetable.BuildIndex | lista1/zad1/astar.cpp:206-209 | The table `astar_compute` builds has one record more than the largest id, so every start and end id of every edge indexes a record; each record starts with no back-pointer and a zero total cost. |
| TimetableFacts.IndexGroups | lista1/zad1/astar.cpp:84-111 | Each stop has one group per destination it has an edge to, and no other groups. Each group is sorted and holds exactly the triples of the edges between the two stops. |
| TimetableFacts.EdgeIndexed | lista1/zad1/astar.cpp:84-100 | An edge's triple lies in the single group of its start stop for its end stop. |
| TimetableFacts.TripCount | lista1/zad1/astar.cpp:84-111 | The groups hold as many triples in total as there are edges. |
| TimetableFacts.StopInfoFromFirstMention | lista1/zad1/astar.cpp:71-82 | A stop's name and coordinates come from the first edge that mentions it with a non-empty name. Later edges do not overwrite them, and a stop never named keeps "". |
| Travel.LowerBound | lista1/zad1/astar.cpp:138-151 | The bisection stays inside its window and ends at a boundary: the trip just before the result departs earlier than t and the trip at the result at t or later. On sorted trips this is the least such index (EarliestBoardable). |
| Travel.EarliestBoardable | lista1/zad1/astar.cpp:138-151 | On sorted trips, the least index whose departure is at least t. |
| Travel.SameLineScan | lista1/zad1/astar.cpp:161-172 | The first trip on the current line within the run of trips sharing the earliest trip's departure and arrival, or none if the run has no such trip. |
| Travel.TravelCost | lista1/zad1/astar.cpp:128-182 | No boardable trip gives t + 86400, no trip and no change. Otherwise the chosen trip departs at t or later, within the earliest run. The cost is the earliest arrival plus the changes so far, plus 1 exactly when no trip of the run is on the current line. A same-line trip is preferred and taken first. |
| Search.AdoptWellFormed | lista1/zad1/astar.cpp:245-253 | Overwriting the neighbour's record keeps the back-pointers valid. The graph is unchanged, and the new back-pointer names the offered trip or nothing. |
| Search.AdoptGrows | lista1/zad1/astar.cpp:245-256 | Adopting an offer opens the neighbour and sets its cost, estimate, total, predecessor and change count. Nothing else changes. |
| Search.Relax | lista1/zad1/astar.cpp:234-284 | An undiscovered neighbour, or one whose cost strictly improves, takes the offer and is opened (a closed one is reopened). Otherwise nothing changes. The estimate is computed only on first discovery, and the change count is the predecessor's plus the change flag. |
| Search.ExpandFrom | lista1/zad1/astar.cpp:234-284 | Relaxing the remaining groups discovers their destinations and touches no other record. The invariant holds and no cost increases. |
| Search.Step | lista1/zad1/astar.cpp:222-284 | One pop: the node is closed and its neighbours relaxed. The invariant holds, the discovered set grows by them, other records are unchanged and no discovered cost increases. |
| Search.Run | lista1/zad1/astar.cpp:222-285 | Any sequence of pops keeps the invariant and the graph. Discovered nodes stay discovered and their costs never increase. |
| Search.IndexWellFormed | lista1/zad1/astar.cpp:103-107 | The fresh index has valid destinations and no back-pointers. |
| Search.Start | lista1/zad1/astar.cpp:206-219 | With the table sized by `astar_get_max_node_id`, the graph is the one built from the edges. Only the start is open. The start's record is the built one with its time and total cost set to the start time and its estimate to 0, so its change count and predecessor stay as built. Every other record is exactly as built, and no node has a back-pointer. |
| Route.Walk | lista1/zad1/astar.cpp:287-296 | A finished walk has at most fuel legs. It is empty exactly when the destination has no back-pointer, and otherwise its last leg ends at the destination. |
| Route.WalkChain | lista1/zad1/astar.cpp:291-296 | A finished walk is a chain of back-pointers from a node without one to the destination. |
| Route.WalkFindsChain | lista1/zad1/astar.cpp:291-296 | Conversely, any such chain is what the walk returns, so the chain is unique. |
| Route.BoardingLegs | lista1/zad1/astar.cpp:303 | The increasing indices of legs whose line differs from the previous leg's (or from "" for the first). |
| Route.BoardingLegsComplete | lista1/zad1/astar.cpp:303 | Every such leg is listed. |
| Route.GroupLegs | lista1/zad1/astar.cpp:298-319 | Consecutive stages are on different lines. A stage exists iff some leg's line is non-empty, and the current line is the last stage's. |
| Route.Stages | lista1/zad1/astar.cpp:298-322 | Consecutive stages are on different lines. The last stage alights at the destination at the last arrival, and there are no stages iff every leg's line is "". |
| Route.GroupLegsBoardings | lista1/zad1/astar.cpp:298-319 | The loop builds one stage per boarding leg. Each stage alights where the next boarding leg starts, at the arrival before it; a stage on the line "" is never closed. |
| Route.StagesAtBoardings | lista1/zad1/astar.cpp:298-322 | The final stages are the loop's stages with the last one closed at the destination and the last arrival. |
| Route.Reconstruct | lista1/zad1/astar.cpp:287-322 | A finished reconstruction is a list of stages on alternating lines, the last of which alights at the destination. |
| Route.ReconstructFromChain | lista1/zad1/astar.cpp:287-322 | Whenever a chain of back-pointers reaches the destination, the reconstruction returns exactly the stages read off that chain, the last closed at the destination at the last arrival. |
| Route.ReconstructOnChain | lista1/zad1/astar.cpp:287-322 | Conversely, a finished non-empty walk is such a chain, and the reconstruction returns the stages read off it. |
| Board.ToPos | lista2/src/board.cpp:99-101 | An in-board square gets a bit index in 0..255. |
| Board.ToPosInjective | lista2/src/board.cpp:99-101 | Different in-board squares get different bits. |
| Board.Empty | lista2/src/board.cpp:19-26 | The new board is valid, every square is 0 and both piece lists are empty. |
| Board.RemoveFirst | lista2/src/board.cpp:43-47 | The erase-first loop shortens the list by one exactly when the square is in it, and leaves a list without the square as it is. |
| Board.RemoveFirstCount | lista2/src/board.cpp:43-47 | The erase-first loop removes one occurrence of the square, if any. |
| Board.RemovePiece | lista2/src/board.cpp:40-60 | The square becomes 0 and other squares are unchanged. Only the owner's list loses the square, once, and the other list is untouched. A valid board stays valid with the square in neither list. |
| Board.SetPiece | lista2/src/board.cpp:28-38 | The square holds the player and other squares are unchanged. A valid board stays valid, and each list loses the square and regains it only if it is that list's player. |
| Board.ReplaceAllCount | lista2/src/board.cpp:77-82 | Rewriting every occurrence of one square to another moves all its count to the other square. |
| Board.ReplaceAll | lista2/src/board.cpp:77-82 | The rewrite keeps the length; when the two squares differ the old square no longer occurs, and every other square present stays present. |
| Board.MovePiece | lista2/src/board.cpp:62-86 | The destination takes the owner and the origin becomes 0. The owner's list has each origin entry rewritten in place to the destination, with its length unchanged, and the other list is untouched. A valid board stays valid. |
| Moves.StepDirection | lista2/src/board.cpp:88-97 | Every one of the eight neighbours is reached by one of `single_moves`. |
| Moves.JumpDirection | lista2/src/board.cpp:119-134 | Every jump over an occupied neighbour to an empty square two steps away is one direction of `single_moves` doubled. |
| Moves.MidInBoard | lista2/src/board.cpp:156-165 | If the landing square is on the board, so is the square jumped over. |
| Moves.Jump | lista2/src/board.cpp:142-169 | Emits `from → pos` first, then only squares not yet visited, each marked once. Every move lands on an empty square. Every destination chains by jumps from `pos`, and every legal jump out of a destination lands on a visited square. |
| Moves.JumpDirs | lista2/src/board.cpp:152-168 | The direction loop emits only unvisited squares, each reached by a chain of jumps. Every legal jump in the remaining directions ends up visited. |
| Moves.ChainSound | lista2/src/board.cpp:146-166 | Every move of a jump search is a jump from the piece or from an earlier destination. |
| Moves.SoundParity | lista2/src/board.cpp:115-166 | A sound move is a step or an even displacement, because a chain of jumps only continues from a destination reached by jumps and each jump moves a coordinate by -2, 0 or 2. |
| Moves.DirectionMoves | lista2/src/board.cpp:119-135 | For one direction, the moves start at the piece, land on empty squares and are steps or jump chains. An empty neighbour yields the step and a legal first jump yields the jump. |
| Moves.PieceMoves | lista2/src/board.cpp:115-137 | Over the directions from k on: the visited set grows by exactly the destinations, every move starts at the piece and is a step or jump chain, and every empty neighbour and every legal first jump in those directions is emitted. |
| Moves.PieceMovesOf | lista2/src/board.cpp:115-137 | A piece's moves start at it and end on a different empty square. They include every empty neighbour and every first jump, and are closed under further jumps. |
| Moves.AllMoves | lista2/src/board.cpp:115-137 | The same, over a list of pieces: each move starts at one of them. |
| Moves.LegalMoves | lista2/src/board.cpp:108-140 | Every move starts at one of the player's pieces and ends on a different empty in-board square, by a step or a chain of jumps that never continues from a step, so every move is a step or an even displacement. Every empty neighbour, every first jump and every further jump from a destination is offered. |
| Metrics.FirstStrategy | lista2/src/main.cpp:7-10 | Non-negative, 0 exactly for a null move, and at least each coordinate distance. |
| Metrics.ThirdStrategy | lista2/src/main.cpp:18-21 | Non-negative and 0 exactly for a null move. third ≤ first ≤ 2·third, and it is 1 exactly for a single step. |
| Metrics.JumpMetrics | lista2/src/main.cpp:7-21 | A single jump has Chebyshev length 2 and Manhattan length 2 or 4. |

## Left out

- Floating point: the heuristic, distances and maximum velocity (`astar_heuristics`, `astar_get_distance`, `astar_get_max_velocity`) are replaced by the parameter `h`; `second_strategy` is not modelled.
- Input and output: `read_data`, both `main` functions, the lista2 game loop, and every print in `astar_compute`. The end-of-search message and the route printout are left out; the route is returned as stages.
- The priority queue: the frontier is a set. `Step` pops any node, which covers the queue's order and the stale priorities left by improved open nodes (the heap never holds a node twice); path optimality is not claimed.
- The outer loop of `astar_compute` is not modelled as one function; `Run` takes the sequence of popped nodes as a parameter.
- `astar_compute`'s `optimize_time` argument is unused in the code and has no counterpart.
- The `astar` class declared in `lista1/zad1/astar.h` has no implementation in the code and is not modelled; neither are minimax and the board members without a body (`undo_move`, `get_winner`, the heuristics, `hash_position`).
- Route.Walk: bounded by fuel; the source walks forever if the back-pointers form a cycle. WalkChain and WalkFindsChain state what a finished walk returns.
- Route.Stages: a route with no boarded stage (no legs, or every leg on the line "") gives no stages, whereas the source still prints the final alighting lines.
- Search.Start: requires 0 ≤ start ≤ the largest id; on other start ids the source indexes outside the table, which is undefined.
- TimeFormat.TimeToStr: requires t ≥ 0, because C++ division truncates toward zero and negative times are never formatted.
- TimeFormat.TimeToInt: strings model C byte strings, one char per byte in 0..255, so non-ASCII text is taken as its encoded bytes; the same holds for TimeFormat.CStrLen and the string order TripOrder.StrLess.
- Machine integers are unbounded in the model: `int` overflow in times, costs, ids and the `hash_stop_ids` counter is not modelled.
- Moves.LegalMoves: does not claim the list is free of duplicates. The first jump from a piece is not checked against the visited set, so a square reachable by two chains can be offered twice.
- Board.MovePiece: requires the origin to hold 1 or 2 and the destination 0, as the source's asserts do. On other inputs the source is undefined.
