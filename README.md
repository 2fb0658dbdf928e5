# Rodeo scheduling in Dafny

A model of the "Rodeo" round-robin engine of padel-services and of the
services and web client around it. A Rodeo takes a list of two-person
teams, a number of rounds and a number of courts, and:

- picks how many matches each team plays, the largest number that splits
  into whole matches and fits on the courts round by round
  (`getMatchesPerTeam`);
- draws a circulant graph in which every team has exactly that many
  opponents, for each gender separately when every gender can play on its
  own (`makeEdges`, `k_regular_even`, `k_regular_odd`);
- cuts the graph's edges into rounds, greedily first and then, depending
  on the version, by backtracking search (`makeMatchingsHeuristic`,
  `makeMatchingsBacktracking`, the C++ brute force). The current Go version
  searches when a greedy round is empty or the number of greedy rounds is
  not the number of rounds it plays; the earlier Go snapshot searches when
  fewer greedy rounds than `TotalRounds` come back, which is always, since
  its greedy walk returns none; the C++ version searches only when the
  greedy walk leaves an edge in the graph; the Python sketch never searches;
- validates the schedule (no team twice in a round, every team playing
  equally often) and turns it into numbered rounds of matches on courts.

The same engine exists in four versions, each modelled on its own terms:

- the current Go package `pkg/tournament`;
- the earlier Go snapshot `padel-services/pkg/tournament`;
- the C++ library and its CSV front end (`src/lib/tournament`, `src/apps/padel_tournament_maker`);
- the Python sketch `docs/poc-algorithm.py`.

Around the engine the model covers:

- the services that read teams from a chat message, create a tournament and convert it for the PDF template;
- rebuilding a stored tournament from database rows;
- the Telegram Mini App's allow list and init-data signature check;
- the web client's team store, configuration form, creation request, session provider and route guard.

Code that changes state step by step is modelled as methods with loops,
or as classes whose methods update fields. Each one is proved against a
specification function, and the properties of those functions are proved
as lemmas. Pure code is modelled as functions and lemmas.

Where the same function appears verbatim in several versions, one member
models all of them:

- `getMatchesPerTeam`, parameterised by whether it tests `teamsNumber > matchesPerTeam`: the Go versions and the web client do; the C++ and Python versions do not;
- `makeEdges` and its two helpers;
- the Go `tournament.go` types;
- the PDF conversion, whose legacy members only restate the current ones over the legacy types.

Go map iteration, Python `set.pop` and the backtracking's edge choice are
modelled as an arbitrary choice (`:|`). C++ `std::set` and `std::map` are
visited in ascending order. A panic, an uncaught exception or C++
undefined behaviour becomes the `Err` of a `Result`, named after what the
runtime would report.

The model follows the code where it differs from the documented design:

- removing a team never raises an error (`splice`): an index at or past
  the end removes nothing, and a negative index removes a team counted from
  the end (the first team when it is below `-length`);
- the team list the store hands out is the live array;
- a 403 answer from `/auth` ends as "Authentication failed", because the
  later `setError` replaces "Access denied: user not allowed.".

## Model

Functions that only spell out what a source expression or library call
computes carry no row of their own; the rows of the methods that use them
and of the round-trip lemmas about them state what they mean:
`JsNumbers.ParseInt` (`parseInt`) through `JsNumbers.ParseIntRoundTrip` and
`JsNumbers.NumTextRoundTrip`; `PdfTemplate.TeamLabel`, `PdfTemplate.PdfMatchOf`
and `PdfTemplate.FormatDate` (the `"2006-01-02"` layout) through
`PdfTemplate.PdfRoundsShape`, `PdfTemplate.TemplateMatches` and
`PdfTemplate.FormatDateRoundTrip`; `Validation.ErrorText` (the `fmt.Errorf`
messages) through `Validation.ValidateTournamentRounds`, which picks the
error, and `Factory.BuildRodeo`, which returns its message; and
`CreateService.ScanLines` (`bufio.ScanLines`) through
`CreateService.ScanLinesRoundTrip` and `CreateService.MakeTeamsFromMessage`.

| member | source | states |
|---|---|---|
| Graphs.Graph.constructor | pkg/tournament/graph.go:55-59 | `NewGraph` starts with no nodes |
| Graphs.Graph.Empty | pkg/tournament/graph.go:12-21 | true exactly when no node has a neighbour (isolated keys allowed) |
| Graphs.Graph.RemoveEdge | pkg/tournament/graph.go:23-37 | returns true iff either endpoint is a key; both directions are deleted and every key is kept |
| Graphs.Graph.AddEdge | pkg/tournament/graph.go:109-119 | both directions stored, neighbour sets created on demand, nothing else changed |
| Graphs.Graph.GetCopy | pkg/tournament/graph.go:39-53 | a fresh graph with the same adjacency, isolated nodes included |
| Graphs.Graph.GetNeighbors | pkg/tournament/graph.go:61-69 | each neighbour of `n` exactly once; none for an unknown node |
| Graphs.Graph.GetAdjacentEdges | pkg/tournament/graph.go:71-79 | the edge `{n, v}` exactly once per neighbour `v` |
| Graphs.Graph.Size | pkg/tournament/graph.go:81-87 | half the number of stored directions |
| Graphs.Graph.GetEdgesIterator | pkg/tournament/graph.go:89-107 | every stored pair yielded once in one orientation, nothing else yielded |
| Graphs.NoEdgesNoArcs | pkg/tournament/graph.go:12-21 | the graph is empty iff no direction is stored |
| Graphs.Handshake | pkg/tournament/graph.go:81-87 | a symmetric loop-free adjacency stores every undirected edge twice |
| Graphs.SizeCountsEdges | pkg/tournament/graph.go:81-87 | `Size` is the number of undirected edges when adjacency is symmetric and loop-free |
| Graphs.EmptyIffSizeZero | pkg/tournament/graph.go:12-21 | `Empty` and `Size() == 0` agree on symmetric loop-free graphs |
| Graphs.AddEdgeSymmetric | pkg/tournament/graph.go:109-119 | adding an edge keeps adjacency symmetric and adds exactly its two directions |
| Graphs.RemoveEdgeSymmetric | pkg/tournament/graph.go:23-37 | removing an edge keeps symmetry and loop-freedom and removes exactly its two directions |
| Graphs.RemoveEdgeShrinks | pkg/tournament/graph.go:23-37 | removing a present edge strictly shrinks the graph |
| Teams.GetAllGenders | pkg/tournament/team.go:11-13 | Male, Female, Else in declaration order, and nothing else |
| Teams.GenderFromString | pkg/tournament/team.go:15-24 | "Male"/"M" give Male, "Female"/"F" give Female, all other text gives Else |
| Teams.LegacyGenderFromString | padel-services/pkg/tournament/team.go:11-20 | only the full names are recognised; all other text is Else |
| Teams.GenderParsersAgree | padel-services/pkg/tournament/team.go:11-20 | the two parsers differ exactly on "M" and "F" |
| Teams.GenderCount | pkg/tournament/team.go:52-60 | the number of teams of the given gender |
| Teams.GetTeamsByGender | pkg/tournament/team.go:62-70 | the teams of the gender, in their original order |
| Teams.FilterGender | pkg/tournament/team.go:62-70 | keeps exactly the teams of the gender; its length is their count |
| Teams.FilterGenderAppend | pkg/tournament/team.go:62-70 | filtering distributes over concatenation (order is kept) |
| Teams.CountsCoverTeams | pkg/tournament/team.go:52-60 | with known genders the three counts add up to the number of teams |
| Teams.CountsWithinTeams | pkg/tournament/team.go:52-60 | the three counts never exceed the number of teams |
| Tournaments.TournamentTypeToString | pkg/tournament/tournament.go:55-62 | "Rodeo" for the Rodeo type; any other value is the error "invalid tournament type: N" |
| Tournaments.GetTournamentType | padel-services/pkg/tournament/rodeo.go:84-86 | every rodeo reports a non-empty type |
| Tournaments.RodeoTypeHasName | padel-services/pkg/tournament/tournament.go:58-65 | naming the type of any rodeo succeeds with "Rodeo" |
| Feasibility.Search | pkg/tournament/rodeo_factory.go:196-213 | counting down from `m`: either no value down to 1 fits (result all zeros) or the result is the largest fitting value at most `m` with its total and average |
| Feasibility.GetMatchesPerTeam | pkg/tournament/rodeo_factory.go:192-214 | the loop returns the largest `m <= totalRounds` that gives a whole number of matches, fits the courts (and, in Go, stays below the number of teams), or `(0, 0, 0)` exactly when no `m` fits |
| Feasibility.DrawFor | pkg/tournament/rodeo_factory.go:197-205 | the triple for a fitting `m`: `2 * totalMatches == n * m` when `n * m` is even |
| Feasibility.Ceil | pkg/tournament/rodeo_factory.go:238 | `math.Ceil`: the least integer not below the value |
| Feasibility.CeilWithinCourts | pkg/tournament/rodeo_factory.go:205 | the rounded-up matches per round never exceed the courts |
| Feasibility.MoreCourtsNeverFewerMatches | pkg/tournament/rodeo_factory.go:205 | more courts never lower the matches per team |
| Feasibility.TeamBoundOnlyLowers | src/lib/tournament/rodeo_factory.cpp:61-84 | the C++ and Python versions, which drop the `teamsNumber > matchesPerTeam` test, never return a smaller `m` than Go |
| Feasibility.TeamBoundLeavesOpponents | pkg/tournament/rodeo_factory.go:205 | with Go's test every team has more teams than matches to play |
| Feasibility.ExampleSixTeams | pkg/tournament/rodeo_factory.go:192-214 | 6 teams, 3 rounds, 2 courts give `(6, 2, 2)` |
| Feasibility.ExampleEightTeams | pkg/tournament/rodeo_factory.go:192-214 | 8 teams, 8 rounds, 5 courts give 7 matches per team (28 matches) |
| Feasibility.ExampleEightTeamsUnbounded | src/lib/tournament/rodeo_factory.cpp:61-84 | without the `n > m` test the same request gives 8 matches per team, more than the 7 opponents each team has |
| Feasibility.ExampleFiveTeams | docs/poc-algorithm.py:7-24 | 5 teams, 5 rounds, 2 courts give `(10, 2, 4)`, with or without the `n > m` test |
| Circulant.Canonical | pkg/tournament/rodeo_factory.go:293-301 | the edge joins the same two nodes, smaller id first |
| Circulant.Rem | pkg/tournament/rodeo_factory.go:312 | Go's truncated `%`: below `n` in size, with the sign of the dividend |
| Circulant.BackwardIndex | pkg/tournament/rodeo_factory.go:310-313 | `(jIndex%n + n) % n` for `jIndex = i - count` is a different position, `n - count` steps clockwise of `i` |
| Circulant.ForwardIndex | pkg/tournament/rodeo_factory.go:318-320 | `jIndex % n` for `jIndex = i + count` is a different position, `count` steps clockwise of `i` |
| Circulant.AddBackwardPairs | pkg/tournament/rodeo_factory.go:309-315 | the first inner loop adds, for row `i`, the pairs at the `k/2` counter-clockwise distances and nothing else |
| Circulant.AddForwardPairs | pkg/tournament/rodeo_factory.go:317-322 | the second inner loop adds, for row `i`, the pairs at the `k/2` clockwise distances and nothing else |
| Circulant.KRegularEven | pkg/tournament/rodeo_factory.go:303-326 | every pair of positions within `k/2` steps either way round is an edge, and no other pair is |
| Circulant.PartnerIndex | pkg/tournament/rodeo_factory.go:335 | `(i + n/2) % n` is the opposite position, a different node exactly `n/2` steps away |
| Circulant.KRegularOdd | pkg/tournament/rodeo_factory.go:328-340 | the even pattern for `k - 1` plus every node's opposite: exactly the pairs at the `k` chosen distances |
| Circulant.MakeEdges | pkg/tournament/rodeo_factory.go:342-359 | no edges unless `n * k` is even and `n > k`; otherwise the circulant graph whose pairs are exactly those at the `k` chosen distances |
| Circulant.OddProductEven | pkg/tournament/rodeo_factory.go:349-357 | an odd `k` reaches `kRegularOdd` only with an even number of nodes |
| Circulant.OffsetCount | pkg/tournament/rodeo_factory.go:342-359 | exactly `k` clockwise distances are paired |
| Circulant.CirculantDegree | pkg/tournament/rodeo_factory.go:342-359 | every node has exactly `k` partners: the graph is `k`-regular |
| Circulant.CirculantEdgeCount | pkg/tournament/rodeo_factory.go:342-359 | whenever the circulant graph is built on `n` distinct nodes it holds exactly `n * k / 2` pairings |
| Circulant.CirculantCanonical | pkg/tournament/rodeo_factory.go:293-301 | no node is paired with itself and every edge is stored once, smaller id first |
| GenderOrder.Prepend | pkg/tournament/rodeo_factory.go:368-373 | the team followed by the slice, one longer |
| GenderOrder.AlternationPositions | pkg/tournament/rodeo_factory.go:394-402 | an alternating loop puts the teams at even positions in front, latest first, and those at odd positions behind, in order |
| GenderOrder.AlternationKeepsTeams | pkg/tournament/rodeo_factory.go:394-402 | an alternating loop neither drops nor duplicates a team |
| GenderOrder.AlternateAround | pkg/tournament/rodeo_factory.go:394-402 | the loop over one bucket yields the teams in front, the block so far, then the teams behind |
| GenderOrder.GenderBuckets | pkg/tournament/rodeo_factory.go:383-387 | the bucket of every gender holds exactly that gender's teams in input order (a missing key reads as empty) |
| GenderOrder.OrderTeamsByGender | pkg/tournament/rodeo_factory.go:381-415 | the Male teams around the Else teams around the Female block, built by the alternating loops |
| GenderOrder.OrderKeepsKnownTeams | pkg/tournament/rodeo_factory.go:381-415 | every Male, Female and Else team appears exactly once; teams of any other gender value are dropped |
| GenderOrder.OrderKeepsAllKnown | pkg/tournament/rodeo_factory.go:381-415 | with known genders only, no team is lost |
| GenderOrder.FemaleBlockContiguous | pkg/tournament/rodeo_factory.go:375-380 | the Female teams stay together, in input order, in the middle |
| GenderOrder.LegacyAlternateAround | padel-services/pkg/tournament/rodeo_factory.go:307-325 | the older loop prepends only while `top` is set, which it clears once and never sets again |
| GenderOrder.LegacyOrderTeamsByGender | padel-services/pkg/tournament/rodeo_factory.go:296-327 | the older arrangement, `top` carried from the Else loop into the Male loop |
| GenderOrder.LegacyAlternateKeeps | padel-services/pkg/tournament/rodeo_factory.go:307-325 | an older loop neither drops nor duplicates a team |
| GenderOrder.LegacyKeepsTeams | padel-services/pkg/tournament/rodeo_factory.go:296-327 | the older version keeps exactly the teams the current one keeps |
| GenderOrder.LegacyOneInFront | padel-services/pkg/tournament/rodeo_factory.go:296-327 | in the older version at most one team goes in front of the Female block |
| GenderOrder.LegacyOrderDiffers | padel-services/pkg/tournament/rodeo_factory.go:307-316 | three Else teams come out as `[c, a, b]` now and `[a, b, c]` in the older version |
| GenderOrder.CountAbsent | pkg/tournament/rodeo_factory.go:174-180 | a gender no team carries is counted 0 |
| GenderOrder.CanAllGendersPlayOnlyAgainstEachOther | pkg/tournament/rodeo_factory.go:171-190 | true exactly when each of the three genders has more than `matchesPerTeam` teams (a stray gender value in the counts is covered too) |
| GenderOrder.CountTeam | pkg/tournament/rodeo_factory.go:178-180 | one more team adds one to its gender's count, creating the entry for a gender outside the three known ones, so every count is that of the teams seen so far |
| Heuristic.FirstNotPlaying | pkg/tournament/rodeo_factory.go:248-257 | the first neighbour, in the order given, that is not playing; when none is found every neighbour is playing |
| Heuristic.AddToRound | pkg/tournament/rodeo_factory.go:259-268 | pairing two idle nodes keeps the open round a matching one edge larger |
| Heuristic.AddToSchedule | pkg/tournament/rodeo_factory.go:265-270 | a scheduled pair is removed from the graph, so no pair is scheduled twice |
| Heuristic.PairUp | pkg/tournament/rodeo_factory.go:259-271 | a node is paired only when it and its partner are idle; the graph then loses that edge and the round gains it |
| Heuristic.Visit | pkg/tournament/rodeo_factory.go:245-281 | one visit of the inner loop keeps the schedule a set of matchings of removed graph edges and closes a round only when it is full or the last one |
| Heuristic.MakeMatchingsHeuristic | pkg/tournament/rodeo_factory.go:232-291 | every returned round is a non-empty matching of at most `ceil(avg)` graph edges; no pair is repeated; only round `total - 1` may be short, and a short round only once the graph has no edge left; the edges used are those removed from the graph; with one match per round, one round to make and an edge, at least one round comes out |
| Backtracking.OptionsAmong | pkg/tournament/rodeo_factory.go:477-482 | the options count over the first `j` buckets is at most `j` |
| Backtracking.PlaceKeepsState | pkg/tournament/rodeo_factory.go:507-515 | placing an edge into a bucket that admits it keeps every bucket a matching within the size limit, disjoint from the others and from the edges left |
| Backtracking.PackingExtend | pkg/tournament/rodeo_factory.go:513-517 | a solution found after a placement completes the state before it |
| Backtracking.PackingRestrict | pkg/tournament/rodeo_factory.go:505-517 | a completion that puts the edge into bucket `i` is a completion of the state after that placement |
| Backtracking.PackingAdmits | pkg/tournament/rodeo_factory.go:505-507 | a bucket that takes an edge in some completion passes the admission test now |
| Backtracking.RefusedAfterFailure | pkg/tournament/rodeo_factory.go:513-523 | a failed recursive call rules bucket `i` out for the edge in every completion |
| Backtracking.RefusedWhenFull | pkg/tournament/rodeo_factory.go:505-507 | a bucket that fails the admission test takes the edge in no completion |
| Backtracking.RefusedEverywhere | pkg/tournament/rodeo_factory.go:526 | an edge no bucket can take in any completion leaves no completion: `false` is returned only when no solution exists |
| Backtracking.OptionsPositive | pkg/tournament/rodeo_factory.go:477-482 | a bucket that admits the edge makes its options count positive |
| Backtracking.CopyMatchings | pkg/tournament/rodeo_factory.go:529-536 | a copy with the same buckets in the same positions |
| Backtracking.Solver.constructor | pkg/tournament/rodeo_factory.go:441 | the search state starts from the given buckets, node sets and edges |
| Backtracking.Solver.CountOptions | pkg/tournament/rodeo_factory.go:477-482 | counts the buckets whose nodes avoid both ends and that are below the size limit |
| Backtracking.Solver.ChooseEdge | pkg/tournament/rodeo_factory.go:472-495 | returns a remaining edge; `stuck` only for an edge with no options; otherwise the edge has the fewest options, or a single one when the loop stops early |
| Backtracking.Solver.ConsiderEdge | pkg/tournament/rodeo_factory.go:477-491 | returns the edge's option count; an edge with options replaces the kept one exactly when it has fewer, so the kept edge has the fewest options of all edges visited |
| Backtracking.Solver.SolveRecursive | pkg/tournament/rodeo_factory.go:451-527 | `found` gives a completion of the buckets it started from; `!found` restores the state and holds exactly when no completion exists |
| Backtracking.Solver.TryBucket | pkg/tournament/rodeo_factory.go:500-524 | one bucket tried for the chosen edge: a find is a completion, a failure undoes the placement and rules the bucket out |
| Backtracking.Solver.NoPackingWhenStuck | pkg/tournament/rodeo_factory.go:484-486 | an edge with no options leaves no completion, so the early `false` is sound |
| Backtracking.Solver.Restored | pkg/tournament/rodeo_factory.go:519-522 | undoing a placement gives back the buckets, node sets and edges of before |
| Backtracking.EmptyBuckets | pkg/tournament/rodeo_factory.go:429-432 | `totalMatchings` empty buckets |
| Backtracking.StartState | pkg/tournament/rodeo_factory.go:429-441 | empty buckets with every edge still to place form a search state |
| Backtracking.NewBuckets | pkg/tournament/rodeo_factory.go:429-437 | the two `make` loops give `n` empty buckets and `n` empty node sets |
| Backtracking.EdgeSet | pkg/tournament/rodeo_factory.go:439-442 | the set holds exactly the listed edges, one per entry |
| Backtracking.ListedEdges | pkg/tournament/rodeo_factory.go:422-427 | the iterator's edges, as a set, are the graph's edges each once |
| Backtracking.MakeMatchingsBacktracking | pkg/tournament/rodeo_factory.go:417-449 | `Ok` is an assignment of every graph edge to one of `totalMatchings` rounds, each a matching of at most `ceil(avg)` edges; the error is returned exactly when no such assignment exists |
| LegacyBacktracking.SuffixMembers | padel-services/pkg/tournament/rodeo_factory.go:372-376 | the edges still to place are those at positions `edgeIdx` onwards |
| LegacyBacktracking.SuffixStep | padel-services/pkg/tournament/rodeo_factory.go:393 | placing the edge at `edgeIdx` leaves exactly the later ones |
| LegacyBacktracking.LegacySolver.constructor | padel-services/pkg/tournament/rodeo_factory.go:349 | the search starts from the given buckets and node sets |
| LegacyBacktracking.LegacySolver.SolveRecursive | padel-services/pkg/tournament/rodeo_factory.go:358-405 | edges placed in list order: `found` gives a completion, `!found` restores the state and holds exactly when no completion exists |
| LegacyBacktracking.LegacySolver.TryBucket | padel-services/pkg/tournament/rodeo_factory.go:380-402 | one bucket tried for the edge at `edgeIdx`; a failure undoes the placement and rules the bucket out |
| LegacyBacktracking.MakeMatchingsBacktracking | padel-services/pkg/tournament/rodeo_factory.go:329-356 | the same guarantee as the current version: a complete assignment, or the error exactly when none exists |
| Validation.EndCountStep | pkg/tournament/rodeo_factory.go:593-594 | one more pairing moves the count of its endpoint by one |
| Validation.IncStep | pkg/tournament/rodeo_factory.go:593-594 | adding one pairing moves a node's count by its occurrences in it |
| Validation.PrefixStep | pkg/tournament/rodeo_factory.go:561-563 | one more round adds its size to the running total and its counts to every node's |
| Validation.FirstOversized | pkg/tournament/rodeo_factory.go:551-556 | none exactly when every round holds at most the limit; otherwise the first round over it |
| Validation.ScanRepeats | pkg/tournament/rodeo_factory.go:562-569 | a reported pairing is in the round and was already scheduled; none exactly when the round shares nothing with the record, which then gains the round |
| Validation.RecordRound | pkg/tournament/rodeo_factory.go:568 | a round sharing nothing with the earlier ones keeps the rounds so far pairwise disjoint |
| Validation.FirstRepeat | pkg/tournament/rodeo_factory.go:558-570 | none exactly when no pairing is in two rounds, and then the count is the number of pairings; otherwise the first round that repeats an earlier pairing |
| Validation.ScanNodes | pkg/tournament/rodeo_factory.go:580-595 | none exactly when the round is a matching (then the counts gain its endpoints); otherwise a node touched by two of its pairings |
| Validation.ScanAdvance | pkg/tournament/rodeo_factory.go:591-594 | taking a pairing with two free nodes keeps the scan state |
| Validation.Clash | pkg/tournament/rodeo_factory.go:583-589 | a pairing that meets a node already in the round breaks the matching |
| Validation.CountPairing | pkg/tournament/rodeo_factory.go:593-594 | counting both endpoints of one more pairing keeps the counts exact |
| Validation.Bump | pkg/tournament/rodeo_factory.go:593 | `counts[v] += 1` where a missing key reads as 0; other keys unchanged |
| Validation.FirstDoubleBooking | pkg/tournament/rodeo_factory.go:577-596 | none exactly when every round is a matching, and then each playing node's count is its number of matches; otherwise the first round with a node in two matches |
| Validation.SomeWrongCount | pkg/tournament/rodeo_factory.go:598-603 | none exactly when every counted node plays `matchesPerTeam` times; otherwise such a node |
| Validation.ValidateTournamentRounds | pkg/tournament/rodeo_factory.go:538-606 | no error exactly when the schedule has the right number of rounds, each within the limit, no pairing twice, the right total, every round a matching and every playing team at `matchesPerTeam`; each error is the first failed check in the source's order, with its numbers |
| Validation.DegreePositive | pkg/tournament/rodeo_factory.go:598-601 | a counted node occurs in some pairing, so its team lookup is in range |
| Factory.NewRodeoFactory | pkg/tournament/rodeo_factory.go:361-366 | `turns` becomes the round limit and the courts are kept |
| Factory.Iota | pkg/tournament/rodeo_factory.go:56-60 | the integers `lo` to `hi - 1` in order |
| Factory.NodeRange | pkg/tournament/rodeo_factory.go:143-145 | the node-numbering loop yields exactly `lo` to `hi - 1` in order |
| Factory.IotaDistinct | pkg/tournament/rodeo_factory.go:143-145 | the numbered nodes are distinct |
| Factory.IotaMembers | pkg/tournament/rodeo_factory.go:143-145 | the numbered nodes are exactly `lo` to `hi - 1` |
| Factory.GenderBounds | pkg/tournament/rodeo_factory.go:138-147 | the Male, Female and Else node ranges follow each other from 0 |
| Factory.OtherBlockUntouched | pkg/tournament/rodeo_factory.go:149-153 | adding one gender's pairings leaves the other blocks as they were |
| Factory.SplitByGender | pkg/tournament/rodeo_factory.go:136-147 | the teams grouped Male, Female, Else in input order, and each gender's nodes are its consecutive range |
| Factory.SplitGender | pkg/tournament/rodeo_factory.go:140-146 | the teams of the next gender are appended in input order and their nodes are the next consecutive range |
| Factory.BlockPairings | pkg/tournament/rodeo_factory.go:149-153 | each gender block holds `makeEdges` of its own nodes and no pairing crosses blocks, whatever the order of the map |
| Factory.GenderBlock | pkg/tournament/rodeo_factory.go:150-152 | `makeEdges` of one gender's nodes fills exactly that gender's range and leaves the other blocks as they were |
| Factory.DoneBlocked | pkg/tournament/rodeo_factory.go:149-153 | once every gender is done, the pairings are blocked |
| Factory.AddBlock | pkg/tournament/rodeo_factory.go:150-152 | a block's pairings fill exactly its own range |
| Factory.AddBlockCovers | pkg/tournament/rodeo_factory.go:150-152 | after a block is added, every pairing lies in a finished block |
| Factory.AddBlockFills | pkg/tournament/rodeo_factory.go:150-152 | after a block is added, finished blocks hold `makeEdges` of their nodes and unfinished ones are empty |
| Factory.BlocksAfterAdd | pkg/tournament/rodeo_factory.go:150-152 | adding pairings to an empty block fills that block only |
| Factory.BlockedWithinTeams | pkg/tournament/rodeo_factory.go:136-153 | the gender blocks lie inside the team indexes |
| Factory.AddAll | pkg/tournament/rodeo_factory.go:165-167 | the graph stores both directions of exactly the given pairings |
| Factory.ArcsOfStep | pkg/tournament/rodeo_factory.go:166 | one more pairing adds its two directions |
| Factory.NoLoopArcs | pkg/tournament/rodeo_factory.go:165-167 | pairings between different nodes give a graph without self-loops |
| Factory.GetGraph | pkg/tournament/rodeo_factory.go:129-169 | a symmetric loop-free graph of the pairing edges: per-gender `makeEdges` blocks when every gender can play only against itself, otherwise `makeEdges` on all teams with the gender arrangement |
| Factory.TotalSizeBound | pkg/tournament/rodeo_factory.go:549-556 | rounds of at most `maxPer` pairings hold at most `rounds * maxPer` |
| Factory.RoundsNumberTooFew | pkg/tournament/rodeo_factory.go:65-69 | as written, 7 teams with 3 rounds and 3 courts get 2 rounds, which no valid schedule fits |
| Factory.CeilCapacity | pkg/tournament/rodeo_factory.go:67 | `ceil(t / r)` matches in each of `r` rounds make room for `t` |
| Factory.FittingRoundsHoldAll | pkg/tournament/rodeo_factory.go:65-69 | with the intended cut the rounds always have room for every match, and a round is dropped exactly when the rest suffice |
| Factory.FittingRoundsSevenTeams | pkg/tournament/rodeo_factory.go:65-69 | the intended cut keeps the 3 rounds the 7-team case needs |
| Factory.NoRoundIsEmpty | pkg/tournament/rodeo_factory.go:81-87 | true exactly when no round is empty |
| Factory.ScheduleRounds | pkg/tournament/rodeo_factory.go:77-94 | the greedy rounds when there are enough and none is empty, otherwise the search's: `roundsNumber` matchings of graph edges within the limit, or the search's error exactly when no assignment exists |
| Factory.RoundsWithinTeams | pkg/tournament/rodeo_factory.go:107-112 | every scheduled pairing is a graph pairing between team indexes, so the team lookups are in range |
| Factory.MatchesOfRound | pkg/tournament/rodeo_factory.go:104-121 | one match per pairing in some order, teams looked up by node, courts numbered from 1 |
| Factory.MatchesOfRounds | pkg/tournament/rodeo_factory.go:102-124 | one list of matches per round, in round order |
| Factory.BuildRodeo | pkg/tournament/rodeo_factory.go:75-126 | after a usable draw: a Rodeo whose rounds passed validation, or the search's error, or the validation's message |
| Factory.ValidateAndList | pkg/tournament/rodeo_factory.go:96-126 | a schedule that fails validation gives its message; one that passes becomes the Rodeo |
| Factory.ShowBuilt | pkg/tournament/rodeo_factory.go:96-126 | the parts of a built Rodeo combine into `Built` |
| Factory.MakeTournament | pkg/tournament/rodeo_factory.go:52-127 | no draw gives the fixed error; otherwise a Rodeo named "Rodeo" with the start date, the ordered teams and validated rounds of graph pairings with courts from 1, or one of the two later failures |
| LegacyFactory.NewLegacyRodeoFactory | padel-services/pkg/tournament/rodeo_factory.go:282-287 | `turns` becomes `TotalRounds` and the courts are kept |
| LegacyFactory.LegacyVisit | padel-services/pkg/tournament/rodeo_factory.go:167-203 | with nobody playing and an empty open round, a visit pairs nobody and changes nothing, since it pairs only nodes already playing |
| LegacyFactory.LegacyMakeMatchingsHeuristic | padel-services/pkg/tournament/rodeo_factory.go:153-212 | as written no round ever comes back and the graph is left as it was |
| LegacyFactory.PackedPairings | padel-services/pkg/tournament/rodeo_factory.go:69-73 | the pairings the search lists are those `makeEdges` produced, each once |
| LegacyFactory.PackedWithinTeams | padel-services/pkg/tournament/rodeo_factory.go:91-96 | the pairings of a search assignment join team indexes, so the team lookups are in range |
| LegacyFactory.BlockWithinTeams | padel-services/pkg/tournament/rodeo_factory.go:69 | `makeEdges` on nodes `0..n-1` joins team indexes below `n` |
| LegacyFactory.LegacyOrderKeepsAll | padel-services/pkg/tournament/rodeo_factory.go:56 | with known genders the ordering keeps every team |
| LegacyFactory.LegacyListRounds | padel-services/pkg/tournament/rodeo_factory.go:86-110 | the search's rounds become the Rodeo: one match per pairing, teams looked up in the ordered list, courts numbered from 0 |
| LegacyFactory.LegacyMakeTournament | padel-services/pkg/tournament/rodeo_factory.go:51-111 | no draw gives the fixed error; otherwise the exhaustive search always runs, and its assignment of all `makeEdges` pairings into `TotalRounds` rounds becomes the Rodeo, or its error comes back exactly when no assignment exists |
| RodeoCsv.RoundTexts | padel-services/pkg/tournament/rodeo.go:58-77 | one line per round, round `k` numbered `k + 1` |
| RodeoCsv.CsvText | padel-services/pkg/tournament/rodeo.go:51-82 | the text is empty exactly when there are no rounds |
| RodeoCsv.SerializeToCSV | padel-services/pkg/tournament/rodeo.go:51-82 | the builder loops produce exactly the text: per round "Round i," then "Match j,P1 - P2,P1 - P2," per match, and a newline |
| RodeoCsv.WriteMatches | padel-services/pkg/tournament/rodeo.go:63-73 | the builder gains exactly the numbered cells of the round's matches, in order |
| RodeoCsv.CellsStep | padel-services/pkg/tournament/rodeo.go:68-72 | writing the three cells of match `j` extends the round's cells by one match |
| RodeoCsv.LineStep | padel-services/pkg/tournament/rodeo.go:60-76 | writing one round line extends the text by one round |
| RodeoCsv.MatchCellsNoNewline | padel-services/pkg/tournament/rodeo.go:68-70 | with newline-free ids, a round's cells hold no newline |
| RodeoCsv.RoundTextNoNewline | padel-services/pkg/tournament/rodeo.go:60-73 | with newline-free ids, a round line holds no newline |
| RodeoCsv.CsvIsJoin | padel-services/pkg/tournament/rodeo.go:51-82 | the text is the round lines joined by newlines with a final empty piece |
| RodeoCsv.CsvLines | padel-services/pkg/tournament/rodeo.go:51-82 | splitting the text at newlines gives back the round lines (and a final empty piece) when ids hold no newline |
| CppGreedy.SmallestIn | src/lib/tournament/rodeo_factory.cpp:257 | `*possible_matches.begin()` is the smallest element of the set |
| CppGreedy.MaxNodeId | src/lib/tournament/rodeo_factory.cpp:159-162 | the largest id any pairing names, or -1 with no pairings |
| CppGreedy.EmptyRows | src/lib/tournament/rodeo_factory.cpp:164-167 | an empty neighbour set for exactly the ids `0..max` |
| CppGreedy.NeighboursAdd | src/lib/tournament/rodeo_factory.cpp:173-174 | one more pairing adds its other end to a node's neighbours |
| CppGreedy.StoreStep | src/lib/tournament/rodeo_factory.cpp:169-175 | storing one pairing both ways keeps the adjacency equal to the pairings seen |
| CppGreedy.InsertBoth | src/lib/tournament/rodeo_factory.cpp:169-175 | every pairing stored in both directions, entries created as needed, nothing else stored |
| CppGreedy.AddBoth | src/lib/tournament/rodeo_factory.cpp:170-174 | one pairing stored in both directions keeps every row equal to its node's neighbours among the pairings stored so far |
| CppGreedy.RangeKeys | src/lib/tournament/rodeo_factory.cpp:159-167 | the ids `0..max` together with the endpoints are exactly the nodes `from_set` creates |
| CppGreedy.NeighboursSymmetric | src/lib/tournament/rodeo_factory.cpp:173-174 | storing both directions gives symmetric adjacency, loop-free for loop-free pairings |
| CppGreedy.FromSet | src/lib/tournament/rodeo_factory.cpp:157-178 | a fresh graph with a node for every id up to the largest and every endpoint, whose neighbours are exactly the pairings' other ends |
| CppGreedy.PairSmallest | src/lib/tournament/rodeo_factory.cpp:250-267 | an idle node is paired with its smallest idle neighbour, which the graph then loses |
| CppGreedy.Visit | src/lib/tournament/rodeo_factory.cpp:247-275 | one visit keeps the walk's state and closes a round when it is full or the last one with an empty graph |
| CppGreedy.OnlyNeighbour | src/lib/tournament/rodeo_factory.cpp:257 | in a graph of degree at most one a stored neighbour is the only one |
| CppGreedy.SettleAdded | src/lib/tournament/rodeo_factory.cpp:260-266 | pairing two nodes in the first walk of such a graph empties both their neighbour sets |
| CppGreedy.SettleIdle | src/lib/tournament/rodeo_factory.cpp:255 | a node left unpaired in the first walk of such a graph has no neighbour |
| CppGreedy.Pass | src/lib/tournament/rodeo_factory.cpp:247-276 | one walk over the nodes in ascending order keeps the state; pairing something shrinks the graph; after it a graph of degree at most one is empty |
| CppGreedy.MakeMatchings | src/lib/tournament/rodeo_factory.cpp:233-284 | every returned round is a loop-free matching of at most `ceil(avg)` starting-graph edges (possibly empty), no pairing twice, only the last round short and a short round only once the graph has no edge left, the pairings used gone from the graph; a graph of degree at most one is emptied |
| CppSearch.SmallestEdge | src/lib/tournament/rodeo_factory.cpp:205-206 | `remaining_edges.begin()` is the smallest pair, by first then second node |
| CppSearch.PlaceCovers | src/lib/tournament/rodeo_factory.cpp:216-223 | placing an edge keeps the buckets and the edges left a split of all edges |
| CppSearch.ChildrenLighter | src/lib/tournament/rodeo_factory.cpp:210-227 | fewer children than buckets, each with one edge less, weigh less than their parent: the stack search ends |
| CppSearch.StepLighter | src/lib/tournament/rodeo_factory.cpp:197-227 | replacing the popped state by its children lowers the stack's weight |
| CppSearch.PlaceReached | src/lib/tournament/rodeo_factory.cpp:213-225 | placing an edge into a bucket that admits it gives a reached state with one edge less to place |
| CppSearch.StartReached | src/lib/tournament/rodeo_factory.cpp:192-193 | the initial state, empty buckets and every edge to place, is reached |
| CppSearch.DoneIsPacking | src/lib/tournament/rodeo_factory.cpp:201-203 | a reached state with nothing left is a complete schedule |
| CppSearch.Offer | src/lib/tournament/rodeo_factory.cpp:211-226 | one bucket offered the edge: a child is pushed only when the bucket admits it, and a completion through that bucket stays on the stack |
| CppSearch.Expand | src/lib/tournament/rodeo_factory.cpp:205-227 | the children of a state are reached, one per admitting bucket, and every completion of the state extends one of them |
| CppSearch.SearchStep | src/lib/tournament/rodeo_factory.cpp:195-228 | a pop either returns a complete schedule or leaves a stack of reached states that still holds any completion it held |
| CppSearch.MakeMatchingsBruteForce | src/lib/tournament/rodeo_factory.cpp:180-231 | either `total` rounds that put every edge into exactly one round, each a matching within `ceil(avg)`, or no rounds, and then no such schedule exists |
| CppValues.PersonOf | src/lib/team/person.hpp:11-16 | a person built from a name takes age 35, male, beginner |
| CppValues.CppTeam.constructor | src/lib/team/team.hpp:31 | a team holds the two people it was built from |
| CppValues.ResultEquals | src/lib/tournament/match.hpp:15-17 | equal exactly when both game counts agree |
| CppValues.ResultDiffers | src/lib/tournament/match.hpp:19 | the negation of equality |
| CppValues.DefaultMatch | src/lib/tournament/match.hpp:30-32 | no teams, a zero result, status TBD |
| CppValues.NewMatch | src/lib/tournament/match.hpp:34-35 | both teams set, a zero result, not started |
| CppValues.MatchEquals | src/lib/tournament/match.hpp:40-43 | on the matches where it is defined, exactly value equality, team pointers compared by identity |
| CppValues.MatchDiffers | src/lib/tournament/match.hpp:45 | as written it holds exactly when the matches are equal |
| CppValues.MatchDiffersFromItself | src/lib/tournament/match.hpp:45 | every complete match "differs" from itself as written, and not under the intended operator |
| CppValues.MatchDiffersIntended | src/lib/tournament/match.hpp:45 | the intended operator holds exactly when the matches differ |
| CppValues.MatchesCompareIdentity | src/lib/tournament/match.hpp:40-43 | matches built from two equal but distinct team objects are not equal |
| CppValues.TurnEquals | src/lib/tournament/tournament.hpp:49 | two turns are equal exactly when they have the same matches in the same order |
| CppValues.CppTournament.constructor | src/lib/tournament/tournament.hpp:19-20 | the tournament keeps its teams and turns |
| CppValues.CppTournament.Equals | src/lib/tournament/tournament.hpp:28-55 | equal exactly when the team lists have equal teams position by position and the turns are equal |
| CppValues.CppTournament.NotEquals | src/lib/tournament/tournament.hpp:57 | the negation of `==` |
| CppFactory.Uint32 | src/lib/tournament/rodeo_factory.cpp:37 | an `int` passed as a `uint` count wraps modulo 2^32 and is unchanged when already in range |
| CppFactory.Iota | src/lib/tournament/rodeo_factory.cpp:21-24 | `std::iota` fills the slots with `0..n-1` |
| CppFactory.MatchesOf | src/lib/tournament/rodeo_factory.cpp:47-53 | one `Match(teams.at(e1), teams.at(e2))` per listed pairing, in order |
| CppFactory.SortedEdges | src/lib/tournament/rodeo_factory.cpp:47 | the pairings of a `std::set` in ascending order, each once |
| CppFactory.BuildTurns | src/lib/tournament/rodeo_factory.cpp:43-55 | each turn lists its round's pairings in ascending order as matches between the team objects |
| CppFactory.BuildTurn | src/lib/tournament/rodeo_factory.cpp:46-53 | one turn: the round's pairings in ascending order, each made a match between the two team objects |
| CppFactory.NeighbourWithin | src/lib/tournament/rodeo_factory.cpp:33 | an edge of `make_edges(iota(n), m)` joins indexes below `n` |
| CppFactory.AsWrittenWithin | src/lib/tournament/rodeo_factory.cpp:45-53 | every round turned into matches names indexes below `n`, so `teams.at` never throws |
| CppFactory.Plan | src/lib/tournament/rodeo_factory.cpp:21-37 | the draw without the `n > m` test, the circulant edges, the graph `from_set` builds and the greedy rounds on it |
| CppFactory.CppRodeoFactory.constructor | src/lib/tournament/rodeo_factory.hpp:45-46 | the factory keeps the rounds and courts it was given |
| CppFactory.CppRodeoFactory.MakeTournament | src/lib/tournament/rodeo_factory.cpp:18-58 | as written: the greedy rounds, replaced by the search's only when the greedy walk leaves an edge in the graph, listed as turns over the input teams |
| CppFactory.CppRodeoFactory.MakeTournamentFixed | src/lib/tournament/rodeo_factory.cpp:36-41 | with the corrected fallback, every circulant pairing is scheduled exactly once, or there are no rounds and no schedule exists |
| CppFactory.FindInRounds | src/lib/tournament/rodeo_factory.cpp:36-41 | true exactly when some round holds the pairing in either orientation |
| CppFactory.CoversAll | src/lib/tournament/rodeo_factory.cpp:36-41 | true exactly when the rounds hold every edge |
| CppFactory.PackingSchedule | src/lib/tournament/rodeo_factory.cpp:180-231 | a schedule the search returns schedules every edge exactly once |
| CppFactory.GreedySchedule | src/lib/tournament/rodeo_factory.cpp:233-284 | greedy rounds that leave no edge out schedule every edge exactly once |
| CppFactory.ScheduleWithin | src/lib/tournament/rodeo_factory.cpp:45-53 | a schedule of the circulant edges names indexes below `n` |
| CppDroppedTurn.MatchingWithout | src/lib/tournament/rodeo_factory.cpp:255-266 | a loop-free matching less one pairing is a matching missing both its teams |
| CppDroppedTurn.EndpointsSize | src/lib/tournament/rodeo_factory.cpp:255-266 | a loop-free matching meets twice as many teams as it has pairings |
| CppDroppedTurn.PlayedCount | src/lib/tournament/rodeo_factory.cpp:243-281 | when no team plays in two rounds, the teams met are twice the pairings |
| CppDroppedTurn.ApartFromDegree | src/lib/tournament/rodeo_factory.cpp:243-281 | rounds drawn without repeats from a graph of degree at most one never share a team |
| CppDroppedTurn.ThreeFullRounds | src/lib/tournament/rodeo_factory.cpp:269-275 | with a limit of two and four rounds, three rounds hold at least six pairings |
| CppDroppedTurn.OnlyPartner | src/lib/tournament/rodeo_factory.cpp:118-131 | with ten teams and one match each, a team's only partner is five places round the circle |
| CppDroppedTurn.TenTeamsDraw | src/lib/tournament/rodeo_factory.cpp:61-84 | ten teams, four rounds, two courts draw five matches, one per team, two courts per round |
| CppDroppedTurn.SomeTeamNeverPlays | src/lib/tournament/rodeo_factory.cpp:36-41 | as written, ten teams with four rounds and two courts get rounds in which some team never plays |
| CppDroppedTurn.GreedyMissesATeam | src/lib/tournament/rodeo_factory.cpp:233-284 | the greedy rounds on a perfect matching of ten teams, two per round, leave a team out |
| CppDroppedTurn.TenTeamsGreedy | src/lib/tournament/rodeo_factory.cpp:36-41 | in that case the graph has degree one, the greedy walk empties it and its rounds are kept |
| CppDroppedTurn.ScheduleEveryTeamPlays | src/lib/tournament/rodeo_factory.cpp:133-146 | with the corrected fallback every team plays, since every circulant pairing is scheduled and each team has a partner |
| CppValidate.LastIndex | src/lib/tournament/rodeo_factory.cpp:293-296 | `team_to_int` keeps a team's last position; none for an unlisted team |
| CppValidate.IndexTeams | src/lib/tournament/rodeo_factory.cpp:292-296 | the index maps each listed team to its last position, and every position `0..n-1` starts at count 0 |
| CppValidate.PairOf | src/lib/tournament/rodeo_factory.cpp:311-312 | the pair of positions of a match's two teams |
| CppValidate.PairsOf | src/lib/tournament/rodeo_factory.cpp:299-313 | a turn becomes a set of position pairs within the team list |
| CppValidate.AllPairs | src/lib/tournament/rodeo_factory.cpp:298-314 | one set of position pairs per turn |
| CppValidate.CollectTurn | src/lib/tournament/rodeo_factory.cpp:301-313 | the first complaint of a turn (a missing team, or the `at` exception for an unlisted team), else its pairs |
| CppValidate.CollectPairs | src/lib/tournament/rodeo_factory.cpp:298-314 | the first complaint over the turns, else their pairs |
| CppValidate.TurnFaultFree | src/lib/tournament/rodeo_factory.cpp:305-312 | a turn passes the first pass exactly when each match has both teams and both are listed |
| CppValidate.FaultFree | src/lib/tournament/rodeo_factory.cpp:298-314 | the first pass passes exactly when every match of every turn does |
| CppValidate.CheckTurn | src/lib/tournament/rodeo_factory.cpp:318-340 | the first team met twice in a turn's ordered pairs, else the counts grow by each team's occurrences |
| CppValidate.CheckTurns | src/lib/tournament/rodeo_factory.cpp:316-341 | the first complaint over the turns, else every position's count is its number of matches |
| CppValidate.OrderTurns | src/lib/tournament/rodeo_factory.cpp:316-320 | each turn's set of pairs visited in ascending order |
| CppValidate.DistinctCounts | src/lib/tournament/rodeo_factory.cpp:343-346 | exactly the counts some position has |
| CppValidate.Spread | src/lib/tournament/rodeo_factory.cpp:348 | more than one distinct count exactly when some count differs from the first |
| CppValidate.ValidateRodeo | src/lib/tournament/rodeo_factory.cpp:286-353 | the first pass's complaint if any; otherwise the verdict of the later passes on the ordered pairs |
| CppValidate.ListingUnique | src/lib/tournament/rodeo_factory.cpp:320 | the ascending listing of a set is unique, so the verdict is determined |
| CppValidate.ListingSize | src/lib/tournament/rodeo_factory.cpp:320 | a listing holds each element once |
| CppValidate.ClashFromNone | src/lib/tournament/rodeo_factory.cpp:324-333 | no complaint in a turn exactly when no two of its pairs share a team (and none repeats a team already seen) |
| CppValidate.FirstClashNone | src/lib/tournament/rodeo_factory.cpp:316-341 | no complaint over the turns exactly when no turn has two pairs sharing a team |
| CppValidate.JudgeValid | src/lib/tournament/rodeo_factory.cpp:316-352 | accepted exactly when no team plays twice in a turn and every position plays equally often |
| CppValidate.SelfPairingAccepted | src/lib/tournament/rodeo_factory.cpp:320-340 | a one-team rodeo whose match pits the team against itself is accepted |
| CppValidate.TurnPairs | src/lib/tournament/rodeo_factory.cpp:299-313 | a turn built from listed position pairs of distinct teams gives those pairs back |
| CppValidate.CollectsAll | src/lib/tournament/rodeo_factory.cpp:298-314 | turns that each collect their round give back all the rounds |
| CppValidate.FactoryTurnsPass | src/lib/tournament/rodeo_factory.cpp:43-55 | the factory's turns over distinct teams pass the first pass and give back the rounds |
| CppValidate.ListedTurn | src/lib/tournament/rodeo_factory.cpp:45-54 | a turn listing its round in ascending order collects that round |
| CppStream.Open | src/apps/padel_tournament_maker/rodeo_maker.cpp:11 | a fresh string stream reads the whole text from its start, good and not at its end |
| CppStream.NextDelim | src/apps/padel_tournament_maker/rodeo_maker.cpp:16-21 | the first delimiter at or after the position, or the end of the text, with no delimiter before it |
| CppStream.GetLine | src/apps/padel_tournament_maker/rodeo_maker.cpp:16-21 | `std::getline` fails exactly when the stream is already at its end or failed; otherwise it moves forward and the line holds no delimiter |
| CppStream.PiecesSplit | src/apps/padel_tournament_maker/rodeo_maker.cpp:21-34 | the lines the reading loop visits are the text split at the delimiter, less an empty last piece |
| CppStream.PiecesFrom | src/apps/padel_tournament_maker/rodeo_maker.cpp:21-34 | the same, from any position of the text |
| CppStream.SkipSpace | src/apps/padel_tournament_maker/rodeo_maker.cpp:17 | `std::stoi` skips the leading white space and stops at the first other character |
| CppStream.DigitRun | src/apps/padel_tournament_maker/rodeo_maker.cpp:17 | the run of decimal digits `std::stoi` reads ends at the first non-digit |
| CppStream.Stoi | src/apps/padel_tournament_maker/rodeo_maker.cpp:17-19 | a number within `int`, or `invalid_argument` / `out_of_range` |
| CppStream.StoiRoundTrip | src/apps/padel_tournament_maker/rodeo_maker.cpp:17-19 | reading back the decimal notation of any `int` gives that number |
| CppRodeoMaker.Rows | src/apps/padel_tournament_maker/rodeo_maker.cpp:21-34 | one row per line, or undefined behaviour at the first line with fewer than two cells (`row[1]` out of range) |
| CppRodeoMaker.RowLines | src/apps/padel_tournament_maker/rodeo_maker.cpp:21-34 | one line per row, each the two names separated by a comma |
| CppRodeoMaker.ParseCsvRoundTrip | src/apps/padel_tournament_maker/rodeo_maker.cpp:9-34 | a written input whose names hold no comma or newline (and a non-empty second name) reads back as courts, turns and the same rows |
| CppRodeoMaker.ParseHeader | src/apps/padel_tournament_maker/rodeo_maker.cpp:16-19 | two header lines holding numbers are read as the courts and the turns, and the remaining lines as rows |
| CppRodeoMaker.BodyRoundTrip | src/apps/padel_tournament_maker/rodeo_maker.cpp:21-34 | the lines of written rows read back as those rows |
| CppRodeoMaker.NumberHasNoNewline | src/apps/padel_tournament_maker/rodeo_maker.cpp:16-19 | a written number holds no newline, so it fills one header line |
| CppRodeoMaker.GetLineFirst | src/apps/padel_tournament_maker/rodeo_maker.cpp:16-18 | reading one line returns the text before the delimiter and moves past it |
| CppRodeoMaker.CellsOfRow | src/apps/padel_tournament_maker/rodeo_maker.cpp:26-31 | a readable row's line splits into exactly its two names |
| CppRodeoMaker.RowsRoundTrip | src/apps/padel_tournament_maker/rodeo_maker.cpp:21-34 | written rows read back as the same rows |
| CppRodeoMaker.ReadCells | src/apps/padel_tournament_maker/rodeo_maker.cpp:22-28 | the inner loop collects exactly the comma-separated cells of the line |
| CppRodeoMaker.ReadTeams | src/apps/padel_tournament_maker/rodeo_maker.cpp:21-34 | one new, distinct team per remaining line holding the people the row names, or undefined behaviour when a line has fewer than two cells |
| CppRodeoMaker.TeamsGrow | src/apps/padel_tournament_maker/rodeo_maker.cpp:33 | a team not yet listed, built from the next row, keeps the list distinct and in step with the rows |
| CppRodeoMaker.RowsStep | src/apps/padel_tournament_maker/rodeo_maker.cpp:21-34 | one line read either adds its row or stops the reading at undefined behaviour |
| CppRodeoMaker.MakeFromCsv | src/apps/padel_tournament_maker/rodeo_maker.cpp:9-40 | the parse error if any; otherwise the factory's tournament for the parsed courts, turns and teams |
| CppRodeoMaker.DomainTeam | src/apps/padel_tournament_maker/rodeo_maker.cpp:56-57 | a team written as the names of its two people |
| CppRodeoMaker.DomainMatch | src/apps/padel_tournament_maker/rodeo_maker.cpp:52-57 | a complete match written as its two teams |
| CppRodeoMaker.DomainTurn | src/apps/padel_tournament_maker/rodeo_maker.cpp:50-59 | a turn's matches in order |
| CppRodeoMaker.DomainTurns | src/apps/padel_tournament_maker/rodeo_maker.cpp:47-62 | the turns in order |
| CppRodeoMaker.RodeoToCsv | src/apps/padel_tournament_maker/rodeo_maker.cpp:41-67 | `bad_optional_access` when a match lacks a team; otherwise the same CSV text the Go writer produces, one line per round |
| CppRodeoMaker.WriteMatches | src/apps/padel_tournament_maker/rodeo_maker.cpp:49-59 | the inner loop appends the numbered cells of each match, or stops at the first incomplete one |
| CppRodeoMaker.MatchesStep | src/apps/padel_tournament_maker/rodeo_maker.cpp:55-58 | one more match's cells extend the text of the matches before it |
| CppRodeoMaker.IncompleteTurn | src/apps/padel_tournament_maker/rodeo_maker.cpp:52-53 | one incomplete match makes the whole tournament incomplete |
| CppRodeoMaker.TurnsStep | src/apps/padel_tournament_maker/rodeo_maker.cpp:47-62 | one more turn's line extends the text of the turns before it |
| CppRodeoMaker.MadeIsComplete | src/lib/tournament/rodeo_factory.cpp:43-55 | every match the factory makes has both teams, so writing its tournament never throws |
| CppRodeoMaker.CsvHasOneLinePerTurn | src/apps/padel_tournament_maker/rodeo_maker.cpp:47-62 | with newline-free names, the text splits into one line per turn and a final empty piece |
| Poc.PrintedDraw | docs/poc-algorithm.py:7-28 | the draw the sketch prints for 5 teams, 5 rounds and 3 courts is 10 matches, 2 per turn, 4 per team |
| Poc.FromSet | docs/poc-algorithm.py:79-92 | rows `0..n-1` for the `n` distinct teams, each holding the team's neighbours, exactly when every pairing has two distinct teams below `n`; otherwise `AssertionError` or `KeyError`, the latter whenever no pairing is a single team |
| Poc.EmptyRows | docs/poc-algorithm.py:83 | one empty row for each of `0..n-1` and no other |
| Poc.AddPairing | docs/poc-algorithm.py:85-90 | succeeds exactly when the pairing has two distinct teams below `n`, storing both directions; a single-team pairing raises `AssertionError`, otherwise a team outside the rows raises `KeyError` |
| Poc.RowsAdd | docs/poc-algorithm.py:85-90 | storing both directions of one more pairing keeps every row equal to the neighbours of the pairings stored so far |
| Poc.NumberedWithoutGaps | docs/poc-algorithm.py:81-90 | every pairing lies within the rows exactly when the teams are numbered `0..n-1` without a gap |
| Poc.IsEmpty | docs/poc-algorithm.py:76-77 | true exactly when the graph stores no direction of any pairing |
| Poc.Scan | docs/poc-algorithm.py:144-155 | the first fault over the turns, with the index of a turn that exists |
| Poc.CheckTurn | docs/poc-algorithm.py:145-155 | the inner loop reports a turn's first fault; without one every team's count grows by its matches in the turn |
| Poc.ValidateTurns | docs/poc-algorithm.py:139-163 | the loops return exactly the verdict of the specification: the "plays twice" message with the turn's `repr`, `KeyError` for a team that is not a node, the uneven message, or `None` |
| Poc.ScanStops | docs/poc-algorithm.py:144-150 | once a prefix of the turns holds a fault, the whole scan reports that fault |
| Poc.Uneven | docs/poc-algorithm.py:157-161 | more than one distinct count means two nodes with different counts |
| Poc.Even | docs/poc-algorithm.py:157-161 | at most one distinct count means all nodes have the same count |
| Poc.ScanTurnNone | docs/poc-algorithm.py:145-155 | a turn scans clean exactly when its teams are all nodes and none plays two of its matches |
| Poc.ScanNone | docs/poc-algorithm.py:144-155 | the turns scan clean exactly when every team is a node and no turn has a team in two matches |
| Poc.Accepts | docs/poc-algorithm.py:139-163 | a schedule is accepted exactly when all its teams are nodes, no team plays twice in a turn and every node plays equally often |
| PocTurns.Visit | docs/poc-algorithm.py:110-122 | one iteration keeps the walk's invariant and changes nothing exactly when node `i` finds nobody to play and the open turn stays open; otherwise it closes a turn or removes a pairing |
| PocTurns.Offer | docs/poc-algorithm.py:110-118 | a free node with a free neighbour plays it: one more clean match, taken out of the graph; otherwise nothing changes |
| PocTurns.Close | docs/poc-algorithm.py:119-122 | the open turn joins the result exactly when it is full, or when it is the last turn wanted and the graph is empty |
| PocTurns.Pairing | docs/poc-algorithm.py:112-118 | pairing a free node with a free neighbour keeps the graph symmetric and loop-free, removes that pairing and keeps every closed turn valid |
| PocTurns.ArcsShrink | docs/poc-algorithm.py:117-118 | a graph taken out of another holds no more directions |
| PocTurns.Pass | docs/poc-algorithm.py:109-122 | a pass over the keys keeps the invariant and changes nothing exactly when every node is idle and the open turn stays open |
| PocTurns.SubGraphTrans | docs/poc-algorithm.py:117-118 | removing pairings twice is removing pairings |
| PocTurns.AllIdleShrinks | docs/poc-algorithm.py:109-111 | idle over a longer prefix of the keys means idle over a shorter one |
| PocTurns.MakeTurns | docs/poc-algorithm.py:95-128 | at least `turns` turns, each clean, within `ceil(matches_per_turn)` matches when positive and made of pairings taken out of the graph; or a state in which a pass does nothing and the loop never ends |
| PocTurns.CleanApart | docs/poc-algorithm.py:111-116 | a turn built by the walk never has a team in two matches nor a team paired with itself |
| PocTurns.PlayersHas | docs/poc-algorithm.py:114-116 | both teams of every match are among the turn's players |
| CreateService.DropCR | padel-services/pkg/services/createtournament.go:36-37 | a scanned line loses a trailing carriage return and nothing else |
| CreateService.TeamOfLine | padel-services/pkg/services/createtournament.go:39-48 | a line with a comma describes a male team of its first two trimmed cells |
| CreateService.TeamOfLineNone | padel-services/pkg/services/createtournament.go:39-43 | a line is skipped exactly when it holds no comma |
| CreateService.SplitPieces | padel-services/pkg/services/createtournament.go:39-41 | `strings.Split` gives at least two pieces exactly when the separator occurs |
| CreateService.Options | padel-services/pkg/services/createtournament.go:36-48 | what each line describes, line by line |
| CreateService.Flat | padel-services/pkg/services/createtournament.go:41-48 | the described teams, no more than the lines, each one a described team |
| CreateService.TeamsOf | padel-services/pkg/services/createtournament.go:33-52 | at most one team per line, all male |
| CreateService.MakeTeamsFromMessage | padel-services/pkg/services/createtournament.go:33-52 | the loop returns the teams of the scanned lines that hold a comma, in order, and never an error |
| CreateService.OptionsStep | padel-services/pkg/services/createtournament.go:36-48 | one more line adds its own description and keeps the earlier ones |
| CreateService.FlatAppend | padel-services/pkg/services/createtournament.go:48 | appending keeps the order of teams across stretches of lines |
| CreateService.TeamsOfAppend | padel-services/pkg/services/createtournament.go:36-48 | consecutive stretches of lines give their teams one after the other |
| CreateService.FlatNone | padel-services/pkg/services/createtournament.go:41-43 | lines that describe nothing add no team |
| CreateService.TeamsOfPlain | padel-services/pkg/services/createtournament.go:41-43 | lines without a comma, such as the numeric header lines, add no team |
| CreateService.FlatSome | padel-services/pkg/services/createtournament.go:45-48 | lines that all describe teams give exactly those teams |
| CreateService.TeamLines | padel-services/pkg/services/createtournament.go:45-48 | one line per team, written with a comma between the two names |
| CreateService.MessageRoundTrip | padel-services/pkg/services/createtournament.go:33-52 | a message of comma-free header lines followed by the lines of male teams with clean names reads back as exactly those teams |
| CreateService.NotCR | padel-services/pkg/services/createtournament.go:45-46 | a clean name never ends with a carriage return |
| CreateService.TeamsOfTeamLines | padel-services/pkg/services/createtournament.go:36-48 | the lines of male teams with clean names read back as those teams |
| CreateService.LineOfTeam | padel-services/pkg/services/createtournament.go:39-48 | the line of a clean male team describes that team |
| CreateService.TrimLeadingSpace | padel-services/pkg/services/createtournament.go:45-46 | a trimmed name with a blank in front trims back to itself |
| CreateService.SplitLines | padel-services/pkg/services/createtournament.go:36-37 | lines closed by line feeds split into those lines and a final empty piece |
| CreateService.ScanLinesRoundTrip | padel-services/pkg/services/createtournament.go:36-37 | the scanner reads back the lines of a text made of lines closed by line feeds |
| CreateService.TenTeams | padel-services/pkg/services/createtournament.go:33-52 | a message with two number lines and ten team lines gives ten teams |
| CreateService.CreateTournament | padel-services/pkg/services/createtournament.go:10-31 | no tournament for a type other than "Rodeo" or for a draw of no matches; otherwise the legacy factory's tournament, or none exactly when the factory refuses |
| AllowList.UsersOfKeys | cmd/tgminiapp/allowedusers.go:31-38 | the filled map holds exactly the ids of the rows |
| AllowList.UsersOfLast | cmd/tgminiapp/allowedusers.go:33-38 | an id's entry is the logo and sports centre of the last row carrying it |
| AllowList.AllowedUsers.constructor | cmd/tgminiapp/allowedusers.go:31-42 | the list is filled from the rows, in row order |
| AllowList.AllowedUsers.IsUserAllowed | cmd/tgminiapp/allowedusers.go:26-29 | a user is allowed exactly when some row names them |
| AllowList.AllowedUsers.GetLogoPath | cmd/tgminiapp/allowedusers.go:18-24 | the logo of the last row naming the user, or the error "user <id> does not exist" exactly when no row names them |
| TelegramCheck.Get | cmd/tgminiapp/telegramverification.go:21 | `Values.Get` gives the first value of a key, or "" when it has none |
| TelegramCheck.Insert | cmd/tgminiapp/telegramverification.go:28 | inserting into a sorted sequence keeps it sorted and adds exactly that string |
| TelegramCheck.InsertHead | cmd/tgminiapp/telegramverification.go:28 | inserting past the head keeps the head in front |
| TelegramCheck.InsertFront | cmd/tgminiapp/telegramverification.go:28 | a string below the head goes in front and the sequence stays sorted |
| TelegramCheck.SortStrings | cmd/tgminiapp/telegramverification.go:28 | `sort.Strings` returns the same strings, sorted |
| TelegramCheck.SortedDistinct | cmd/tgminiapp/telegramverification.go:24-28 | sorted distinct keys are strictly ascending |
| TelegramCheck.AscendingUnique | cmd/tgminiapp/telegramverification.go:24-28 | two strictly ascending sequences of the same keys are the same sequence |
| TelegramCheck.Entries | cmd/tgminiapp/telegramverification.go:30-33 | one `key=value` line per key, in the keys' order |
| TelegramCheck.VerifyTelegram | cmd/tgminiapp/telegramverification.go:15-58 | the parse error, or "invalid hash" when the HMAC of the sorted data-check string under HMAC("WebAppData", bot token) differs from the `hash` field, or the decoded user id or its error; every failure with id 0; the signed keys are all but `hash`, ascending |
| TelegramCheck.MapKeys | cmd/tgminiapp/telegramverification.go:24-27 | ranging over the map collects every key exactly once |
| TelegramCheck.CheckLines | cmd/tgminiapp/telegramverification.go:30-33 | the loop builds the `key=value` lines of the keys in order |
| TelegramCheck.DistinctAfterSort | cmd/tgminiapp/telegramverification.go:24-28 | sorting keeps the keys, so distinct keys stay distinct |
| TelegramCheck.CheckStringDetermined | cmd/tgminiapp/telegramverification.go:24-34 | the data-check string does not depend on the order in which the map hands out its keys |
| TelegramCheck.HashNotSigned | cmd/tgminiapp/telegramverification.go:21-22 | replacing the received `hash` field leaves the data-check string unchanged |
| TelegramCheck.CheckStringLines | cmd/tgminiapp/telegramverification.go:30-34 | with newline-free keys and values the data-check string splits back into its `key=value` lines |
| PdfTemplate.Surname | pkg/services/pdftournament.go:187-196 | the last blank-separated word of a name: no blank in it, a suffix of the name, preceded by a blank unless it is the whole name |
| PdfTemplate.SurnameOfFullName | pkg/services/pdftournament.go:187-196 | a full name keeps its last word |
| PdfTemplate.PdfMatches | pkg/services/pdftournament.go:184-200 | one template match per match of the round |
| PdfTemplate.PdfRounds | pkg/services/pdftournament.go:181-207 | one template round per round |
| PdfTemplate.PdfRoundsShape | pkg/services/pdftournament.go:181-207 | round `k` is numbered `k + 1` and so is each of its matches, with empty scores, surname labels and the court in decimal reading back as the court |
| PdfTemplate.Zeros | pkg/services/pdftournament.go:180 | a run of zero digits of the given length |
| PdfTemplate.Padded | pkg/services/pdftournament.go:180 | a number in decimal, zero-filled to at least the width |
| PdfTemplate.ZerosValue | pkg/services/pdftournament.go:180 | leading zeros do not change a decimal value |
| PdfTemplate.PaddedValue | pkg/services/pdftournament.go:180 | a zero-filled number reads back as the number |
| PdfTemplate.FormatDateRoundTrip | pkg/services/pdftournament.go:180 | a date of years 0 to 9999 is written "YYYY-MM-DD" and its three fields read back from the digits |
| PdfTemplate.PaddedExact | pkg/services/pdftournament.go:180 | a number below 10^w is written in exactly w digits that read back as the number |
| PdfTemplate.ThreeFields | pkg/services/pdftournament.go:180 | three digit fields joined by dashes sit at the fixed positions |
| PdfTemplate.DigitsAtMost | pkg/services/pdftournament.go:180 | a number below 10^w has at most w digits |
| PdfTemplate.TemplateMatches | pkg/services/pdftournament.go:184-200 | the inner loop builds exactly the round's template matches |
| PdfTemplate.TemplateRounds | pkg/services/pdftournament.go:183-205 | the outer loop builds exactly the numbered template rounds |
| PdfTemplate.ToTemplateData | pkg/services/pdftournament.go:177-209 | the template data carries the given name, the start date as "2006-01-02" and exactly the converted rounds |
| PdfTemplate.FromTournamentToTemplateData | pkg/services/pdftournament.go:176-210 | the Rodeo's name, its start date as "2006-01-02" and its rounds converted |
| PdfTemplate.FromTournamentDataToTemplateData | pkg/services/pdftournament.go:212-246 | the same conversion of a stored tournament |
| PdfTemplate.TypeName | pkg/services/pdftournament.go:42-54 | "Rodeo" exactly for kind 0, "" for any other kind |
| PdfTemplate.KindsNumberedApart | pkg/tournament/tournament.go:20-24 | the tournament package's Rodeo value (1) has no name among the PDF kinds, whose Rodeo is 0 |
| LegacyPdfTemplate.LegacyFromTournamentToTemplateData | padel-services/pkg/services/pdftournament.go:136-170 | the legacy conversion gives the same name, date and rounds |
| LegacyPdfTemplate.LegacyFromTournamentDataToTemplateData | padel-services/pkg/services/pdftournament.go:172-206 | the legacy conversion of a stored tournament gives the same name, date and rounds |
| RetrieveTournament.SlotsOfFrom | pkg/database/retrievetournament.go:120-138 | every slot of round `k` comes from a row numbered `k` |
| RetrieveTournament.SlotsOfHas | pkg/database/retrievetournament.go:120-138 | every row's slot is among the slots of its round |
| RetrieveTournament.SlotsOfEmpty | pkg/database/retrievetournament.go:120-138 | round `k` has slots exactly when some row is numbered `k` |
| RetrieveTournament.FillsRange | pkg/database/retrievetournament.go:152-166 | `n` round numbers within `0..n-1` are all of `0..n-1` |
| RetrieveTournament.RegularRounds | pkg/database/retrievetournament.go:152-166 | rows read back without a panic are numbered exactly `0..R-1` |
| RetrieveTournament.TeamsByIdKeys | pkg/database/retrievetournament.go:142-150 | the team map holds exactly the ids of the team rows |
| RetrieveTournament.TeamsByIdLast | pkg/database/retrievetournament.go:142-150 | an id's team is the team of the last row carrying that id |
| RetrieveTournament.TeamsOfRowsShape | pkg/database/retrievetournament.go:142-147 | one team per row, in row order, with its two people and its gender parsed |
| RetrieveTournament.GroupByRound | pkg/database/retrievetournament.go:120-138 | the loop groups the slots of the rows by round number, each group in row order |
| RetrieveTournament.CollectTeams | pkg/database/retrievetournament.go:140-150 | the loop builds the teams in row order and the map of teams by id |
| RetrieveTournament.RoundMatches | pkg/database/retrievetournament.go:155-165 | a round's scheduled matches with the teams their ids name, or nothing exactly when an id is unknown (a nil dereference) |
| RetrieveTournament.BuildTournamentData | pkg/database/retrievetournament.go:107-170 | the name, date and teams in row order, and round `k` holding the matches of the rows numbered `k`; a panic exactly when the rows are not numbered `0..R-1` or name an unknown team |
| RetrieveTournament.RoundFails | pkg/database/retrievetournament.go:157-162 | a round naming an unknown team makes the rows panic with a nil dereference |
| RetrieveTournament.SlotsOfAppend | pkg/database/retrievetournament.go:120-138 | grouping rows read in two stretches gives the groups one after the other |
| RetrieveTournament.SlotsOfRound | padel-services/pkg/database/createtournament.go:118-128 | the rows one stored round writes group back to that round's slots and to nothing else |
| RetrieveTournament.RoundNumbersAppend | pkg/database/retrievetournament.go:120-138 | the round numbers of two stretches of rows are the union of theirs |
| RetrieveTournament.RoundNumbersOfRound | padel-services/pkg/database/createtournament.go:119-127 | the rows of a non-empty stored round carry only its index |
| RetrieveTournament.RegroupStep | pkg/database/retrievetournament.go:120-138 | one more stored round keeps every earlier round's group and adds its own |
| RetrieveTournament.RegroupStored | padel-services/pkg/database/createtournament.go:118-128 | the rows the store writes for non-empty rounds are numbered `0..R-1` and group back into exactly those rounds |
| JsNumbers.TrimJsSpace | client/src/pages/CreateTournamentPage.tsx:111 | `parseInt` drops leading white space and keeps the rest of the text |
| JsNumbers.DigitPrefix | client/src/pages/CreateTournamentPage.tsx:111 | the longest prefix of decimal digits |
| JsNumbers.NumText | client/src/pages/CreateTournamentPage.tsx:209 | a number in a template literal is its decimal notation, or "NaN" |
| JsNumbers.DigitPrefixAll | client/src/pages/CreateTournamentPage.tsx:111 | a text of digits is its own digit prefix |
| JsNumbers.ParseIntRoundTrip | client/src/pages/CreateTournamentPage.tsx:244 | `parseInt` reads back the decimal notation of every integer |
| JsNumbers.NumTextRoundTrip | client/src/pages/CreateTournamentPage.tsx:209 | a number written into a template literal reads back with `parseInt` as that number, `NaN` included |
| CreateTournamentPage.GenderToString | client/src/pages/CreateTournamentPage.tsx:23-34 | "Male", "Female" and "Mixed" exactly for codes 0, 1 and 2; any other value throws "Team gender not recognized" |
| CreateTournamentPage.GenderOptionsShown | client/src/pages/CreateTournamentPage.tsx:136-140 | every gender the add-team form offers is shown back with its label and never throws |
| CreateTournamentPage.SplicedInside | client/src/pages/CreateTournamentPage.tsx:94-96 | removing an existing position drops exactly that team and keeps the others in order |
| CreateTournamentPage.SplicedBeyond | client/src/pages/CreateTournamentPage.tsx:94-96 | an index past the end removes nothing |
| CreateTournamentPage.SplicedFromEnd | client/src/pages/CreateTournamentPage.tsx:94-96 | a negative index counts from the end, and one before the start removes the first team |
| CreateTournamentPage.TeamArray.constructor | client/src/pages/CreateTournamentPage.tsx:90 | a new, empty array of teams |
| CreateTournamentPage.TournamentStore.constructor | client/src/pages/CreateTournamentPage.tsx:89-90 | the store starts with a new, empty array of teams of its own |
| CreateTournamentPage.TournamentStore.AddTeam | client/src/pages/CreateTournamentPage.tsx:91-93 | the team is appended to the store's array in place |
| CreateTournamentPage.TournamentStore.RemoveTeam | client/src/pages/CreateTournamentPage.tsx:94-96 | the store's array, changed in place, becomes the array after `splice(index, 1)` |
| CreateTournamentPage.TournamentStore.GetTeams | client/src/pages/CreateTournamentPage.tsx:97 | hands out the store's array itself, not a copy |
| CreateTournamentPage.TeamsLoader | client/src/pages/CreateTournamentPage.tsx:100-103 | the loader data is the store's live array |
| CreateTournamentPage.DeleteShownTeam | client/src/pages/CreateTournamentPage.tsx:38-45 | the list the page loaded is the store's array, so after `handleDeleteTeam` it shows the teams less the one spliced out |
| CreateTournamentPage.RemoveLastUndoesAdd | client/src/pages/CreateTournamentPage.tsx:91-96 | removing at `-1` right after adding a team undoes the addition |
| CreateTournamentPage.AddTeamAction | client/src/pages/CreateTournamentPage.tsx:105-117 | the store gains the team of the two names and the parsed gender code |
| CreateTournamentPage.GetMatchesPerTeam | client/src/pages/CreateTournamentPage.tsx:161-186 | the loop returns the engine's draw with the `n > m` rule, none exactly when a count is `NaN` or no number of matches per team fits |
| CreateTournamentPage.DrawIsLargestFit | client/src/pages/CreateTournamentPage.tsx:166-183 | the largest fitting number of matches per team is the one the engine picks |
| CreateTournamentPage.NoFitNoDraw | client/src/pages/CreateTournamentPage.tsx:185 | when nothing fits the draw is `[0, 0, 0]` |
| CreateTournamentPage.ConfigMessage | client/src/pages/CreateTournamentPage.tsx:260-268 | "Configuration is not valid" exactly when the draw has no matches |
| CreateTournamentPage.ConfigMessageValid | client/src/pages/CreateTournamentPage.tsx:260-268 | the form says "not valid" exactly when a count is `NaN` or nothing fits; otherwise the number reported fits |
| CreateTournamentPage.NoRoundsNotValid | client/src/pages/CreateTournamentPage.tsx:188-192 | with no rounds, and on the untouched form, the configuration is not valid |
| CreateTournamentPage.SendRodeoTournament | client/src/pages/CreateTournamentPage.tsx:202-215 | an invalid date throws before any request; otherwise a POST to the query of type, date and counts with the bearer header and the teams as body |
| CreateTournamentPage.NoAmpersand | client/src/pages/CreateTournamentPage.tsx:209 | a written number holds no `&` |
| CreateTournamentPage.QueryRoundTrip | client/src/pages/CreateTournamentPage.tsx:209 | the query splits back into its four fields and its counts read back as the counts sent |
| CreateTournamentPage.ResponseNotice | client/src/pages/CreateTournamentPage.tsx:216-235 | the success notice exactly when the response is ok, otherwise "Tournament creation failed" / "Try again later" |
| AuthProvider.AuthState.constructor | client/src/components/AuthProvider.tsx:15-24 | the provider starts with no token, loading and no error |
| AuthProvider.AuthState.InitAuth | client/src/components/AuthProvider.tsx:25-58 | the request is always posted with whatever raw init data the signal holds, none included, because the guard tests the always-truthy SDK object; the state becomes the settled session: a token for an ok answer with a parsable body, otherwise the matching error, and loading stops |
| AuthProvider.SettleExclusive | client/src/components/AuthProvider.tsx:28-58 | after start-up the provider is not loading and holds a token exactly when it holds no error |
| AuthProvider.TokenOnlyOnSuccess | client/src/components/AuthProvider.tsx:46-51 | the token changes only when the server answers ok with a parsable body, and then it is that body's token |
| AuthProvider.ForbiddenEndsFailed | client/src/components/AuthProvider.tsx:42-48 | a 403 ends as "Authentication failed", the later message replacing "user not allowed" |
| AuthProvider.ErrorsNonEmpty | client/src/components/AuthProvider.tsx:32-54 | every error the provider records is a non-empty text |
| ProtectedRoute.Route | client/src/pages/ProtectedRoute.tsx:4-11 | throws the error exactly when it is a non-empty text; otherwise the waiting notice while loading, and the children after |
| ProtectedRoute.ValidatingAtStart | client/src/pages/ProtectedRoute.tsx:4-11 | before start-up settles the guard shows the waiting notice |
| ProtectedRoute.RouteAfterAuth | client/src/pages/ProtectedRoute.tsx:4-11 | once start-up has settled the guard never waits, renders the children exactly when a token was obtained and throws the error otherwise |

## Left out

- `GetFirstValidTournament` runs the generation in goroutines and takes the first valid result; concurrency is not modelled.
- File, network and database I/O is not modelled: the SQL queries, the transaction, the PDF rendering through headless Chrome, HTML templates and Telegram bot calls. Rows that come back from the database are parameters.
- HMAC-SHA256, hex encoding, URL query parsing and JSON decoding are parameters (`mac`, `hex`, `parsed`, `decodeUser`), not implementations.
- Page rendering, routing and the other JSX of the web client are not modelled; only the state and the values they compute are.
- Floating point is modelled as exact rationals (`real`): `matchesPerTurn` and its ceiling.
- Go's `int64` and JavaScript numbers are unbounded integers. JavaScript numbers beyond 2^53, fractions and exponent notation are not modelled; a JavaScript number is an integer or `NaN`.
- The `buildTournamentData` of the earlier Go snapshot writes into maps it never creates and always panics; it is not modelled.
- The earlier snapshot's `Graph` type is not part of the snapshot; the current `pkg/tournament/graph.go` stands in for it.
- The earlier snapshot's services call the factory without the context argument its signature asks for; the model passes a context that is never cancelled, and cancellation in `solveRecursive` is not modelled.
- `bufio.Scanner` fails on a line longer than 64 KiB; the model has no line limit.
- Go's nil and empty slices are not distinguished.
- The value of the SDK's `initData.raw` signal is a parameter of `initAuth`; the `Not a Telegram client` branch tests the SDK's module object, which is always truthy, so the model has no such branch.
- Parsing the chosen date and `Date.toISOString` are not modelled: the date reaches `sendRodeoTournament` as its ISO text, or as nothing when it is invalid.
- A `fetch` that rejects in `sendRodeoTournament` shows no notification and is not modelled.
- A form field that is absent (`formData.get` returning `null`) is not modelled; the fields are strings.
- `rodeo_to_csv` writes to a file named `test.txt`; the model returns the text.
- The stored rows of one round are assumed to come back in the order they were written; the SQL query does not ask for that order.
- Factory.MakeTournament: requires every team gender to be Male, Female or Else; another value makes the ordering drop teams and a team lookup index past the slice (a panic), which is not modelled.
- LegacyFactory.LegacyMakeTournament: requires every team gender to be Male, Female or Else, for the same reason.
- CreateService.CreateTournament: requires every team gender to be Male, Female or Else, because it calls the legacy factory; the teams read from a message are always male.
- PocTurns.MakeTurns: a call that never returns (a pass over the nodes that changes nothing while turns are missing) is the `Loops` outcome with the stuck state; the model does not say when that happens.
- CppValidate.ValidateRodeo: accepts a match that pits a team against itself; `SelfPairingAccepted` shows it, and no corrected validator is modelled.
- PdfTemplate.KindsNumberedApart: the PDF service numbers Rodeo 0 and the tournament package numbers it 1; the model records the mismatch and does not decide which is intended.

## Findings

| source | as written | input that shows it | evidently intended | confidence | as-written member | corrected member |
|---|---|---|---|---|---|---|
| pkg/tournament/rodeo_factory.go:65-69 | one round is dropped whenever `ceil(matchesPerTurn) * maxRounds - 1 > totalMatches`, whether or not the other rounds can hold every match | 7 teams, 3 rounds, 3 courts: 7 matches need 3 rounds of at most 3, but 2 rounds are kept | drop rounds only while the remaining rounds still hold every match | not executed | Factory.RoundsNumberTooFew | Factory.FittingRoundsHoldAll |
| padel-services/pkg/tournament/rodeo_factory.go:181 | a node is paired only when it is already playing, so the test is inverted | any graph with an edge: no round is ever produced | pair a node that is not yet playing | not executed | LegacyFactory.LegacyMakeMatchingsHeuristic | Heuristic.MakeMatchingsHeuristic |
| src/lib/tournament/rodeo_factory.cpp:61-84 | `get_matches_per_team` has no `teams_number > matches_per_team` test | 8 teams, 8 rounds, 5 courts: 8 matches per team, so `make_edges` returns no pairing | at most `n - 1` matches per team, as the Go version does (7 here) | not executed | Feasibility.ExampleEightTeamsUnbounded | Feasibility.TeamBoundLeavesOpponents |
| src/lib/tournament/match.hpp:45 | `operator!=` returns the same as `operator==` | any complete match compared with itself | the negation of `operator==` | not executed | CppValues.MatchDiffersFromItself | CppValues.MatchDiffersIntended |
| padel-services/pkg/tournament/rodeo_factory.go:307-325 | `orderTeamsByGender` never sets `top` back to true, so only the first Else or Male team goes in front and every later one is appended | three teams of gender Else `a, b, c` come out `a, b, c` | alternate front and back, as the current version does (`c, a, b` here) | not executed | GenderOrder.LegacyOrderDiffers | GenderOrder.OrderTeamsByGender |
| src/lib/tournament/rodeo_factory.cpp:39-41 | the brute-force fallback runs only when the greedy walk leaves an edge in the graph | 10 teams, 4 rounds, 2 courts: the greedy walk empties the graph but keeps only 2 pairings per round, so a team never plays | fall back whenever the greedy rounds do not schedule every edge | not executed | CppDroppedTurn.SomeTeamNeverPlays | CppFactory.CppRodeoFactory.MakeTournamentFixed |
