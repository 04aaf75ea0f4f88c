# Schelling segregation engine in Dafny

This project models the simulation core of a Python implementation of
Schelling's segregation model, and proves properties of that model.

The engine has two parts:

- **Agents.** Each agent has a race, an intolerance threshold and a position.
  It also has a similarity test, `rank_diff`, and a happiness decision,
  `is_happy`. An agent is happy when it has no neighbours, or when the share of
  "alike" neighbours is at least its intolerance.
- **The board.** It is a `height × width` matrix of cells, each holding an agent
  or nothing. It also keeps a list of free coordinates, the empty houses.
  `populate` chooses `num_empty` distinct empty houses by rejection sampling,
  then fills every other cell with an agent whose race comes from a cumulative
  probability list. `run` scans the board in row-major order and moves every
  unhappy agent at once to a free house chosen at random. Later cells in the
  same pass therefore see the moves already made. `run` stops after the first
  pass in which nobody moved, or when the iteration budget is used up.

The repository contains two such engines, and each has its own module:

- `Schelling` (`schelling.dfy`) models `schell/schelling.py`. Here an agent
  compares race, income or academic level, depending on the strategy its
  race selects. `run` returns the number of passes made. There are two
  statistics: the happiness share, and the mean neighbour similarity together
  with the happiness as percentages.
- `MySchelling` (`my_schelling.dfy`) models `schell/my_schelling.py`. It is the
  same board without statistics. Agents compare races directly, any race index
  is accepted, and `run` prints the number of unhappy agents of each pass
  instead of returning a count.

The two modules repeat the board machinery (neighbours, free list, scan,
statistics helpers) rather than share it, because the two Python files each
define their own `Agent` and `Board` classes with slightly different rules.

`Support` (`support.dfy`) holds what both engines share:
- coordinates;
- `math.ceil`;
- the race draw `next(i for i, p in enumerate(probs) if p >= u)`;
- rejection sampling and one round of it;
- functional list updates;
- the neighbour offsets;
- the counting lemmas.

Both `Agent` and `Board` are classes, because the Python code updates their
fields in place:
- an agent's `x` and `y` change when it moves;
- the board's `matrix` and `empty_houses` change.

The board's loops are methods with loop invariants. Most of them state their
result or the new board as a function of values, and the properties the code
promises are proved about those functions:
- `Neighbours` returns `NeighboursIn` of the matrix value `seq<seq<Agent?>>`;
- `ScanCell`, the body of the scan, leaves the board `ScanStep` of the old one;
- `Sweep`, one pass of `run`, leaves it `Pass` of the old one, the row-major
  fold of `ScanStep` in which each step sees the moves before it;
- `Run` leaves it, with its per-pass counts, `RunFrom` of the old one, the
  passes repeated until one counts nobody or the budget is used up;
- the statistics return `HappinessOf` and `SegregationHappinessOf` of the
  matrix;
- `CreateEmptyHouses` builds `FirstOccurrences` of the draws.

`Populate` states its new board cell by cell. A ghost set, `agents`, names the
agents on the board. The board invariant `Valid` says:
- the free list holds `num_empty` distinct in-bounds coordinates;
- those are exactly the empty cells;
- every agent's `(x, y)` is the cell that holds it.

The random number generator is replaced by explicit inputs:
- `create_empty_houses` consumes a sequence of drawn coordinates;
- `populate` takes one `random.uniform(0, 1)` draw per cell;
- `run` takes, for every pass and every cell, the free-list index that
  `random.randint(0, num_empty - 1)` would give if the occupant of that cell
  moves.

Some behaviour of the code that the model keeps:
- Neither the constructor nor `populate` checks its arguments. A negative size
  gives an empty matrix. A probability list that a draw does not reach fails
  only when such a draw comes.
- A free house leaves the free list through `list.pop`, which keeps the order
  of the remaining entries. The vacated cell is appended at the end.
- `run` in `schell/my_schelling.py` prints its per-pass counts and returns
  nothing; `run` in `schell/schelling.py` returns the number of passes.

## Model

| member | source | states |
|---|---|---|
| `Schelling.RankDiffIsRaceEquality` | schell/schelling.py:32-98 | for agents built by the constructor, each race's strategy (race, income or academic comparison) gives 0 or 1, and 0 exactly when the two races are equal |
| `Schelling.RankDiffSymmetric` | schell/schelling.py:97-98 | `rank_diff` between constructed agents is symmetric |
| `Schelling.Agent.constructor` | schell/schelling.py:65-84 | the agent keeps race, intolerance and position; races 0, 1 and 2 get the racial, economic and academic strategy with the income and academic values the code assigns |
| `Schelling.Agent.SimilarCount` | schell/schelling.py:108-113 | the number of alike neighbours never exceeds the number of neighbours |
| `Schelling.Agent.IsHappy` | schell/schelling.py:100-115 | the counting loop returns exactly `Satisfied`: no neighbours, or `similar >= intolerance * total` |
| `Schelling.SatisfiedIsRatioTest` | schell/schelling.py:115 | `Satisfied` is the code's test `total == 0 or similar / total >= intolerance`, both directions |
| `Schelling.TolerantAgentIsHappy` | schell/schelling.py:115 | an agent with intolerance at most 0 is happy whatever its neighbours |
| `Schelling.OverIntolerantAgentNeedsSolitude` | schell/schelling.py:115 | an agent with intolerance above 1 is happy exactly when it has no neighbours |
| `Schelling.Agent.Similarity` | schell/schelling.py:266-270 | the share of alike neighbours, as `calculate_segregation_happiness` records it, lies in [0, 1] |
| `Schelling.Agent.NeighbourStats` | schell/schelling.py:259-272 | the inner loop of `calculate_segregation_happiness` yields the similarity share and the same happiness decision as `is_happy` |
| `Schelling.Board.constructor` | schell/schelling.py:129-135 | a blank matrix of the given size (rows of length 0 for a negative size, as `range` gives), an empty free list, and `num_empty = ceil(width * height * empty_ratio)` |
| `Support.Ceil` | schell/schelling.py:134 | `r <= Ceil(r) < r + 1`, which is `math.ceil` |
| `Support.DrawFresh` | schell/schelling.py:145-151 | one round of rejection sampling consumes draws up to and including the first one not yet listed, and appends exactly that draw |
| `Schelling.Board.CreateEmptyHouses` | schell/schelling.py:137-152 | the free list becomes the first `num_empty` distinct coordinates of the draw stream, in draw order |
| `Support.FirstOccurrencesSound` | schell/schelling.py:144-152 | the coordinates kept by rejection sampling are distinct and are exactly the ones drawn |
| `Support.DistinctDrawsFit` | schell/schelling.py:144-152 | in-bounds draws give at most `width * height` distinct coordinates, so the loop can only finish when `num_empty <= width * height` |
| `Support.FirstAtLeast` | schell/schelling.py:170 | the race drawn is the smallest index whose cumulative probability reaches the draw, and there is none (StopIteration) exactly when no entry reaches it |
| `Schelling.Board.Populate` | schell/schelling.py:154-172 | afterwards the board invariant holds; the free list is the sampled one; every other cell holds an agent at that `(x, y)`, with the drawn race and that race's intolerance |
| `Schelling.Board.PopulateRow` | schell/schelling.py:166-172 | one row of the scan places a drawn agent in each unlisted cell and leaves listed cells empty |
| `Support.Put` | schell/schelling.py:206-207 | `matrix[y][x] = v` changes that one cell and keeps the shape |
| `Support.RemoveAt` | schell/schelling.py:202 | `list.pop(i)` drops entry `i`, keeps the order of the rest, and removes exactly one occurrence of `s[i]` |
| `Schelling.Board.MoveAgent` | schell/schelling.py:192-207 | the chosen free house is swapped for the vacated one at the end of the list; the agent's position and both cells are updated; the board invariant and the agent set are kept |
| `Schelling.Board.MoveKeepsFreeList` | schell/schelling.py:200-203 | after a move the free list is still without repeats and holds the old coordinates minus the chosen one plus the vacated one |
| `Schelling.Board.Neighbours` | schell/schelling.py:174-190 | the two offset loops return exactly `NeighboursIn`: occupants of the eight surrounding cells in the code's visiting order |
| `Schelling.Board.NeighboursAtMostEight` | schell/schelling.py:182-190 | an agent has at most 8 neighbours |
| `Schelling.Board.NeighboursAreAdjacent` | schell/schelling.py:183-189 | every neighbour comes from an in-bounds cell at Chebyshev distance 1, never the agent's own, with no wrap-around, listed in row-major order |
| `Schelling.Board.NeighboursComplete` | schell/schelling.py:183-189 | every occupied in-bounds cell at Chebyshev distance 1 contributes its agent |
| `Schelling.Board.ScanStep` | schell/schelling.py:224-230 | the scan step counts the occupant exactly when it is not content; a content occupant or an empty cell leaves matrix and free list as they are |
| `Schelling.Board.ScanCell` | schell/schelling.py:224-230 | the new matrix, free list and moved flag are `ScanStep` of the old ones: an unhappy occupant moves to free house `pick`, which leaves the list while the vacated cell is appended; the pick matters only when the occupant is unhappy; the board invariant and the agents are kept |
| `Schelling.Board.PassBeforeNoMove` | schell/schelling.py:221-230 | a partial pass that has counted nobody has changed nothing, and every occupant it visited is content |
| `Schelling.Board.PassBeforeStill` | schell/schelling.py:221-230 | over cells whose occupants are all content, a partial pass changes nothing and counts nobody |
| `Schelling.Board.Pass` | schell/schelling.py:221-230 | a whole pass that counts nobody leaves the board unchanged and every agent content; on a board where every agent is content, a pass counts nobody and changes nothing |
| `Schelling.Board.Sweep` | schell/schelling.py:221-230 | the board after the pass and its count are `Pass` of the board before: cells in row-major order, each unhappy occupant moved at once and counted; a count of 0 means nothing changed and every agent is content; a content board counts 0; the invariant is kept |
| `Schelling.Board.RunFrom` | schell/schelling.py:219-235 | with no pass left the board and log are unchanged and empty |
| `Schelling.Board.RunFromFacts` | schell/schelling.py:219-235 | a run with a positive budget makes between one pass and the budget; every pass but the last counted, and moved, somebody; a run that stopped early stopped on a pass that counted nobody; a last count of 0 means every agent is content; a content board takes one pass and does not change |
| `Schelling.Board.RunOutcome` | schell/schelling.py:209-235 | the same promises for a whole run from the initial board, in the terms `Run` states them |
| `Schelling.Board.Run` | schell/schelling.py:209-235 | the final board and the ghost per-pass counts are `RunFrom` of the initial board, and the result is the number of passes; at most `num_iterations` passes, at least one when the budget is positive; every pass but the last moved someone; stopping early means the last pass moved nobody and everyone is content; invariant, agents and race counts are kept |
| `Schelling.Board.OccupiedSound` | schell/schelling.py:240-243 | the row-major scan visits exactly the occupied cells, each once |
| `Schelling.Board.TallyBefore` | schell/schelling.py:238-272 | the running counts of the statistics: happy at most total, one similarity per agent, each in [0, 1] |
| `Schelling.Board.TallyCountsOccupied` | schell/schelling.py:243-244 | the agent count of the statistics is the number of occupied cells |
| `Schelling.Board.HappinessOf` | schell/schelling.py:237-249 | the happiness share lies in [0, 1]; it is undefined where the code divides by zero |
| `Schelling.Board.HappinessUndefinedIffEmpty` | schell/schelling.py:249 | the division by zero happens exactly on a board without agents |
| `Schelling.Board.AllHappyFullHappiness` | schell/schelling.py:237-249 | a board on which every agent is content scores happiness 1 |
| `Schelling.Board.CalculateHappiness` | schell/schelling.py:237-249 | the nested loop computes `HappinessOf` of the current matrix |
| `Schelling.Board.SegregationHappinessOf` | schell/schelling.py:251-275 | the mean similarity percentage lies in [0, 100]; the happiness percentage is the happiness share times 100; both are undefined exactly when the happiness is |
| `Support.SumRealsBound` | schell/schelling.py:274 | the sum of the similarities lies between 0 and their count |
| `Schelling.Board.CalculateSegregationHappiness` | schell/schelling.py:251-275 | the nested loop computes `SegregationHappinessOf` of the current matrix |
| `Schelling.Board.SegregationRow` | schell/schelling.py:254-272 | one row of that scan extends the similarity list and the happy count as the tally does |
| `Schelling.Board.ToInts` | schell/schelling.py:294-307 | a `height × width` matrix holding -1 exactly at the empty houses and the occupant's race, in 0..2, elsewhere |
| `Schelling.Board.CellAccounting` | schell/schelling.py:118-127 | on a valid board, agents and empty houses together number `width * height` |
| `MySchelling.Agent.constructor` | schell/my_schelling.py:31-35 | the agent keeps race, intolerance and position, for any race |
| `MySchelling.RankDiffIsRaceEquality` | schell/my_schelling.py:48-54 | `rank_diff` is 0 or 1, and 0 exactly when the races are equal |
| `MySchelling.RankDiffSymmetric` | schell/my_schelling.py:48-54 | `rank_diff` is symmetric |
| `MySchelling.Agent.SimilarCount` | schell/my_schelling.py:64-69 | the number of alike neighbours never exceeds the number of neighbours |
| `MySchelling.Agent.IsHappy` | schell/my_schelling.py:56-71 | the counting loop returns exactly `Satisfied` |
| `MySchelling.SatisfiedIsRatioTest` | schell/my_schelling.py:71 | `Satisfied` is the code's test `total == 0 or similar / total >= intolerance`, both directions |
| `MySchelling.TolerantAgentIsHappy` | schell/my_schelling.py:71 | an agent with intolerance at most 0 is happy whatever its neighbours |
| `MySchelling.SameRaceNeighbourhoodIsHappy` | schell/my_schelling.py:64-71 | among neighbours of its own race only, an agent with intolerance at most 1 is happy |
| `MySchelling.Board.constructor` | schell/my_schelling.py:85-91 | a blank matrix of the given size, an empty free list, and `num_empty = ceil(width * height * empty_ratio)` |
| `MySchelling.Board.CreateEmptyHouses` | schell/my_schelling.py:93-108 | the free list becomes the first `num_empty` distinct coordinates of the draw stream, in draw order |
| `MySchelling.Board.Populate` | schell/my_schelling.py:110-130 | afterwards the board invariant holds; every unlisted cell holds an agent at that `(x, y)`, with the drawn race, of any index, and that race's intolerance |
| `MySchelling.Board.PopulateRow` | schell/my_schelling.py:123-130 | one row of the scan places a drawn agent in each unlisted cell |
| `MySchelling.Board.MoveAgent` | schell/my_schelling.py:150-165 | swaps the chosen free house for the vacated one, moves the agent and updates both cells; keeps the invariant and the agent set |
| `MySchelling.Board.MoveKeepsFreeList` | schell/my_schelling.py:158-161 | the free list stays without repeats and holds the old coordinates minus the chosen one plus the vacated one |
| `MySchelling.Board.Neighbours` | schell/my_schelling.py:132-148 | the offset loops return exactly the occupants of the eight surrounding cells in visiting order |
| `MySchelling.Board.NeighboursAtMostEight` | schell/my_schelling.py:140-148 | at most 8 neighbours |
| `MySchelling.Board.NeighboursAreAdjacent` | schell/my_schelling.py:141-147 | neighbours come from in-bounds cells at Chebyshev distance 1, never the own cell, in row-major order |
| `MySchelling.Board.NeighboursComplete` | schell/my_schelling.py:141-147 | every occupied adjacent in-bounds cell contributes its agent |
| `MySchelling.Board.ScanStep` | schell/my_schelling.py:181-187 | the scan step counts the occupant exactly when it is not content; otherwise matrix and free list are unchanged |
| `MySchelling.Board.ScanCell` | schell/my_schelling.py:181-187 | the new matrix, free list and moved flag are `ScanStep` of the old ones; the pick matters only when the occupant is unhappy |
| `MySchelling.Board.PassBeforeNoMove` | schell/my_schelling.py:179-187 | a partial pass that has counted nobody has changed nothing, and every occupant it visited is content |
| `MySchelling.Board.PassBeforeStill` | schell/my_schelling.py:179-187 | over content occupants a partial pass changes nothing and counts nobody |
| `MySchelling.Board.Pass` | schell/my_schelling.py:179-187 | a pass that counts nobody changes nothing and leaves everyone content; a content board counts nobody |
| `MySchelling.Board.Sweep` | schell/my_schelling.py:179-187 | the board after the pass and its count are `Pass` of the board before; a count of 0 means nothing changed and everyone is content; the invariant is kept |
| `MySchelling.Board.RunFrom` | schell/my_schelling.py:177-191 | with no pass left the board and log are unchanged and empty |
| `MySchelling.Board.RunFromFacts` | schell/my_schelling.py:177-191 | between one pass and the budget; all counts but the last positive; an early stop ends on a count of 0; a last count of 0 means everyone is content; a content board takes one pass unchanged |
| `MySchelling.Board.RunOutcome` | schell/my_schelling.py:167-191 | the same promises for a whole run, in the terms `Run` states them |
| `MySchelling.Board.Run` | schell/my_schelling.py:167-191 | the printed per-pass counts and the final board are exactly `RunFrom` of the initial board: at most `num_iterations` passes, at least one for a positive budget; all but the last are positive; stopping early means a last count of 0; a last count of 0, which is the "everyone was happy" line, means every agent is content |
| `MySchelling.Board.ToInts` | schell/my_schelling.py:210-223 | a `height × width` matrix holding -1 exactly at the empty houses and the occupant's non-negative race elsewhere |
| `MySchelling.Board.CellAccounting` | schell/my_schelling.py:74-83 | on a valid board, agents and empty houses together number `width * height` |

## Left out

- `main`, `plot` and the module-level timing in both files: command-line
  parsing, plotting and wall-clock timing are I/O.
- The `random` module. Its draws are inputs, as described above. The model
  does not prove termination or fairness of rejection sampling: the
  preconditions ask for a draw stream with enough distinct coordinates.
- Floating point. Probabilities, intolerances and ratios are `real`, so
  rounding of `/` is not modelled.
- `round(..., 2)` in both statistics. The model returns the unrounded values.
- `Agent.set_pair` in both files: no code calls it.
- The printing of `run` in `schell/my_schelling.py`. `MySchelling.Board.Run`
  returns the printed counts instead.
- The local `agents` list that `populate` builds in `schell/my_schelling.py`.
  It is discarded when `populate` returns; the ghost set `agents` plays its
  role.
- `Schelling.Agent.constructor`: requires a race in 0..2. The code only
  prints a message for other races and leaves the agent without a strategy,
  so a later `rank_diff` fails. `Schelling.Board.Populate` therefore requires
  every drawn race to be at most 2.
- `Schelling.Board.Populate` and `MySchelling.Board.Populate`: require every
  unlisted cell's draw to select a race that has an intolerance threshold.
  The code raises StopIteration or IndexError otherwise. Both leave unstated
  that the placed agents are newly allocated.
- `Schelling.Board.HappinessOf`, `Schelling.Board.CalculateHappiness`,
  `Schelling.Board.SegregationHappinessOf` and
  `Schelling.Board.CalculateSegregationHappiness`: return None on a board
  without agents, where the code raises ZeroDivisionError.
- `Schelling.Board.Run` and `MySchelling.Board.Run` (and the `Sweep` and
  `ScanCell` they call): require every random index to lie in
  `0 .. num_empty - 1`, and, on a board without free houses, every agent to
  be content. There the Python code raises ValueError from
  `random.randint(0, -1)` as soon as an unhappy agent must move; a board
  without free houses on which everyone is content runs one pass.
- `Schelling.Board.RunPasses`, `MySchelling.Board.RunPasses`, `SweepRow` and
  `ScanInPass` are the loop of `run`, the row loop and the cell step of a pass
  taken out as methods. `Run` calls the first and states the outcome.
- `Schelling.Board.Run`: the per-pass unhappy counts are a ghost result,
  because `schell/schelling.py` computes them but returns only the number of
  passes.
- `Schelling.Board.PopulateRow` and `Schelling.Board.SegregationRow` (and
  `MySchelling.Board.PopulateRow`) are the inner loops of `populate` and of
  `calculate_segregation_happiness` taken out as methods. Their behaviour is
  that of the inner loop.
