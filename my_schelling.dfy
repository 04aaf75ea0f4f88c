/**
 * The variant engine of schell/my_schelling.py: the same board, but agents
 * compare races directly, any race index is accepted, `run` reports the
 * per-pass counts it prints instead of returning a pass count, and there are
 * no statistics.
 */
module MySchelling {
  import opened Support

  class Agent {
    const race: int
    const intolerance: real
    var x: int
    var y: int

    constructor (race: int, intolerance: real, x: int, y: int)
      ensures this.race == race && this.intolerance == intolerance
      ensures this.x == x && this.y == y
    {
      this.intolerance := intolerance;
      this.race := race;
      this.x := x;
      this.y := y;
    }

    /** 0 when `other` has this agent's race, 1 otherwise. */
    function RankDiff(other: Agent): int {
      if other.race == race then 0 else 1
    }

    /** How many of `neighbours` are alike, counted front to back. */
    function SimilarCount(neighbours: seq<Agent>): (n: nat)
      ensures n <= |neighbours|
    {
      if neighbours == [] then 0
      else
        SimilarCount(neighbours[..|neighbours| - 1])
        + (if RankDiff(neighbours[|neighbours| - 1]) == 0 then 1 else 0)
    }

    /**
     * Whether the agent is content among `neighbours`: nobody around, or the
     * alike ones make up at least the `intolerance` fraction.
     */
    predicate Satisfied(neighbours: seq<Agent>) {
      |neighbours| == 0 || SimilarCount(neighbours) as real >= intolerance * |neighbours| as real
    }

    method IsHappy(neighbours: seq<Agent>) returns (happy: bool)
      ensures happy == Satisfied(neighbours)
    {
      var total := 0;
      var happyWithNeighbour := 0;
      for i := 0 to |neighbours|
        invariant total == i
        invariant happyWithNeighbour == SimilarCount(neighbours[..i])
      {
        assert neighbours[..i + 1][..i] == neighbours[..i];
        total := total + 1;
        if RankDiff(neighbours[i]) == 0 {
          happyWithNeighbour := happyWithNeighbour + 1;
        }
      }
      assert neighbours[..|neighbours|] == neighbours;
      happy := total == 0 || (happyWithNeighbour as real) / (total as real) >= intolerance;
      if total > 0 {
        RatioAtLeast(happyWithNeighbour as real, total as real, intolerance);
      }
    }
  }

  /** `rank_diff` is 0 or 1, and 0 exactly between agents of the same race. */
  lemma RankDiffIsRaceEquality(a: Agent, b: Agent)
    ensures a.RankDiff(b) == 0 || a.RankDiff(b) == 1
    ensures a.RankDiff(b) == 0 <==> a.race == b.race
  {
  }

  /** Hence the similarity is symmetric. */
  lemma RankDiffSymmetric(a: Agent, b: Agent)
    ensures a.RankDiff(b) == b.RankDiff(a)
  {
    RankDiffIsRaceEquality(a, b);
    RankDiffIsRaceEquality(b, a);
  }

  /**
   * The happiness test as the Python code writes it: true with no neighbours
   * whatever the intolerance, otherwise `similar / total >= intolerance`.
   */
  lemma {:induction false} SatisfiedIsRatioTest(a: Agent, neighbours: seq<Agent>)
    ensures a.Satisfied(neighbours) <==>
      |neighbours| == 0 || (a.SimilarCount(neighbours) as real) / (|neighbours| as real) >= a.intolerance
  {
    if |neighbours| > 0 {
      RatioAtLeast(a.SimilarCount(neighbours) as real, |neighbours| as real, a.intolerance);
    }
  }

  /** An agent with intolerance 0 (or less) is happy anywhere. */
  lemma {:induction false} TolerantAgentIsHappy(a: Agent, neighbours: seq<Agent>)
    requires a.intolerance <= 0.0
    ensures a.Satisfied(neighbours)
  {
    assert a.intolerance * |neighbours| as real <= 0.0;
  }

  /** Among neighbours all of its own race, an agent with intolerance at most 1 is happy. */
  lemma {:induction false} SameRaceNeighbourhoodIsHappy(a: Agent, neighbours: seq<Agent>)
    requires a.intolerance <= 1.0
    requires forall i :: 0 <= i < |neighbours| ==> neighbours[i].race == a.race
    ensures a.Satisfied(neighbours)
  {
    AllAlike(a, neighbours);
    if |neighbours| > 0 {
      assert a.intolerance * |neighbours| as real <= |neighbours| as real;
    }
  }

  lemma {:induction false} AllAlike(a: Agent, neighbours: seq<Agent>)
    requires forall i :: 0 <= i < |neighbours| ==> neighbours[i].race == a.race
    ensures a.SimilarCount(neighbours) == |neighbours|
  {
    if neighbours != [] {
      AllAlike(a, neighbours[..|neighbours| - 1]);
    }
  }

  /** The draw `u` selects a race that has an intolerance threshold. */
  predicate RaceDrawn(agentProb: seq<real>, intoleranceThreshold: seq<real>, u: real) {
    var r := FirstAtLeast(agentProb, u);
    r.Some? && r.value < |intoleranceThreshold|
  }

  /** `a` has the race the draw `u` selects and that race's intolerance. */
  predicate AgentDrawn(agentProb: seq<real>, intoleranceThreshold: seq<real>, u: real, a: Agent) {
    var r := FirstAtLeast(agentProb, u);
    r.Some? && a.race == r.value && r.value < |intoleranceThreshold| && a.intolerance == intoleranceThreshold[r.value]
  }

  /**
   * The board: `matrix[y][x]` is the agent living at `(x, y)` or null, and
   * `emptyHouses` lists the free coordinates. The ghost set `agents` names the
   * agents on the board, so that frames can mention them. Neighbourhoods and
   * happiness are defined on a matrix value `m`, so that they are plainly
   * unchanged when the matrix is.
   */
  class Board {
    const width: int
    const height: int
    const emptyRatio: real
    const numEmpty: int
    var emptyHouses: seq<Coord>
    var matrix: seq<seq<Agent?>>
    ghost var agents: set<Agent>

    predicate InBounds(c: Coord) {
      0 <= c.0 < width && 0 <= c.1 < height
    }

    /** `m` has `height` rows of `width` cells. */
    predicate Fits(m: seq<seq<Agent?>>) {
      |m| == height && forall row :: 0 <= row < height ==> |m[row]| == width
    }

    function Cell(m: seq<seq<Agent?>>, c: Coord): Agent?
      requires Fits(m) && InBounds(c)
    {
      m[c.1][c.0]
    }

    /** The matrix fits the board, and the empty-house count is non-negative. */
    predicate Shaped()
      reads this
    {
      0 <= width && 0 <= height && 0 <= numEmpty && Fits(matrix)
    }

    /** The occupant of cell `c`. */
    function At(c: Coord): Agent?
      reads this
      requires Shaped() && InBounds(c)
    {
      Cell(matrix, c)
    }

    /**
     * The board invariant: the free list holds `numEmpty` distinct in-bounds
     * coordinates, exactly those of the empty cells; every agent's `(x, y)`
     * is the cell that holds it; every agent's race is an index, so
     * non-negative.
     */
    ghost predicate Valid()
      reads this, agents
    {
      && Shaped()
      && |emptyHouses| == numEmpty
      && Distinct(emptyHouses)
      && (forall i :: 0 <= i < |emptyHouses| ==> InBounds(emptyHouses[i]))
      && (forall c :: InBounds(c) ==> (c in emptyHouses <==> At(c) == null))
      && (forall c :: InBounds(c) && At(c) != null ==> At(c) in agents && (At(c).x, At(c).y) == c)
      && (forall a :: a in agents ==> InBounds((a.x, a.y)) && At((a.x, a.y)) == a && a.race >= 0)
    }

    /** The number of agents of race `r` on the board. */
    ghost function RaceCount(r: int): nat
      reads this
    {
      |set a | a in agents && a.race == r|
    }

    /**
     * A blank board. As `range` of a negative number is empty, a negative
     * width or height gives rows, or a matrix, of length 0; the board is
     * `Shaped` when the arguments are non-negative.
     */
    constructor (width: int, height: int, emptyRatio: real)
      ensures this.width == width && this.height == height && this.emptyRatio == emptyRatio
      ensures numEmpty == Ceil((width * height) as real * emptyRatio)
      ensures emptyHouses == [] && agents == {}
      ensures |matrix| == (if height < 0 then 0 else height)
      ensures forall row :: 0 <= row < |matrix| ==> |matrix[row]| == (if width < 0 then 0 else width)
      ensures forall row, col :: 0 <= row < |matrix| && 0 <= col < |matrix[row]| ==> matrix[row][col] == null
      ensures 0 <= width && 0 <= height && 0.0 <= emptyRatio ==> Shaped()
    {
      this.width := width;
      this.height := height;
      this.emptyRatio := emptyRatio;
      emptyHouses := [];
      numEmpty := Ceil((width * height) as real * emptyRatio);
      matrix := seq(if height < 0 then 0 else height, _ => seq(if width < 0 then 0 else width, _ => null));
      agents := {};
    }

    /**
     * Rejection sampling of the empty houses: each round takes draws from
     * `draws` (the Python code's `random.randint` pairs) until one is not yet in
     * the list; `numEmpty` rounds.
     */
    method CreateEmptyHouses(draws: seq<Coord>)
      requires emptyHouses == [] && 0 <= numEmpty <= |FirstOccurrences(draws)|
      modifies this`emptyHouses
      ensures emptyHouses == FirstOccurrences(draws)[..numEmpty]
    {
      var next := 0;
      for round := 0 to numEmpty
        invariant next <= |draws| && emptyHouses == FirstOccurrences(draws[..next]) && |emptyHouses| == round
      {
        var pair;
        pair, next := DrawFresh(draws, next, emptyHouses);
        emptyHouses := emptyHouses + [pair];
      }
      FirstOccurrencesPrefix(draws, next);
    }

    /** `raceDraws` holds one draw per cell. */
    predicate DrawGrid(raceDraws: seq<seq<real>>) {
      |raceDraws| == height && forall row :: 0 <= row < height ==> |raceDraws[row]| == width
    }

    /**
     * `populate`: choose the empty houses, then give every other cell, row by
     * row, a new agent whose race is the first index of `agentProb` reaching
     * that cell's draw `raceDraws[y][x]` (the Python code's `random.uniform(0, 1)`).
     */
    method Populate(agentProb: seq<real>, intoleranceThreshold: seq<real>, draws: seq<Coord>, raceDraws: seq<seq<real>>)
      requires Shaped() && emptyHouses == [] && agents == {}
      requires forall c :: InBounds(c) ==> At(c) == null
      requires forall i :: 0 <= i < |draws| ==> InBounds(draws[i])
      requires numEmpty <= |FirstOccurrences(draws)|
      requires DrawGrid(raceDraws)
      requires forall c :: InBounds(c) && c !in FirstOccurrences(draws)[..numEmpty] ==>
        RaceDrawn(agentProb, intoleranceThreshold, raceDraws[c.1][c.0])
      modifies this
      ensures Valid()
      ensures emptyHouses == FirstOccurrences(draws)[..numEmpty]
      ensures forall c :: InBounds(c) && At(c) != null ==>
        AgentDrawn(agentProb, intoleranceThreshold, raceDraws[c.1][c.0], At(c))
    {
      CreateEmptyHouses(draws);
      for y := 0 to height
        invariant emptyHouses == FirstOccurrences(draws)[..numEmpty]
        invariant PopulatedBefore(matrix, emptyHouses, agents, agentProb, intoleranceThreshold, raceDraws, (0, y))
      {
        PopulateRow(agentProb, intoleranceThreshold, raceDraws, y);
      }
      PopulatedAll(draws, agentProb, intoleranceThreshold, raceDraws);
    }

    /** One row of the `populate` scan: a drawn agent in every non-listed cell of row `y`. */
    method PopulateRow(agentProb: seq<real>, intoleranceThreshold: seq<real>, raceDraws: seq<seq<real>>, y: int)
      requires 0 <= y < height
      requires PopulatedBefore(matrix, emptyHouses, agents, agentProb, intoleranceThreshold, raceDraws, (0, y))
      requires forall c :: InBounds(c) && c.1 == y && c !in emptyHouses ==>
        RaceDrawn(agentProb, intoleranceThreshold, raceDraws[c.1][c.0])
      modifies this
      ensures PopulatedBefore(matrix, emptyHouses, agents, agentProb, intoleranceThreshold, raceDraws, (0, y + 1))
      ensures emptyHouses == old(emptyHouses)
    {
      for x := 0 to width
        invariant emptyHouses == old(emptyHouses)
        invariant PopulatedBefore(matrix, emptyHouses, agents, agentProb, intoleranceThreshold, raceDraws, (x, y))
      {
        if (x, y) !in emptyHouses {
          var raceGen := raceDraws[y][x];
          var race := FirstAtLeast(agentProb, raceGen).value;
          var agent := new Agent(race, intoleranceThreshold[race], x, y);
          PopulatedPlace(matrix, emptyHouses, agents, agentProb, intoleranceThreshold, raceDraws, agent);
          matrix := Put(matrix, (x, y), agent);
          agents := agents + {agent};
        } else {
          PopulatedSkip(matrix, emptyHouses, agents, agentProb, intoleranceThreshold, raceDraws, x, y);
        }
      }
      PopulatedNextRow(matrix, emptyHouses, agents, agentProb, intoleranceThreshold, raceDraws, y);
    }

    /**
     * The state of `Populate` when its scan reaches `p`: cells before `p`
     * are empty exactly when listed in `houses`, and hold a correctly drawn
     * agent otherwise; cells from `p` on are still empty; `ags` are the
     * occupants.
     */
    ghost predicate PopulatedBefore(m: seq<seq<Agent?>>, houses: seq<Coord>, ags: set<Agent>,
                                    agentProb: seq<real>, intoleranceThreshold: seq<real>, raceDraws: seq<seq<real>>, p: Coord)
      reads ags
    {
      && Fits(m) && DrawGrid(raceDraws)
      && (forall c :: InBounds(c) && !RowMajorBefore(c, p) ==> Cell(m, c) == null)
      && (forall c :: InBounds(c) && RowMajorBefore(c, p) ==> (c in houses <==> Cell(m, c) == null))
      && (forall c :: InBounds(c) && Cell(m, c) != null ==>
            && Cell(m, c) in ags && (Cell(m, c).x, Cell(m, c).y) == c
            && AgentDrawn(agentProb, intoleranceThreshold, raceDraws[c.1][c.0], Cell(m, c)))
      && (forall a :: a in ags ==> InBounds((a.x, a.y)) && Cell(m, (a.x, a.y)) == a && a.race >= 0)
    }

    lemma PopulatedPlace(m: seq<seq<Agent?>>, houses: seq<Coord>, ags: set<Agent>,
                         agentProb: seq<real>, intoleranceThreshold: seq<real>, raceDraws: seq<seq<real>>, a: Agent)
      requires PopulatedBefore(m, houses, ags, agentProb, intoleranceThreshold, raceDraws, (a.x, a.y))
      requires InBounds((a.x, a.y)) && (a.x, a.y) !in houses && a !in ags && a.race >= 0
      requires AgentDrawn(agentProb, intoleranceThreshold, raceDraws[a.y][a.x], a)
      ensures PopulatedBefore(Put(m, (a.x, a.y), a), houses, ags + {a}, agentProb, intoleranceThreshold, raceDraws, (a.x + 1, a.y))
    {
    }

    lemma PopulatedSkip(m: seq<seq<Agent?>>, houses: seq<Coord>, ags: set<Agent>,
                        agentProb: seq<real>, intoleranceThreshold: seq<real>, raceDraws: seq<seq<real>>, x: int, y: int)
      requires PopulatedBefore(m, houses, ags, agentProb, intoleranceThreshold, raceDraws, (x, y))
      requires InBounds((x, y)) && (x, y) in houses
      ensures PopulatedBefore(m, houses, ags, agentProb, intoleranceThreshold, raceDraws, (x + 1, y))
    {
    }

    lemma PopulatedNextRow(m: seq<seq<Agent?>>, houses: seq<Coord>, ags: set<Agent>,
                           agentProb: seq<real>, intoleranceThreshold: seq<real>, raceDraws: seq<seq<real>>, y: int)
      requires PopulatedBefore(m, houses, ags, agentProb, intoleranceThreshold, raceDraws, (width, y))
      ensures PopulatedBefore(m, houses, ags, agentProb, intoleranceThreshold, raceDraws, (0, y + 1))
    {
    }

    /** The fully scanned board satisfies the board invariant. */
    lemma PopulatedAll(draws: seq<Coord>, agentProb: seq<real>, intoleranceThreshold: seq<real>, raceDraws: seq<seq<real>>)
      requires Shaped() && numEmpty <= |FirstOccurrences(draws)| && emptyHouses == FirstOccurrences(draws)[..numEmpty]
      requires forall i :: 0 <= i < |draws| ==> InBounds(draws[i])
      requires PopulatedBefore(matrix, emptyHouses, agents, agentProb, intoleranceThreshold, raceDraws, (0, height))
      ensures Valid()
      ensures forall c :: InBounds(c) && At(c) != null ==>
        AgentDrawn(agentProb, intoleranceThreshold, raceDraws[c.1][c.0], At(c))
    {
      var d := FirstOccurrences(draws);
      FirstOccurrencesSound(draws);
      forall i | 0 <= i < |emptyHouses| ensures InBounds(emptyHouses[i]) {
        assert emptyHouses[i] == d[i] && d[i] in draws;
      }
    }

    /**
     * Relocate `agent` to the free house `emptyHouses[i]`, the index the
     * Python code draws with `random.randint(0, num_empty - 1)`.
     */
    method MoveAgent(agent: Agent, i: int)
      requires Valid() && agent in agents && 0 <= i < numEmpty
      modifies this, agent
      ensures Valid() && agents == old(agents)
      ensures emptyHouses == RemoveAt(old(emptyHouses), i) + [old((agent.x, agent.y))]
      ensures (agent.x, agent.y) == old(emptyHouses[i])
      ensures matrix == Put(Put(old(matrix), old(emptyHouses[i]), agent), old((agent.x, agent.y)), null)
    {
      var agentHouse := (agent.x, agent.y);
      var emptyHouse := emptyHouses[i];
      emptyHouses := RemoveAt(emptyHouses, i);
      emptyHouses := emptyHouses + [agentHouse];
      agent.x := emptyHouse.0;
      agent.y := emptyHouse.1;
      matrix := Put(matrix, emptyHouse, agent);
      matrix := Put(matrix, agentHouse, null);
      MoveKeepsFreeList(old(emptyHouses), i, agentHouse);
    }

    /** The free list after a move holds the same coordinates, one swapped. */
    static lemma MoveKeepsFreeList(e: seq<Coord>, i: nat, vacated: Coord)
      requires i < |e| && Distinct(e) && vacated !in e
      ensures Distinct(RemoveAt(e, i) + [vacated])
      ensures forall c :: c in RemoveAt(e, i) + [vacated] <==> (c in e && c != e[i]) || c == vacated
    {
      var r := RemoveAt(e, i);
      forall c ensures c in r <==> c in e && c != e[i] {
        if c in r {
          var j :| 0 <= j < |r| && r[j] == c;
          assert c == if j < i then e[j] else e[j + 1];
        }
        if c in e && c != e[i] {
          var j :| 0 <= j < |e| && e[j] == c;
          assert j != i;
          assert r[if j < i then j else j - 1] == c;
        }
      }
    }

    /**
     * The agents in the first `k` of the nine offsets around `(x, y)` in `m`,
     * in the Python code's order (`dy` outer, `dx` inner, each -1, 0, 1),
     * skipping the centre, cells off the board and empty cells.
     */
    function Gather(m: seq<seq<Agent?>>, x: int, y: int, k: nat): seq<Agent>
      requires Fits(m) && k <= 9
    {
      if k == 0 then []
      else
        var (dx, dy) := Offsets[k - 1];
        var c := (x + dx, y + dy);
        Gather(m, x, y, k - 1)
        + (if (dx != 0 || dy != 0) && InBounds(c) && Cell(m, c) != null then [Cell(m, c)] else [])
    }

    /** The neighbours of the cell `(x, y)` in `m`. */
    function NeighboursIn(m: seq<seq<Agent?>>, x: int, y: int): seq<Agent>
      requires Fits(m)
    {
      Gather(m, x, y, 9)
    }

    method Neighbours(agent: Agent) returns (neighbours: seq<Agent>)
      requires Shaped()
      ensures neighbours == NeighboursIn(matrix, agent.x, agent.y)
    {
      neighbours := [];
      ghost var k := 0;
      for dy := -1 to 2
        invariant k == 3 * (dy + 1)
        invariant neighbours == Gather(matrix, agent.x, agent.y, k)
      {
        for dx := -1 to 2
          invariant k == 3 * (dy + 1) + (dx + 1)
          invariant neighbours == Gather(matrix, agent.x, agent.y, k)
        {
          OffsetIndex(dx, dy);
          if (dx != 0 || dy != 0) && 0 <= agent.x + dx < width && 0 <= agent.y + dy < height {
            var neighbour := matrix[agent.y + dy][agent.x + dx];
            if neighbour != null {
              neighbours := neighbours + [neighbour];
            }
          }
          k := k + 1;
        }
      }
    }

    lemma {:induction false} GatherBound(m: seq<seq<Agent?>>, x: int, y: int, k: nat)
      requires Fits(m) && k <= 9
      ensures |Gather(m, x, y, k)| <= if k >= 5 then k - 1 else k
    {
      if k > 0 {
        GatherBound(m, x, y, k - 1);
      }
    }

    /** A cell has at most eight neighbours. */
    lemma NeighboursAtMostEight(m: seq<seq<Agent?>>, x: int, y: int)
      requires Fits(m)
      ensures |NeighboursIn(m, x, y)| <= 8
    {
      GatherBound(m, x, y, 9);
    }

    /** The cells `Gather` takes its agents from, in the same order. */
    ghost function GatherCells(m: seq<seq<Agent?>>, x: int, y: int, k: nat): seq<Coord>
      requires Fits(m) && k <= 9
    {
      if k == 0 then []
      else
        var (dx, dy) := Offsets[k - 1];
        var c := (x + dx, y + dy);
        GatherCells(m, x, y, k - 1)
        + (if (dx != 0 || dy != 0) && InBounds(c) && Cell(m, c) != null then [c] else [])
    }

    lemma {:induction false} GatherSound(m: seq<seq<Agent?>>, x: int, y: int, k: nat)
      requires Fits(m) && k <= 9
      ensures |GatherCells(m, x, y, k)| == |Gather(m, x, y, k)|
      ensures forall i :: 0 <= i < |GatherCells(m, x, y, k)| ==>
        var c := GatherCells(m, x, y, k)[i];
        InBounds(c) && Chebyshev(c, (x, y)) == 1 && Cell(m, c) == Gather(m, x, y, k)[i]
      ensures forall i :: 0 <= i < |GatherCells(m, x, y, k)| ==>
        k < 9 ==> RowMajorBefore(GatherCells(m, x, y, k)[i], (x + Offsets[k].0, y + Offsets[k].1))
      ensures forall i, j :: 0 <= i < j < |GatherCells(m, x, y, k)| ==>
        RowMajorBefore(GatherCells(m, x, y, k)[i], GatherCells(m, x, y, k)[j])
    {
      if k > 0 {
        GatherSound(m, x, y, k - 1);
        OffsetRange(k - 1);
        if k < 9 {
          assert RowMajorBefore((x + Offsets[k - 1].0, y + Offsets[k - 1].1), (x + Offsets[k].0, y + Offsets[k].1)) by {
            assert k in {1, 2, 3, 4, 5, 6, 7, 8};
          }
        }
      }
    }

    /**
     * The neighbours are the occupants of a row-major increasing list of
     * in-bounds cells, each at Chebyshev distance exactly 1 from `(x, y)`:
     * never the agent's own cell, never a cell reached by wrapping around.
     */
    lemma NeighboursAreAdjacent(m: seq<seq<Agent?>>, x: int, y: int) returns (cells: seq<Coord>)
      requires Fits(m)
      ensures |cells| == |NeighboursIn(m, x, y)|
      ensures forall i :: 0 <= i < |cells| ==>
        InBounds(cells[i]) && Chebyshev(cells[i], (x, y)) == 1 && Cell(m, cells[i]) == NeighboursIn(m, x, y)[i]
      ensures forall i, j :: 0 <= i < j < |cells| ==> RowMajorBefore(cells[i], cells[j])
    {
      GatherSound(m, x, y, 9);
      cells := GatherCells(m, x, y, 9);
    }

    lemma {:induction false} GatherGrows(m: seq<seq<Agent?>>, x: int, y: int, j: nat, k: nat)
      requires Fits(m) && j <= k <= 9
      ensures forall a :: a in Gather(m, x, y, j) ==> a in Gather(m, x, y, k)
      decreases k - j
    {
      if j < k {
        GatherGrows(m, x, y, j, k - 1);
      }
    }

    /** Every occupied in-bounds cell at Chebyshev distance 1 contributes its agent. */
    lemma NeighboursComplete(m: seq<seq<Agent?>>, x: int, y: int, c: Coord)
      requires Fits(m) && InBounds(c) && Chebyshev(c, (x, y)) == 1 && Cell(m, c) != null
      ensures Cell(m, c) in NeighboursIn(m, x, y)
    {
      var dx, dy := c.0 - x, c.1 - y;
      OffsetIndex(dx, dy);
      var k := 3 * (dy + 1) + (dx + 1);
      assert Cell(m, c) in Gather(m, x, y, k + 1);
      GatherGrows(m, x, y, k + 1, 9);
    }

    /** The agent at `c` in `m`, if any, is content with its neighbours there. */
    predicate HappyIn(m: seq<seq<Agent?>>, c: Coord)
      requires Fits(m) && InBounds(c)
    {
      Cell(m, c) != null ==> Cell(m, c).Satisfied(NeighboursIn(m, c.0, c.1))
    }

    /** Every agent in `m` is content: a full scan would move nobody. */
    ghost predicate AllHappyIn(m: seq<seq<Agent?>>)
      requires Fits(m)
    {
      forall c {:trigger HappyIn(m, c)} :: InBounds(c) ==> HappyIn(m, c)
    }

    /**
     * The scan step at cell `c` on the values `m` and `e`, with the free-list
     * index `pick` drawn for it: an occupant that is not content is counted
     * and moves to the free house `e[pick]`, which leaves the list, while its
     * own cell is appended to the list. A pick that names no in-bounds free
     * house, where `move_agent` would fail, leaves the cells as they are;
     * `ScanCell` never meets that case.
     */
    function ScanStep(m: seq<seq<Agent?>>, e: seq<Coord>, c: Coord, pick: int): (r: (seq<seq<Agent?>>, seq<Coord>, bool))
      requires Fits(m) && InBounds(c)
      ensures Fits(r.0)
      ensures r.2 <==> !HappyIn(m, c)
      ensures !r.2 ==> r.0 == m && r.1 == e
    {
      if HappyIn(m, c) then (m, e, false)
      else if 0 <= pick < |e| && InBounds(e[pick]) then
        (Put(Put(m, e[pick], Cell(m, c)), c, null), RemoveAt(e, pick) + [c], true)
      else (m, e, true)
    }

    /**
     * The body of the scan loop at cell `c`: an unhappy occupant moves at once
     * to the free house at index `pick`. The pick is only used, and so only
     * needs to name a free house, when the occupant is unhappy.
     */
    method ScanCell(c: Coord, pick: int) returns (moved: bool)
      requires Valid() && InBounds(c) && (HappyIn(matrix, c) || 0 <= pick < numEmpty)
      modifies this, agents
      ensures Valid() && agents == old(agents)
      ensures var r := ScanStep(old(matrix), old(emptyHouses), c, pick);
        matrix == r.0 && emptyHouses == r.1 && moved == r.2
    {
      var agent := matrix[c.1][c.0];
      moved := false;
      if agent != null {
        var neighbours := Neighbours(agent);
        var happy := agent.IsHappy(neighbours);
        if !happy {
          MoveAgent(agent, pick);
          moved := true;
        }
      }
    }

    /** `picks` has one entry per cell. */
    predicate PickShape(picks: seq<seq<int>>) {
      |picks| == height && forall row :: 0 <= row < height ==> |picks[row]| == width
    }

    /**
     * `picks` gives, for each cell, the free-list index used if its occupant
     * moves; on a board without free houses no index can be drawn.
     */
    predicate PickGrid(picks: seq<seq<int>>) {
      && PickShape(picks)
      && forall row, col :: 0 <= row < height && 0 <= col < width ==> numEmpty == 0 || 0 <= picks[row][col] < numEmpty
    }

    /**
     * The state a pass of `run` has reached when its row-major scan gets to
     * `(x, y)`, starting from the matrix `m` and free list `e`: the matrix,
     * the free list, and the number of agents found unhappy so far. Each step
     * sees the moves of the steps before it.
     */
    function PassBefore(m: seq<seq<Agent?>>, e: seq<Coord>, picks: seq<seq<int>>, x: int, y: int): (r: (seq<seq<Agent?>>, seq<Coord>, nat))
      requires Fits(m) && PickShape(picks)
      requires 0 <= y <= height && 0 <= x <= width && (y == height ==> x == 0)
      ensures Fits(r.0)
      decreases y, x
    {
      if x == 0 then (if y == 0 then (m, e, 0) else PassBefore(m, e, picks, width, y - 1))
      else
        var r := PassBefore(m, e, picks, x - 1, y);
        var s := ScanStep(r.0, r.1, (x - 1, y), picks[y][x - 1]);
        (s.0, s.1, if s.2 then r.2 + 1 else r.2)
    }

    /** A scan that has found nobody unhappy has changed nothing, and everyone it visited is content. */
    lemma {:induction false} PassBeforeNoMove(m: seq<seq<Agent?>>, e: seq<Coord>, picks: seq<seq<int>>, x: int, y: int)
      requires Fits(m) && PickShape(picks)
      requires 0 <= y <= height && 0 <= x <= width && (y == height ==> x == 0)
      requires PassBefore(m, e, picks, x, y).2 == 0
      ensures PassBefore(m, e, picks, x, y).0 == m && PassBefore(m, e, picks, x, y).1 == e
      ensures HappyBefore(m, (x, y))
      decreases y, x
    {
      if x == 0 {
        if y > 0 {
          PassBeforeNoMove(m, e, picks, width, y - 1);
        }
      } else {
        PassBeforeNoMove(m, e, picks, x - 1, y);
      }
    }

    /** Over cells whose occupants are all content, a scan changes nothing and counts nobody. */
    lemma {:induction false} PassBeforeStill(m: seq<seq<Agent?>>, e: seq<Coord>, picks: seq<seq<int>>, x: int, y: int)
      requires Fits(m) && PickShape(picks)
      requires 0 <= y <= height && 0 <= x <= width && (y == height ==> x == 0)
      requires HappyBefore(m, (x, y))
      ensures PassBefore(m, e, picks, x, y).0 == m && PassBefore(m, e, picks, x, y).1 == e
      ensures PassBefore(m, e, picks, x, y).2 == 0
      decreases y, x
    {
      if x == 0 {
        if y > 0 {
          PassBeforeStill(m, e, picks, width, y - 1);
        }
      } else {
        PassBeforeStill(m, e, picks, x - 1, y);
        assert HappyIn(m, (x - 1, y));
      }
    }

    /**
     * One whole pass of `run` over the board. A pass that finds nobody
     * unhappy leaves the board as it was with everyone on it content, and on
     * a board where everyone is content a pass counts nobody.
     */
    function Pass(m: seq<seq<Agent?>>, e: seq<Coord>, picks: seq<seq<int>>): (r: (seq<seq<Agent?>>, seq<Coord>, nat))
      requires Fits(m) && PickShape(picks) && 0 <= width && 0 <= height
      ensures Fits(r.0)
      ensures r.2 == 0 ==> r.0 == m && r.1 == e && AllHappyIn(m)
      ensures AllHappyIn(m) ==> r.0 == m && r.1 == e && r.2 == 0
    {
      PassFacts(m, e, picks);
      PassBefore(m, e, picks, 0, height)
    }

    lemma PassFacts(m: seq<seq<Agent?>>, e: seq<Coord>, picks: seq<seq<int>>)
      requires Fits(m) && PickShape(picks) && 0 <= width && 0 <= height
      ensures var r := PassBefore(m, e, picks, 0, height); r.2 == 0 ==> r.0 == m && r.1 == e && AllHappyIn(m)
      ensures var r := PassBefore(m, e, picks, 0, height); AllHappyIn(m) ==> r.0 == m && r.1 == e && r.2 == 0
    {
      if PassBefore(m, e, picks, 0, height).2 == 0 {
        PassBeforeNoMove(m, e, picks, 0, height);
      }
      if AllHappyIn(m) {
        PassBeforeStill(m, e, picks, 0, height);
      }
    }

    /**
     * One pass of `run`: visit every cell in row-major order and move each
     * unhappy agent immediately, so later cells see the moves already made.
     * The pass is `Pass` of the board it starts from.
     */
    method Sweep(picks: seq<seq<int>>) returns (unhappy: nat)
      requires Valid() && PickGrid(picks) && (numEmpty > 0 || AllHappyIn(matrix))
      modifies this, agents
      ensures Valid() && agents == old(agents)
      ensures var r := Pass(old(matrix), old(emptyHouses), picks);
        matrix == r.0 && emptyHouses == r.1 && unhappy == r.2
      ensures unhappy == 0 ==> matrix == old(matrix) && emptyHouses == old(emptyHouses) && AllHappyIn(matrix)
      ensures AllHappyIn(old(matrix)) ==> unhappy == 0
    {
      unhappy := 0;
      ghost var m0, e0 := matrix, emptyHouses;
      for y := 0 to height
        invariant Valid() && agents == old(agents)
        invariant var r := PassBefore(m0, e0, picks, 0, y);
          matrix == r.0 && emptyHouses == r.1 && unhappy == r.2
      {
        unhappy := SweepRow(picks, y, m0, e0, unhappy);
      }
    }

    /** Row `y` of a pass that started from `m0` and `e0`. */
    method SweepRow(picks: seq<seq<int>>, y: int, ghost m0: seq<seq<Agent?>>, ghost e0: seq<Coord>, unhappy0: nat)
      returns (unhappy: nat)
      requires Valid() && PickGrid(picks) && 0 <= y < height && Fits(m0) && (numEmpty > 0 || AllHappyIn(m0))
      requires var r := PassBefore(m0, e0, picks, 0, y); matrix == r.0 && emptyHouses == r.1 && unhappy0 == r.2
      modifies this, agents
      ensures Valid() && agents == old(agents)
      ensures var r := PassBefore(m0, e0, picks, 0, y + 1); matrix == r.0 && emptyHouses == r.1 && unhappy == r.2
    {
      unhappy := unhappy0;
      for x := 0 to width
        invariant Valid() && agents == old(agents)
        invariant var r := PassBefore(m0, e0, picks, x, y); matrix == r.0 && emptyHouses == r.1 && unhappy == r.2
      {
        unhappy := ScanInPass(picks, x, y, m0, e0, unhappy);
      }
    }

    /** Cell `(x, y)` of a pass that started from `m0` and `e0`. */
    method ScanInPass(picks: seq<seq<int>>, x: int, y: int, ghost m0: seq<seq<Agent?>>, ghost e0: seq<Coord>, unhappy0: nat)
      returns (unhappy: nat)
      requires Valid() && PickGrid(picks) && InBounds((x, y)) && Fits(m0) && (numEmpty > 0 || AllHappyIn(m0))
      requires var r := PassBefore(m0, e0, picks, x, y); matrix == r.0 && emptyHouses == r.1 && unhappy0 == r.2
      modifies this, agents
      ensures Valid() && agents == old(agents)
      ensures var r := PassBefore(m0, e0, picks, x + 1, y); matrix == r.0 && emptyHouses == r.1 && unhappy == r.2
    {
      if numEmpty == 0 {
        PassBeforeStill(m0, e0, picks, x, y);
      }
      var moved := ScanCell((x, y), picks[y][x]);
      unhappy := if moved then unhappy0 + 1 else unhappy0;
    }

    /** Every agent in a cell scanned before `p` is content in `m`. */
    ghost predicate HappyBefore(m: seq<seq<Agent?>>, p: Coord)
      requires Fits(m)
    {
      forall c {:trigger HappyIn(m, c)} :: InBounds(c) && RowMajorBefore(c, p) ==> HappyIn(m, c)
    }

    /**
     * Passes `t`, `t + 1`, … below `n` of `run` from the matrix `m` and free
     * list `e`, stopping after the first pass that finds nobody unhappy: the
     * final matrix and free list, and the count of each pass made.
     */
    function RunFrom(m: seq<seq<Agent?>>, e: seq<Coord>, picks: seq<seq<seq<int>>>, t: nat, n: int): (r: (seq<seq<Agent?>>, seq<Coord>, seq<nat>))
      requires Fits(m) && 0 <= width && 0 <= height
      requires n <= |picks| && forall k :: 0 <= k < |picks| ==> PickGrid(picks[k])
      ensures Fits(r.0)
      ensures t >= n ==> r.0 == m && r.1 == e && r.2 == []
      decreases n - t
    {
      if t >= n then (m, e, [])
      else
        assert PickGrid(picks[t]);
        var p := Pass(m, e, picks[t]);
        if p.2 == 0 then (p.0, p.1, [0])
        else
          var r := RunFrom(p.0, p.1, picks, t + 1, n);
          (r.0, r.1, [p.2] + r.2)
    }

    /**
     * What a run promises: if any pass is allowed it makes at least one and
     * at most the allowed number; every pass but the last moved somebody; a
     * run that stopped early stopped on a pass that moved nobody, after
     * which everybody is content; and on a board where everybody is content
     * it makes one pass and changes nothing.
     */
    lemma {:induction false} RunFromFacts(m: seq<seq<Agent?>>, e: seq<Coord>, picks: seq<seq<seq<int>>>, t: nat, n: int)
      requires Fits(m) && 0 <= width && 0 <= height
      requires n <= |picks| && forall k :: 0 <= k < |picks| ==> PickGrid(picks[k])
      ensures var r := RunFrom(m, e, picks, t, n); t < n ==> 1 <= |r.2| <= n - t
      ensures var r := RunFrom(m, e, picks, t, n); forall k :: 0 <= k < |r.2| - 1 ==> r.2[k] > 0
      ensures var r := RunFrom(m, e, picks, t, n); |r.2| < n - t ==> r.2[|r.2| - 1] == 0
      ensures var r := RunFrom(m, e, picks, t, n); r.2 != [] && r.2[|r.2| - 1] == 0 ==> AllHappyIn(r.0)
      ensures var r := RunFrom(m, e, picks, t, n); t < n && AllHappyIn(m) ==> r.0 == m && r.1 == e && r.2 == [0]
      decreases n - t
    {
      if t < n {
        assert PickGrid(picks[t]);
        var p := Pass(m, e, picks[t]);
        if p.2 != 0 {
          RunFromFacts(p.0, p.1, picks, t + 1, n);
        }
      }
    }

    /**
     * `run(num_iterations)`: up to `numIterations` passes, stopping after the
     * first pass that moved nobody. `picks[t]` supplies the random indices of
     * pass `t`. The result is what `run` prints: the number of unhappy agents
     * found in each pass, in order; the "everyone was happy" line is printed
     * exactly when the last entry is 0. The final board and the log are
     * `RunFrom` of the board it starts from.
     */
    method Run(numIterations: int, picks: seq<seq<seq<int>>>) returns (unhappyLog: seq<nat>)
      requires Valid() && (numEmpty > 0 || AllHappyIn(matrix))
      requires numIterations <= |picks| && forall t :: 0 <= t < |picks| ==> PickGrid(picks[t])
      modifies this, agents
      ensures Valid() && agents == old(agents)
      ensures var r := RunFrom(old(matrix), old(emptyHouses), picks, 0, numIterations);
        matrix == r.0 && emptyHouses == r.1 && unhappyLog == r.2
      ensures forall r :: RaceCount(r) == old(RaceCount(r))
      ensures numIterations <= 0 ==> unhappyLog == []
      ensures numIterations > 0 ==> 1 <= |unhappyLog| <= numIterations
      ensures unhappyLog == [] ==> matrix == old(matrix) && emptyHouses == old(emptyHouses)
      ensures forall t :: 0 <= t < |unhappyLog| - 1 ==> unhappyLog[t] > 0
      ensures |unhappyLog| < numIterations ==> unhappyLog[|unhappyLog| - 1] == 0
      ensures unhappyLog != [] && unhappyLog[|unhappyLog| - 1] == 0 ==> AllHappyIn(matrix)
      ensures AllHappyIn(old(matrix)) && numIterations > 0 ==>
        unhappyLog == [0] && matrix == old(matrix) && emptyHouses == old(emptyHouses)
    {
      ghost var m0, e0 := matrix, emptyHouses;
      unhappyLog := RunPasses(numIterations, picks);
      RunOutcome(m0, e0, picks, numIterations, matrix, emptyHouses, unhappyLog);
    }

    /** The loop of `run`, and the counts it prints. */
    method RunPasses(numIterations: int, picks: seq<seq<seq<int>>>) returns (unhappyLog: seq<nat>)
      requires Valid() && (numEmpty > 0 || AllHappyIn(matrix))
      requires numIterations <= |picks| && forall t :: 0 <= t < |picks| ==> PickGrid(picks[t])
      modifies this, agents
      ensures Valid() && agents == old(agents)
      ensures var r := RunFrom(old(matrix), old(emptyHouses), picks, 0, numIterations);
        matrix == r.0 && emptyHouses == r.1 && unhappyLog == r.2
    {
      unhappyLog := [];
      ghost var total := RunFrom(matrix, emptyHouses, picks, 0, numIterations);
      assert [] + total.2 == total.2;
      var iteration := 0;
      while iteration < numIterations
        invariant Valid() && agents == old(agents) && (numEmpty > 0 || AllHappyIn(matrix))
        invariant 0 <= iteration && (numIterations > 0 ==> iteration <= numIterations)
        invariant iteration == |unhappyLog|
        invariant var r := RunFrom(matrix, emptyHouses, picks, iteration, numIterations);
          total.0 == r.0 && total.1 == r.1 && total.2 == unhappyLog + r.2
      {
        ghost var m1, e1 := matrix, emptyHouses;
        var unhappy := Sweep(picks[iteration]);
        RunFromStep(m1, e1, picks, iteration, numIterations, unhappyLog, total);
        unhappyLog := unhappyLog + [unhappy];
        if unhappy == 0 {
          break;
        }
        iteration := iteration + 1;
      }
      if iteration >= numIterations {
        RunFromEnd(matrix, emptyHouses, picks, iteration, numIterations, unhappyLog, total);
      }
    }

    /** Pass `t` of a run, with `log` the counts of the passes before it, as `RunFrom` splits it off. */
    lemma RunFromStep(m: seq<seq<Agent?>>, e: seq<Coord>, picks: seq<seq<seq<int>>>, t: nat, n: int, log: seq<nat>,
                      total: (seq<seq<Agent?>>, seq<Coord>, seq<nat>))
      requires Fits(m) && 0 <= width && 0 <= height
      requires n <= |picks| && forall k :: 0 <= k < |picks| ==> PickGrid(picks[k])
      requires t < n
      requires var r := RunFrom(m, e, picks, t, n); total.0 == r.0 && total.1 == r.1 && total.2 == log + r.2
      ensures PickShape(picks[t])
      ensures var p := Pass(m, e, picks[t]);
        p.2 == 0 ==> total.0 == p.0 && total.1 == p.1 && total.2 == log + [0]
      ensures var p := Pass(m, e, picks[t]);
        p.2 != 0 ==> var r := RunFrom(p.0, p.1, picks, t + 1, n);
          total.0 == r.0 && total.1 == r.1 && total.2 == (log + [p.2]) + r.2
    {
      assert PickGrid(picks[t]);
      var p := Pass(m, e, picks[t]);
      if p.2 != 0 {
        var r := RunFrom(p.0, p.1, picks, t + 1, n);
        assert log + ([p.2] + r.2) == (log + [p.2]) + r.2;
      }
    }

    /** Once no pass is left, the value of the passes still to come adds nothing. */
    lemma RunFromEnd(m: seq<seq<Agent?>>, e: seq<Coord>, picks: seq<seq<seq<int>>>, t: nat, n: int, log: seq<nat>,
                     total: (seq<seq<Agent?>>, seq<Coord>, seq<nat>))
      requires Fits(m) && 0 <= width && 0 <= height
      requires n <= |picks| && forall k :: 0 <= k < |picks| ==> PickGrid(picks[k])
      requires t >= n
      requires var r := RunFrom(m, e, picks, t, n); total.0 == r.0 && total.1 == r.1 && total.2 == log + r.2
      ensures total.0 == m && total.1 == e && total.2 == log
    {
      assert log + [] == log;
    }

    /** `RunFromFacts` for a whole run, as `Run` states it. */
    lemma RunOutcome(m0: seq<seq<Agent?>>, e0: seq<Coord>, picks: seq<seq<seq<int>>>, n: int,
                     m: seq<seq<Agent?>>, e: seq<Coord>, log: seq<nat>)
      requires Fits(m0) && 0 <= width && 0 <= height
      requires n <= |picks| && forall k :: 0 <= k < |picks| ==> PickGrid(picks[k])
      requires var r := RunFrom(m0, e0, picks, 0, n); m == r.0 && e == r.1 && log == r.2
      ensures n <= 0 ==> |log| == 0
      ensures n > 0 ==> 1 <= |log| <= n
      ensures |log| == 0 ==> m == m0 && e == e0
      ensures forall t :: 0 <= t < |log| - 1 ==> log[t] > 0
      ensures |log| < n ==> log[|log| - 1] == 0 && AllHappyIn(m)
      ensures |log| > 0 && log[|log| - 1] == 0 ==> AllHappyIn(m)
      ensures AllHappyIn(m0) && n > 0 ==> log == [0] && m == m0 && e == e0
    {
      RunFromFacts(m0, e0, picks, 0, n);
    }

    /** What `to_ints` puts in a cell: -1 for an empty house, the occupant's race otherwise. */
    function CellCode(a: Agent?): int {
      if a == null then -1 else a.race
    }

    /** `to_ints`: the board as races, -1 marking an empty house. */
    method ToInts() returns (intMatrix: seq<seq<int>>)
      requires Shaped()
      ensures |intMatrix| == height && forall y :: 0 <= y < height ==> |intMatrix[y]| == width
      ensures forall c :: InBounds(c) ==> intMatrix[c.1][c.0] == CellCode(At(c))
      ensures Valid() ==> forall c :: InBounds(c) ==>
        && (intMatrix[c.1][c.0] == -1 <==> c in emptyHouses)
        && (intMatrix[c.1][c.0] != -1 ==> 0 <= intMatrix[c.1][c.0])
    {
      intMatrix := seq(height, _ => seq(width, _ => -1));
      for y := 0 to height
        invariant |intMatrix| == height && forall row :: 0 <= row < height ==> |intMatrix[row]| == width
        invariant forall c :: InBounds(c) ==> intMatrix[c.1][c.0] == if c.1 < y then CellCode(At(c)) else -1
      {
        for x := 0 to width
          invariant |intMatrix| == height && forall row :: 0 <= row < height ==> |intMatrix[row]| == width
          invariant forall c :: InBounds(c) ==> intMatrix[c.1][c.0] == if RowMajorBefore(c, (x, y)) then CellCode(At(c)) else -1
        {
          if matrix[y][x] != null {
            intMatrix := Put(intMatrix, (x, y), matrix[y][x].race);
          }
        }
      }
    }

    /** The occupant of `c` in `m`, or null off the board. */
    function OccupantOr(m: seq<seq<Agent?>>, c: Coord): Agent? {
      if Fits(m) && InBounds(c) then Cell(m, c) else null
    }

    /**
     * Every cell of a valid board holds exactly one agent or is exactly one
     * free house: agents and free houses together number `width * height`.
     */
    lemma CellAccounting()
      requires Valid()
      ensures |agents| + numEmpty == width * height
    {
      var occupied := set c | c in AllCells(width, height) && InBounds(c) && At(c) != null;
      var free := set v | v in emptyHouses;
      assert |free| == numEmpty by {
        DistinctCount(emptyHouses);
      }
      CellsPartition(occupied, free);
      OccupantsCount(occupied);
      AllCellsCount(width, height);
    }

    /** The occupied cells and the free houses split the board between them. */
    lemma CellsPartition(occupied: set<Coord>, free: set<Coord>)
      requires Valid()
      requires occupied == set c | c in AllCells(width, height) && InBounds(c) && At(c) != null
      requires free == set v | v in emptyHouses
      ensures |AllCells(width, height)| == |occupied| + |free|
    {
      AllCellsMembers(width, height);
      forall c | c in free ensures c in AllCells(width, height) {
        var i :| 0 <= i < |emptyHouses| && emptyHouses[i] == c;
      }
      assert AllCells(width, height) == occupied + free;
      assert occupied * free == {};
    }

    /** Each agent occupies one cell and each occupied cell one agent. */
    lemma OccupantsCount(occupied: set<Coord>)
      requires Valid()
      requires occupied == set c | c in AllCells(width, height) && InBounds(c) && At(c) != null
      ensures |occupied| == |agents|
    {
      var m := matrix;
      var f := (c: Coord) => OccupantOr(m, c);
      AllCellsMembers(width, height);
      InjectiveImageCount(occupied, f);
      forall a | a in agents ensures a in Image(occupied, f) {
        assert (a.x, a.y) in occupied && f((a.x, a.y)) == a;
      }
      assert Image(occupied, f) == agents;
    }
  }
}
