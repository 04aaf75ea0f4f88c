/**
 * Building blocks shared by both board implementations (schell/schelling.py
 * and schell/my_schelling.py): coordinates, the `math.ceil` of the
 * empty-house count, the cumulative race draw, the outcome of rejection
 * sampling and one round of it, 2D list updates, `list.pop`, the neighbour
 * offsets, the ratio test of `is_happy`, and the counting facts the board
 * invariants rest on.
 */
module Support {

  datatype Option<T> = None | Some(value: T)

  /** A board coordinate `(x, y)`: column first, then row. */
  type Coord = (int, int)

  /** `int(math.ceil(r))` for a non-negative or negative real. */
  function Ceil(r: real): (c: int)
    ensures r <= c as real < r + 1.0
  {
    if r.Floor as real == r then r.Floor else r.Floor + 1
  }

  /**
   * `next(i for i, p in enumerate(probs) if p >= u)`: the smallest index whose
   * cumulative probability reaches the draw `u`, or None where Python would
   * raise StopIteration.
   */
  function FirstAtLeast(probs: seq<real>, u: real): (r: Option<nat>)
    ensures r.Some? ==> r.value < |probs| && probs[r.value] >= u
    ensures r.Some? ==> forall j :: 0 <= j < r.value ==> probs[j] < u
    ensures r.None? <==> forall j :: 0 <= j < |probs| ==> probs[j] < u
  {
    if |probs| == 0 then None
    else if probs[0] >= u then Some(0)
    else match FirstAtLeast(probs[1..], u)
      case None => None
      case Some(i) => Some(i + 1)
  }

  /** No element of `s` occurs twice. */
  predicate Distinct<T(==)>(s: seq<T>) {
    forall i, j :: 0 <= i < j < |s| ==> s[i] != s[j]
  }

  /**
   * What the rejection-sampling loop keeps of a stream of draws: every draw
   * that is not already in the list, in the order drawn.
   */
  function FirstOccurrences(s: seq<Coord>): (d: seq<Coord>)
    ensures |d| <= |s|
  {
    if s == [] then []
    else
      var d := FirstOccurrences(s[..|s| - 1]);
      if s[|s| - 1] in d then d else d + [s[|s| - 1]]
  }

  /** The kept coordinates are the drawn ones, each kept once. */
  lemma {:induction false} FirstOccurrencesSound(s: seq<Coord>)
    ensures Distinct(FirstOccurrences(s))
    ensures forall v :: v in FirstOccurrences(s) <==> v in s
  {
    if s != [] {
      var t := s[..|s| - 1];
      FirstOccurrencesSound(t);
      assert s == t + [s[|s| - 1]];
    }
  }

  /** The first occurrences of a longer stream extend those of its prefix. */
  lemma {:induction false} FirstOccurrencesPrefix(s: seq<Coord>, k: nat)
    requires k <= |s|
    ensures |FirstOccurrences(s[..k])| <= |FirstOccurrences(s)|
    ensures FirstOccurrences(s[..k]) == FirstOccurrences(s)[..|FirstOccurrences(s[..k])|]
    decreases |s| - k
  {
    if k < |s| {
      FirstOccurrencesPrefix(s, k + 1);
      assert s[..k + 1][..k] == s[..k];
    } else {
      assert s[..k] == s;
    }
  }

  /** One more draw either repeats a kept coordinate or is appended. */
  lemma FirstOccurrencesStep(s: seq<Coord>, k: nat)
    requires k < |s|
    ensures FirstOccurrences(s[..k + 1]) ==
      if s[k] in FirstOccurrences(s[..k]) then FirstOccurrences(s[..k]) else FirstOccurrences(s[..k]) + [s[k]]
  {
    assert s[..k + 1][..k] == s[..k];
  }

  /** Draws that repeat a kept coordinate keep nothing new. */
  lemma {:induction false} FirstOccurrencesSkip(s: seq<Coord>, i: nat, j: nat)
    requires i <= j <= |s|
    requires forall k :: i <= k < j ==> s[k] in FirstOccurrences(s[..i])
    ensures FirstOccurrences(s[..j]) == FirstOccurrences(s[..i])
    decreases j
  {
    if j > i {
      FirstOccurrencesSkip(s, i, j - 1);
      FirstOccurrencesStep(s, j - 1);
    }
  }

  /** Repeats followed by a new draw keep exactly that new draw. */
  lemma FirstOccurrencesFresh(s: seq<Coord>, i: nat, j: nat)
    requires i <= j < |s|
    requires forall k :: i <= k < j ==> s[k] in FirstOccurrences(s[..i])
    requires s[j] !in FirstOccurrences(s[..i])
    ensures FirstOccurrences(s[..j + 1]) == FirstOccurrences(s[..i]) + [s[j]]
  {
    FirstOccurrencesSkip(s, i, j);
    FirstOccurrencesStep(s, j);
  }

  /**
   * While fewer coordinates have been kept than the whole stream yields, a
   * draw not yet kept lies ahead.
   */
  lemma FreshDrawAhead(s: seq<Coord>, k: nat) returns (j: nat)
    requires k <= |s| && |FirstOccurrences(s[..k])| < |FirstOccurrences(s)|
    ensures k <= j < |s| && s[j] !in FirstOccurrences(s[..k])
  {
    var kept, all := FirstOccurrences(s[..k]), FirstOccurrences(s);
    FirstOccurrencesPrefix(s, k);
    FirstOccurrencesSound(s);
    FirstOccurrencesSound(s[..k]);
    var v := all[|kept|];
    assert v in s;
    assert v !in kept by {
      assert kept == all[..|kept|];
    }
    assert forall i :: 0 <= i < k ==> s[i] == s[..k][i];
    j :| 0 <= j < |s| && s[j] == v;
  }

  /** `matrix[c.1][c.0] = v` on a list of rows. */
  function Put<T>(m: seq<seq<T>>, c: Coord, v: T): (r: seq<seq<T>>)
    requires 0 <= c.1 < |m| && 0 <= c.0 < |m[c.1]|
    ensures |r| == |m|
    ensures forall y :: 0 <= y < |m| ==> |r[y]| == |m[y]|
    ensures forall y, x :: 0 <= y < |m| && 0 <= x < |m[y]| ==> r[y][x] == (if (x, y) == c then v else m[y][x])
  {
    m[c.1 := m[c.1][c.0 := v]]
  }

  /** `s.pop(i)`, keeping the order of the remaining entries. */
  function RemoveAt<T>(s: seq<T>, i: nat): (r: seq<T>)
    requires i < |s|
    ensures |r| == |s| - 1
    ensures forall j :: 0 <= j < |r| ==> r[j] == (if j < i then s[j] else s[j + 1])
    ensures multiset(r) + multiset{s[i]} == multiset(s)
  {
    assert s == s[..i] + [s[i]] + s[i + 1..];
    s[..i] + s[i + 1..]
  }

  /** Python's `sum` of a list of numbers. */
  function SumReals(s: seq<real>): real {
    if s == [] then 0.0 else SumReals(s[..|s| - 1]) + s[|s| - 1]
  }

  /** A sum of fractions between 0 and 1 lies between 0 and the count. */
  lemma {:induction false} SumRealsBound(s: seq<real>)
    requires forall i :: 0 <= i < |s| ==> 0.0 <= s[i] <= 1.0
    ensures 0.0 <= SumReals(s) <= |s| as real
  {
    if s != [] {
      SumRealsBound(s[..|s| - 1]);
    }
  }

  /** Every coordinate of a `width × height` board, built row by row. */
  function AllCells(width: nat, height: nat): set<Coord> {
    if height == 0 then {} else AllCells(width, height - 1) + RowCells(width, height - 1)
  }

  function RowCells(width: nat, y: int): set<Coord> {
    set x | 0 <= x < width :: (x, y)
  }

  /** `AllCells` holds exactly the in-bounds coordinates. */
  lemma {:induction false} AllCellsMembers(width: nat, height: nat)
    ensures forall c :: c in AllCells(width, height) <==> 0 <= c.0 < width && 0 <= c.1 < height
  {
    if height > 0 {
      AllCellsMembers(width, height - 1);
    }
  }

  lemma {:induction false} RowCellsCount(width: nat, y: int)
    ensures |RowCells(width, y)| == width
  {
    if width > 0 {
      RowCellsCount(width - 1, y);
      assert RowCells(width, y) == RowCells(width - 1, y) + {(width - 1, y)};
    } else {
      assert RowCells(width, y) == {};
    }
  }

  lemma DivSelf(n: real)
    requires n > 0.0
    ensures n / n == 1.0
  {
  }

  lemma MulStep(a: int, b: int)
    ensures a * b == a * (b - 1) + a
  {
  }

  /** A `width × height` board has exactly `width * height` cells. */
  lemma {:induction false} AllCellsCount(width: nat, height: nat)
    ensures |AllCells(width, height)| == width * height
  {
    if height > 0 {
      var above, row := AllCells(width, height - 1), RowCells(width, height - 1);
      assert |above| == width * (height - 1) by {
        AllCellsCount(width, height - 1);
      }
      assert |row| == width by {
        RowCellsCount(width, height - 1);
      }
      assert |AllCells(width, height)| == |above| + |row| by {
        AllCellsMembers(width, height - 1);
        assert above * row == {} by {
          forall c: Coord | c in above ensures c !in row {
          }
        }
      }
      MulStep(width, height);
    }
  }

  /** A list without repetitions has as many elements as its set. */
  lemma {:induction false} DistinctCount<T>(s: seq<T>)
    requires Distinct(s)
    ensures |set v | v in s| == |s|
  {
    if s != [] {
      var t := s[..|s| - 1];
      DistinctCount(t);
      assert (set v | v in s) == (set v | v in t) + {s[|s| - 1]};
      assert s[|s| - 1] !in t;
    }
  }

  /** A set is no larger than a set that contains it. */
  lemma SubsetCount<T>(a: set<T>, b: set<T>)
    requires a <= b
    ensures |a| <= |b|
  {
    assert b == a + (b - a);
  }

  /** The image of a set under a function. */
  function Image<A, B>(s: set<A>, f: A -> B): set<B> {
    set a | a in s :: f(a)
  }

  /** The image of a set under a function injective on it has the set's size. */
  lemma {:induction false} InjectiveImageCount<A, B>(s: set<A>, f: A -> B)
    requires forall a, a' :: a in s && a' in s && f(a) == f(a') ==> a == a'
    ensures |Image(s, f)| == |s|
  {
    if s != {} {
      var a :| a in s;
      InjectiveImageCount(s - {a}, f);
      assert Image(s, f) == Image(s - {a}, f) + {f(a)};
    }
  }

  /**
   * Rejection sampling over in-bounds draws yields at most `width * height`
   * distinct coordinates, so asking for more than that never finishes.
   */
  lemma DistinctDrawsFit(draws: seq<Coord>, width: nat, height: nat)
    requires forall i :: 0 <= i < |draws| ==> 0 <= draws[i].0 < width && 0 <= draws[i].1 < height
    ensures |FirstOccurrences(draws)| <= width * height
  {
    var d := FirstOccurrences(draws);
    FirstOccurrencesSound(draws);
    var ds := set v | v in d;
    DistinctCount(d);
    AllCellsMembers(width, height);
    assert ds <= AllCells(width, height) by {
      forall v | v in d ensures v in AllCells(width, height) {
        var i :| 0 <= i < |draws| && draws[i] == v;
      }
    }
    SubsetCount(ds, AllCells(width, height));
    AllCellsCount(width, height);
  }

  /** `s / t >= k` and `s >= k * t` agree for a positive `t`. */
  lemma RatioAtLeast(s: real, t: real, k: real)
    requires t > 0.0
    ensures s / t >= k <==> s >= k * t
  {
    var q := s / t;
    assert q * t == s;
    if q >= k {
      assert q * t >= k * t;
    } else {
      assert q * t < k * t;
    }
  }

  /** The nine `(dx, dy)` offsets in the order the two loops of `neighbours` visit them in the Python code. */
  const Offsets: seq<(int, int)> :=
    [(-1, -1), (0, -1), (1, -1), (-1, 0), (0, 0), (1, 0), (-1, 1), (0, 1), (1, 1)]

  lemma OffsetIndex(dx: int, dy: int)
    requires -1 <= dx <= 1 && -1 <= dy <= 1
    ensures Offsets[3 * (dy + 1) + (dx + 1)] == (dx, dy)
  {
  }

  lemma OffsetRange(j: nat)
    requires j < 9
    ensures -1 <= Offsets[j].0 <= 1 && -1 <= Offsets[j].1 <= 1
  {
    assert j in {0, 1, 2, 3, 4, 5, 6, 7, 8};
  }

  /**
   * One round of `create_empty_houses`: consume draws from `draws[next0..]`
   * until one is not yet in `houses`.
   */
  method DrawFresh(draws: seq<Coord>, next0: nat, houses: seq<Coord>) returns (pair: Coord, next: nat)
    requires next0 <= |draws| && houses == FirstOccurrences(draws[..next0])
    requires |houses| < |FirstOccurrences(draws)|
    ensures next0 < next <= |draws| && pair == draws[next - 1] && pair !in houses
    ensures FirstOccurrences(draws[..next]) == houses + [pair]
    ensures forall k :: next0 <= k < next - 1 ==> draws[k] in houses
  {
    ghost var ahead := FreshDrawAhead(draws, next0);
    pair := draws[next0];
    next := next0 + 1;
    while pair in houses
      invariant next0 < next <= ahead + 1 && pair == draws[next - 1]
      invariant forall k :: next0 <= k < next - 1 ==> draws[k] in houses
      decreases |draws| - next
    {
      pair := draws[next];
      next := next + 1;
    }
    FirstOccurrencesFresh(draws, next0, next - 1);
  }

  /** Chebyshev distance between two coordinates. */
  function Chebyshev(a: Coord, b: Coord): nat {
    var dx := if a.0 >= b.0 then a.0 - b.0 else b.0 - a.0;
    var dy := if a.1 >= b.1 then a.1 - b.1 else b.1 - a.1;
    if dx >= dy then dx else dy
  }

  /** `c` comes strictly before `d` in row-major order. */
  predicate RowMajorBefore(c: Coord, d: Coord) {
    c.1 < d.1 || (c.1 == d.1 && c.0 < d.0)
  }
}
