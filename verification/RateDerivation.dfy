/** The least-squares fits that turn benchmark cells into VCU weights, over exact reals. */
module RateDerivation {
  import opened Wrappers
  import opened Sums

  function Square(x: real): real {
    x * x
  }

  lemma ZeroFactor(x: real, y: real)
    requires x != 0.0 && x * y == 0.0
    ensures y == 0.0
  {
  }

  lemma SquareNonNegative(x: real)
    ensures Square(x) >= 0.0
    ensures Square(x) == 0.0 ==> x == 0.0
  {
    if x != 0.0 && Square(x) == 0.0 { ZeroFactor(x, x); }
  }

  lemma GapOf(x: real, r: real, u: real)
    requires x == r - u
    ensures Square(x) >= Square(r) - 2.0 * (r * u)
  {
    assert Square(x) == Square(r) - 2.0 * (r * u) + u * u;
    assert u * u >= 0.0;
  }

  lemma NotPositive(x: real, y: real)
    requires x >= 0.0 && y <= 0.0
    ensures x * y <= 0.0
  {
  }

  lemma Quotient(num: real, den: real)
    requires den > 0.0
    ensures num / den * den == num
    ensures num < 0.0 <==> num / den < 0.0
  {
    if num >= 0.0 { assert num / den >= 0.0; }
  }

  // ------------------------------------------------------------ lines

  /** A measured cell: seconds beyond the base duration, and VCU per output second. */
  datatype Point = Point(h: real, y: real)

  function H(): Point -> real {
    (p: Point) => p.h
  }

  function Y(): Point -> real {
    (p: Point) => p.y
  }

  function CrossAt(p: Point, mh: real, my: real): real {
    (p.h - mh) * (p.y - my)
  }

  function Crossed(mh: real, my: real): Point -> real {
    (p: Point) => CrossAt(p, mh, my)
  }

  function SpreadAt(p: Point, mh: real): real {
    Square(p.h - mh)
  }

  function Spreaded(mh: real): Point -> real {
    (p: Point) => SpreadAt(p, mh)
  }

  function Mean(points: seq<Point>, f: Point -> real): real
    requires points != []
  {
    SumSeq(points, f) / |points| as real
  }

  predicate SameH(points: seq<Point>) {
    forall i, j :: 0 <= i < |points| && 0 <= j < |points| ==> points[i].h == points[j].h
  }

  function Slope(points: seq<Point>): real
    requires !SameH(points)
  {
    var mh := Mean(points, H());
    SpreadPositive(points, mh);
    SumSeq(points, Crossed(mh, Mean(points, Y()))) / SumSeq(points, Spreaded(mh))
  }

  /** y = a + b h with b at least 0; no b when every h is the same. */
  function FitLine(points: seq<Point>): (real, Option<real>)
    requires points != []
  {
    var (mh, my) := (Mean(points, H()), Mean(points, Y()));
    if SameH(points) then (my, None)
    else
      var b := Slope(points);
      if b < 0.0 then (my, Some(0.0)) else (my - b * mh, Some(b))
  }

  lemma SpreadPositive(points: seq<Point>, mh: real)
    requires !SameH(points)
    ensures SumSeq(points, Spreaded(mh)) > 0.0
  {
    forall i | 0 <= i < |points| ensures Spreaded(mh)(points[i]) >= 0.0 { SquareNonNegative(points[i].h - mh); }
    SumSeqNonNegative(points, Spreaded(mh));
    var i, j :| 0 <= i < |points| && 0 <= j < |points| && points[i].h != points[j].h;
    SquareNonNegative(points[i].h - mh);
    SquareNonNegative(points[j].h - mh);
    assert Spreaded(mh)(points[i]) != 0.0 || Spreaded(mh)(points[j]) != 0.0;
  }

  function ResidualAt(p: Point, a: real, b: real): real {
    p.y - a - b * p.h
  }

  function Residual(a: real, b: real): Point -> real {
    (p: Point) => ResidualAt(p, a, b)
  }

  /** A residual times h. */
  function MomentAt(p: Point, a: real, b: real): real {
    ResidualAt(p, a, b) * p.h
  }

  function Moment(a: real, b: real): Point -> real {
    (p: Point) => MomentAt(p, a, b)
  }

  function SquaredAt(p: Point, a: real, b: real): real {
    Square(ResidualAt(p, a, b))
  }

  function Squared(a: real, b: real): Point -> real {
    (p: Point) => SquaredAt(p, a, b)
  }

  /** The squared error of a line. */
  function Error(points: seq<Point>, a: real, b: real): real {
    SumSeq(points, Squared(a, b))
  }

  lemma ResidualShift(y: real, h: real, a: real, b: real, a': real, b': real)
    ensures y - a' - b' * h == (y - a - b * h) - ((a' - a) + (b' - b) * h)
  {
  }

  lemma GapTerms(r: real, h: real, da: real, db: real, j: real, k: real)
    requires j == -2.0 * da && k == -2.0 * db
    ensures -2.0 * (r * (da + db * h)) == j * r + k * (r * h)
  {
  }

  lemma SquareGap(p: Point, a: real, b: real, a': real, b': real, j: real, k: real)
    requires j == -2.0 * (a' - a) && k == -2.0 * (b' - b)
    ensures SquaredAt(p, a', b') >= SquaredAt(p, a, b) + j * ResidualAt(p, a, b) + k * MomentAt(p, a, b)
  {
    var (r, da, db) := (ResidualAt(p, a, b), a' - a, b' - b);
    ResidualShift(p.y, p.h, a, b, a', b');
    GapOf(ResidualAt(p, a', b'), r, da + db * p.h);
    GapTerms(r, p.h, da, db, j, k);
  }

  lemma PointGap(p: Point, a: real, b: real, a': real, b': real, j: real, k: real)
    requires j == -2.0 * (a' - a) && k == -2.0 * (b' - b)
    ensures Squared(a', b')(p) >= Squared(a, b)(p) + Times(j, Residual(a, b))(p) + Times(k, Moment(a, b))(p)
  {
    SquareGap(p, a, b, a', b', j, k);
  }

  /** Another line's error exceeds this one's at least by what the residuals' sums say. */
  lemma ErrorGap(points: seq<Point>, a: real, b: real, a': real, b': real, j: real, k: real)
    requires j == -2.0 * (a' - a) && k == -2.0 * (b' - b)
    ensures Error(points, a', b')
            >= Error(points, a, b) + j * SumSeq(points, Residual(a, b)) + k * SumSeq(points, Moment(a, b))
  {
    forall i | 0 <= i < |points|
      ensures Squared(a', b')(points[i])
              >= Squared(a, b)(points[i]) + Times(j, Residual(a, b))(points[i]) + Times(k, Moment(a, b))(points[i])
    {
      PointGap(points[i], a, b, a', b', j, k);
    }
    SumSeqAtLeast(points, Squared(a, b), j, Residual(a, b), k, Moment(a, b), Squared(a', b'));
  }

  lemma BalancedIsBest(points: seq<Point>, a: real, b: real, a': real, b': real)
    requires SumSeq(points, Residual(a, b)) == 0.0 && SumSeq(points, Moment(a, b)) == 0.0
    ensures Error(points, a, b) <= Error(points, a', b')
  {
    ErrorGap(points, a, b, a', b', -2.0 * (a' - a), -2.0 * (b' - b));
  }

  // ------------------------------------------------------------ the normal equations

  function One(): Point -> real {
    (p: Point) => 1.0
  }

  lemma ResidualPoint(p: Point, a: real, b: real)
    ensures Residual(a, b)(p) == Y()(p) + Times(-b, H())(p) + Times(-a, One())(p)
  {
    NegatedProduct(b, p.h);
    assert ResidualAt(p, a, b) == p.y + -b * p.h + -a * 1.0;
  }

  lemma ResidualsSum(points: seq<Point>, a: real, b: real)
    ensures SumSeq(points, Residual(a, b)) == SumSeq(points, Y()) + -b * SumSeq(points, H()) + -a * |points| as real
  {
    forall i | 0 <= i < |points|
      ensures Residual(a, b)(points[i]) == Y()(points[i]) + Times(-b, H())(points[i]) + Times(-a, One())(points[i])
    {
      ResidualPoint(points[i], a, b);
    }
    SumSeqCombine(points, Y(), -b, H(), -a, One(), Residual(a, b));
    SumSeqSame(points, One(), 1.0);
  }

  lemma NegatedProduct(x: real, y: real)
    ensures -x * y == -(x * y)
  {
  }

  /** The residuals of a line through the means sum to nothing. */
  lemma MeansBalance(points: seq<Point>, a: real, b: real)
    requires points != [] && a == Mean(points, Y()) - b * Mean(points, H())
    ensures SumSeq(points, Residual(a, b)) == 0.0
  {
    ResidualsSum(points, a, b);
    Balance(SumSeq(points, Y()), SumSeq(points, H()), |points| as real, Mean(points, Y()), Mean(points, H()), a, b);
  }

  lemma Balance(y: real, h: real, n: real, my: real, mh: real, a: real, b: real)
    requires n > 0.0 && my == y / n && mh == h / n && a == my - b * mh
    ensures y + -b * h + -a * n == 0.0
  {
    assert n * my == y && n * mh == h;
    assert n * a == n * my - b * (n * mh);
  }

  lemma CentredMoment(p: Point, mh: real, my: real, a: real, b: real)
    requires a == my - b * mh
    ensures MomentAt(p, a, b) == CrossAt(p, mh, my) + -b * SpreadAt(p, mh) + mh * ResidualAt(p, a, b)
  {
    var (x, y, r) := (p.h - mh, p.y - my, ResidualAt(p, a, b));
    assert r == y - b * x by { ResidualShift(p.y, p.h, 0.0, 0.0, a, b); Distribute(b, x, mh); }
    assert r * p.h == r * x + mh * r by { Distribute(r, x, mh); }
    CentredTerms(x, y, b);
  }

  lemma CentredPoint(p: Point, mh: real, my: real, a: real, b: real)
    requires a == my - b * mh
    ensures Moment(a, b)(p) == Crossed(mh, my)(p) + Times(-b, Spreaded(mh))(p) + Times(mh, Residual(a, b))(p)
  {
    CentredMoment(p, mh, my, a, b);
  }

  lemma CentredTerms(x: real, y: real, b: real)
    ensures (y - b * x) * x == x * y + -b * Square(x)
  {
  }

  /** Around the means, the moment of a line through them is the cross sum less its slope times the spread. */
  lemma MomentSum(points: seq<Point>, mh: real, my: real, a: real, b: real)
    requires a == my - b * mh
    ensures SumSeq(points, Moment(a, b)) == SumSeq(points, Crossed(mh, my)) + -b * SumSeq(points, Spreaded(mh))
                                            + mh * SumSeq(points, Residual(a, b))
  {
    forall i | 0 <= i < |points|
      ensures Moment(a, b)(points[i])
              == Crossed(mh, my)(points[i]) + Times(-b, Spreaded(mh))(points[i]) + Times(mh, Residual(a, b))(points[i])
    {
      CentredPoint(points[i], mh, my, a, b);
    }
    SumSeqCombine(points, Crossed(mh, my), -b, Spreaded(mh), mh, Residual(a, b), Moment(a, b));
  }

  lemma Vanishes(num: real, den: real, b: real, mh: real)
    requires den > 0.0 && b == num / den
    ensures num + -b * den + mh * 0.0 == 0.0
  {
    Quotient(num, den);
    NegatedProduct(b, den);
  }

  lemma SlopeBalances(points: seq<Point>, a: real, b: real)
    requires !SameH(points) && b == Slope(points) && a == Mean(points, Y()) - b * Mean(points, H())
    ensures SumSeq(points, Residual(a, b)) == 0.0 && SumSeq(points, Moment(a, b)) == 0.0
  {
    var (mh, my) := (Mean(points, H()), Mean(points, Y()));
    SpreadPositive(points, mh);
    assert SumSeq(points, Residual(a, b)) == 0.0 by { MeansBalance(points, a, b); }
    MomentSum(points, mh, my, a, b);
    Vanishes(SumSeq(points, Crossed(mh, my)), SumSeq(points, Spreaded(mh)), b, mh);
  }

  /** The slope before clamping leaves nothing to gain. */
  lemma SlopeIsBest(points: seq<Point>, a: real, b: real, a': real, b': real)
    requires !SameH(points) && b == Slope(points) && a == Mean(points, Y()) - b * Mean(points, H())
    ensures Error(points, a, b) <= Error(points, a', b')
  {
    SlopeBalances(points, a, b);
    BalancedIsBest(points, a, b, a', b');
  }

  lemma FallingSlope(points: seq<Point>)
    requires !SameH(points) && Slope(points) < 0.0
    ensures SumSeq(points, Crossed(Mean(points, H()), Mean(points, Y()))) <= 0.0
  {
    var (mh, my) := (Mean(points, H()), Mean(points, Y()));
    SpreadPositive(points, mh);
    Quotient(SumSeq(points, Crossed(mh, my)), SumSeq(points, Spreaded(mh)));
  }

  /** With the cross sum at most 0 the flat line through the mean is best among lines that do not fall. */
  lemma FlatIsBest(points: seq<Point>, a': real, b': real)
    requires points != [] && b' >= 0.0 && SumSeq(points, Crossed(Mean(points, H()), Mean(points, Y()))) <= 0.0
    ensures Error(points, Mean(points, Y()), 0.0) <= Error(points, a', b')
  {
    var (mh, my) := (Mean(points, H()), Mean(points, Y()));
    MeansBalance(points, my, 0.0);
    MomentSum(points, mh, my, my, 0.0);
    var k := -2.0 * (b' - 0.0);
    ErrorGap(points, my, 0.0, a', b', -2.0 * (a' - my), k);
    NotPositive(-k, SumSeq(points, Moment(my, 0.0)));
    NegatedProduct(k, SumSeq(points, Moment(my, 0.0)));
  }

  lemma SameHCross(points: seq<Point>, my: real)
    requires points != [] && SameH(points)
    ensures SumSeq(points, Crossed(Mean(points, H()), my)) == 0.0
  {
    var h := points[0].h;
    SumSeqSame(points, H(), h);
    MeanOfSame(|points| as real, h);
    SumSeqSame(points, Crossed(Mean(points, H()), my), 0.0);
  }

  lemma MeanOfSame(n: real, h: real)
    requires n > 0.0
    ensures (n * h) / n == h
  {
  }

  /** No line with a slope of at least 0 has a smaller squared error, whether or not the slope was clamped. */
  lemma FitLineIsBest(points: seq<Point>, a': real, b': real)
    requires points != [] && b' >= 0.0
    ensures var (a, b) := FitLine(points);
            match b case Some(slope) => slope >= 0.0 && Error(points, a, slope) <= Error(points, a', b')
                    case None => Error(points, a, 0.0) <= Error(points, a', b')
  {
    if SameH(points) {
      SameHCross(points, Mean(points, Y()));
      FlatIsBest(points, a', b');
    } else if Slope(points) < 0.0 {
      FallingSlope(points);
      FlatIsBest(points, a', b');
    } else {
      SlopeIsBest(points, FitLine(points).0, Slope(points), a', b');
    }
  }

  // ------------------------------------------------------------ multipliers

  /** A measured value beside a predicted one. */
  datatype Pair = Pair(y: real, p: real)

  function ProductAt(pair: Pair): real {
    pair.y * pair.p
  }

  function Products(): Pair -> real {
    (pair: Pair) => ProductAt(pair)
  }

  function SquareAt(pair: Pair): real {
    Square(pair.p)
  }

  function Squares(): Pair -> real {
    (pair: Pair) => SquareAt(pair)
  }

  /** The least-squares m in measured = m times predicted; none when every prediction is 0. */
  function Ratio(pairs: seq<Pair>): Option<real> {
    var denominator := SumSeq(pairs, Squares());
    if denominator > 0.0 then Some(SumSeq(pairs, Products()) / denominator) else None
  }

  function MissAt(pair: Pair, m: real): real {
    Square(pair.y - m * pair.p)
  }

  function Misses(m: real): Pair -> real {
    (pair: Pair) => MissAt(pair, m)
  }

  function RatioError(pairs: seq<Pair>, m: real): real {
    SumSeq(pairs, Misses(m))
  }

  lemma MissGap(pair: Pair, m: real, m': real, j: real, k: real)
    requires j == -2.0 * (m' - m) && k == -m * j
    ensures MissAt(pair, m') >= MissAt(pair, m) + j * ProductAt(pair) + k * SquareAt(pair)
  {
    var (r, d) := (pair.y - m * pair.p, m' - m);
    ResidualShift(pair.y, pair.p, 0.0, m, 0.0, m');
    GapOf(pair.y - m' * pair.p, r, d * pair.p);
    PairTerms(pair.y, pair.p, m, d, j, k);
  }

  lemma PairGap(pair: Pair, m: real, m': real, j: real, k: real)
    requires j == -2.0 * (m' - m) && k == -m * j
    ensures Misses(m')(pair) >= Misses(m)(pair) + Times(j, Products())(pair) + Times(k, Squares())(pair)
  {
    MissGap(pair, m, m', j, k);
  }

  lemma PairTerms(y: real, p: real, m: real, d: real, j: real, k: real)
    requires j == -2.0 * d && k == -m * j
    ensures -2.0 * ((y - m * p) * (d * p)) == j * (y * p) + k * Square(p)
  {
    assert (y - m * p) * (d * p) == d * (y * p) - m * d * (p * p);
  }

  lemma RatioGap(pairs: seq<Pair>, m: real, m': real, j: real, k: real)
    requires j == -2.0 * (m' - m) && k == -m * j
    ensures RatioError(pairs, m') >= RatioError(pairs, m) + j * SumSeq(pairs, Products()) + k * SumSeq(pairs, Squares())
  {
    forall i | 0 <= i < |pairs|
      ensures Misses(m')(pairs[i]) >= Misses(m)(pairs[i]) + Times(j, Products())(pairs[i]) + Times(k, Squares())(pairs[i])
    {
      PairGap(pairs[i], m, m', j, k);
    }
    SumSeqAtLeast(pairs, Misses(m), j, Products(), k, Squares(), Misses(m'));
  }

  /** The quotient of the sums balances: nothing is gained by moving away from it. */
  lemma QuotientBalances(num: real, den: real, m: real, j: real, k: real)
    requires den > 0.0 && m == num / den && k == -m * j
    ensures j * num + k * den == 0.0
  {
    Quotient(num, den);
    assert k * den == -j * (m * den);
  }

  lemma NothingPredicted(pairs: seq<Pair>, m: real, m': real)
    requires SumSeq(pairs, Squares()) <= 0.0
    ensures RatioError(pairs, m) == RatioError(pairs, m')
  {
    forall i | 0 <= i < |pairs| ensures Squares()(pairs[i]) >= 0.0 { SquareNonNegative(pairs[i].p); }
    SumSeqNonNegative(pairs, Squares());
    forall i | 0 <= i < |pairs| ensures Misses(m)(pairs[i]) == Misses(m')(pairs[i]) {
      assert Squares()(pairs[i]) == 0.0;
      SquareNonNegative(pairs[i].p);
    }
    SumSeqLeq(pairs, Misses(m), Misses(m'));
    SumSeqLeq(pairs, Misses(m'), Misses(m));
  }

  /** No multiplier has a smaller squared error; there is none to choose exactly when they all have the same. */
  lemma RatioIsBest(pairs: seq<Pair>, m: real, m': real)
    ensures Ratio(pairs).Some? ==> RatioError(pairs, Ratio(pairs).value) <= RatioError(pairs, m)
    ensures Ratio(pairs).None? ==> RatioError(pairs, m) == RatioError(pairs, m')
  {
    if Ratio(pairs).Some? {
      var best := Ratio(pairs).value;
      var j := -2.0 * (m - best);
      RatioGap(pairs, best, m, j, -best * j);
      QuotientBalances(SumSeq(pairs, Products()), SumSeq(pairs, Squares()), best, j, -best * j);
    } else {
      NothingPredicted(pairs, m, m');
    }
  }

  // ------------------------------------------------------------ the joint slope

  /** A default-rate cell of a fitted resolution: its weight, its seconds beyond the base and its measured VCU. */
  datatype Cell = Cell(weight: real, h: real, y: real)

  predicate WeightsNonZero(cells: seq<Cell>) {
    forall i :: 0 <= i < |cells| ==> cells[i].weight != 0.0
  }

  function ExcessOf(cell: Cell): Pair
    requires cell.weight != 0.0
  {
    Pair(cell.y / cell.weight - 1.0, if cell.h > 0.0 then cell.h else 0.0)
  }

  /** The excess of each cell longer than the base, beside its extra seconds. */
  function Excesses(cells: seq<Cell>): seq<Pair>
    requires WeightsNonZero(cells)
  {
    if cells == [] then []
    else
      var (before, cell) := (Excesses(cells[..|cells| - 1]), cells[|cells| - 1]);
      if cell.h > 0.0 then before + [ExcessOf(cell)] else before
  }

  /** One slope for every resolution, at least 0; none when no cell is longer than the base. */
  function JointSlope(cells: seq<Cell>): Option<real>
    requires WeightsNonZero(cells)
  {
    var (num, den) := (SumSeq(Excesses(cells), Products()), SumSeq(Excesses(cells), Squares()));
    if den > 0.0 then Some(if num / den > 0.0 then num / den else 0.0) else None
  }

  /** The squared error of y / w = 1 + s h over all cells, those up to the base counting with h = 0. */
  function SlopeError(cells: seq<Cell>, s: real): real
    requires WeightsNonZero(cells)
  {
    if cells == [] then 0.0
    else SlopeError(cells[..|cells| - 1], s) + Misses(s)(ExcessOf(cells[|cells| - 1]))
  }

  /** Each cell adds the square of what its VCU per weight is off the line 1 + s h. */
  lemma SlopeErrorAdds(cells: seq<Cell>, cell: Cell, s: real)
    requires WeightsNonZero(cells) && cell.weight != 0.0
    ensures WeightsNonZero(cells + [cell]) && SlopeError([], s) == 0.0
    ensures var miss := cell.y / cell.weight - (1.0 + s * (if cell.h > 0.0 then cell.h else 0.0));
            SlopeError(cells + [cell], s) == SlopeError(cells, s) + miss * miss
  {
    var all := cells + [cell];
    assert all[..|all| - 1] == cells;
    var pair := ExcessOf(cell);
    assert MissAt(pair, s) == (pair.y - s * pair.p) * (pair.y - s * pair.p);
  }

  /** There is a slope exactly when some cell is longer than the base. */
  lemma JointSlopeExists(cells: seq<Cell>)
    requires WeightsNonZero(cells)
    ensures JointSlope(cells).Some? <==> exists i :: 0 <= i < |cells| && cells[i].h > 0.0
  {
    LongerCells(cells);
  }

  lemma {:induction false} LongerCells(cells: seq<Cell>)
    requires WeightsNonZero(cells)
    ensures SumSeq(Excesses(cells), Squares()) >= 0.0
    ensures SumSeq(Excesses(cells), Squares()) > 0.0 <==> exists i :: 0 <= i < |cells| && cells[i].h > 0.0
  {
    if cells != [] {
      var (front, cell) := (cells[..|cells| - 1], cells[|cells| - 1]);
      LongerCells(front);
      if cell.h > 0.0 {
        assert cells[|cells| - 1].h > 0.0;
        assert (Excesses(front) + [ExcessOf(cell)])[..|Excesses(front)|] == Excesses(front);
        assert Squares()(ExcessOf(cell)) > 0.0 by { SquareNonNegative(cell.h); }
      } else {
        assert forall i :: 0 <= i < |front| ==> cells[i] == front[i];
      }
    }
  }

  /** The short cells add the same error whatever the slope. */
  lemma {:induction false} SlopeErrorSplits(cells: seq<Cell>, s: real, s': real)
    requires WeightsNonZero(cells)
    ensures SlopeError(cells, s) - RatioError(Excesses(cells), s) == SlopeError(cells, s') - RatioError(Excesses(cells), s')
  {
    if cells != [] {
      var (front, cell) := (cells[..|cells| - 1], cells[|cells| - 1]);
      SlopeErrorSplits(front, s, s');
      if cell.h > 0.0 {
        assert (Excesses(front) + [ExcessOf(cell)])[..|Excesses(front)|] == Excesses(front);
      } else {
        assert ExcessOf(cell).p == 0.0;
      }
    }
  }

  lemma ClampedIsBest(pairs: seq<Pair>, s: real)
    requires s >= 0.0 && SumSeq(pairs, Products()) <= 0.0
    ensures RatioError(pairs, 0.0) <= RatioError(pairs, s)
  {
    var j := -2.0 * (s - 0.0);
    RatioGap(pairs, 0.0, s, j, 0.0);
    NotPositive(-j, SumSeq(pairs, Products()));
    NegatedProduct(j, SumSeq(pairs, Products()));
  }

  /** No slope of at least 0 has a smaller squared error. */
  lemma JointSlopeIsBest(cells: seq<Cell>, s: real)
    requires WeightsNonZero(cells) && s >= 0.0 && JointSlope(cells).Some?
    ensures JointSlope(cells).value >= 0.0 && SlopeError(cells, JointSlope(cells).value) <= SlopeError(cells, s)
  {
    var (pairs, best) := (Excesses(cells), JointSlope(cells).value);
    SlopeErrorSplits(cells, best, s);
    if best == 0.0 {
      Quotient(SumSeq(pairs, Products()), SumSeq(pairs, Squares()));
      ClampedIsBest(pairs, s);
    } else {
      RatioIsBest(pairs, s, s);
    }
  }
}
