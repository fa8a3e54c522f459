/**
 * The unpruned reference for the search of src/evaluator.rs: plain negamax
 * over the columns that `play` accepts, with the same leaf test as
 * `alpha_beta_pruning` (depth 0, or a static score of +100 or -100). A node
 * with no playable column has value minus infinity, so values range over the
 * integers extended with both infinities.
 */
module Search {
  import opened Rules
  import opened Heuristic

  datatype Value = NegInf | Fin(n: int) | PosInf {
    function Negate(): Value
    {
      match this
      case NegInf => PosInf
      case Fin(n) => Fin(-n)
      case PosInf => NegInf
    }
  }

  predicate AtMost(a: Value, b: Value)
  {
    match (a, b)
    case (NegInf, _) => true
    case (_, PosInf) => true
    case (Fin(x), Fin(y)) => x <= y
    case _ => false
  }

  function Max(a: Value, b: Value): (m: Value)
    ensures AtMost(a, m) && AtMost(b, m) && (m == a || m == b)
  {
    if AtMost(a, b) then b else a
  }

  /** The value clamped to the window [lo, hi]. */
  function Clamp(v: Value, lo: int, hi: int): (r: int)
    requires lo <= hi
    ensures lo <= r <= hi
    ensures v.Fin? && lo <= v.n <= hi ==> r == v.n
    ensures AtMost(v, Fin(lo)) ==> r == lo
    ensures AtMost(Fin(hi), v) ==> r == hi
  {
    match v
    case NegInf => lo
    case PosInf => hi
    case Fin(n) => if n <= lo then lo else if n >= hi then hi else n
  }

  /** `alpha_beta_pruning` stops here without trying any column. */
  predicate IsLeaf(p: Position, depth: int)
  {
    depth == 0 || StaticScore(p) == 100 || StaticScore(p) == -100
  }

  /** The plain negamax value of a position searched to `depth` (which may be negative). */
  function Negamax(p: Position, depth: int): Value
    decreases EmptyCount(p.grid), 1
  {
    if IsLeaf(p, depth) then Fin(StaticScore(p)) else BestOfColumns(p, depth, Width)
  }

  /** The best negated child value over the playable columns < n; minus infinity when there is none. */
  function BestOfColumns(p: Position, depth: int, n: int): Value
    requires 0 <= n <= Width
    decreases EmptyCount(p.grid), 0, n
  {
    if n == 0 then NegInf
    else
      match Drop(p, n - 1)
      case None => BestOfColumns(p, depth, n - 1)
      case Some(q) =>
        DropCounts(p, n - 1);
        Max(BestOfColumns(p, depth, n - 1), Negamax(q, depth - 1).Negate())
  }

  lemma AtMostTransitive(a: Value, b: Value, c: Value)
    requires AtMost(a, b) && AtMost(b, c)
    ensures AtMost(a, c)
  {
  }

  /** Taking more columns into account never lowers the best value. */
  lemma {:induction false} BestOfColumnsGrows(p: Position, depth: int, m: int, n: int)
    requires 0 <= m <= n <= Width
    ensures AtMost(BestOfColumns(p, depth, m), BestOfColumns(p, depth, n))
    decreases n - m
  {
    if m < n {
      BestOfColumnsGrows(p, depth, m, n - 1);
      assert AtMost(BestOfColumns(p, depth, n - 1), BestOfColumns(p, depth, n));
      AtMostTransitive(BestOfColumns(p, depth, m), BestOfColumns(p, depth, n - 1), BestOfColumns(p, depth, n));
    }
  }

  /**
   * The value `alpha_beta_pruning(p, depth, alpha, beta)` returns: the static
   * score at a leaf, the negamax value clamped to [alpha, beta] elsewhere.
   */
  function SearchValue(p: Position, depth: int, alpha: int, beta: int): int
    requires alpha < beta
  {
    if IsLeaf(p, depth) then StaticScore(p) else Clamp(Negamax(p, depth), alpha, beta)
  }

  /**
   * Whatever the node, the value returned and the negamax value agree once
   * both are clamped to the window: the search is exact inside (alpha, beta)
   * and only reports which side of the window the true value lies outside it.
   */
  lemma SearchValueInWindow(p: Position, depth: int, alpha: int, beta: int)
    requires alpha < beta
    ensures Clamp(Fin(SearchValue(p, depth, alpha, beta)), alpha, beta) == Clamp(Negamax(p, depth), alpha, beta)
    ensures !IsLeaf(p, depth) ==> alpha <= SearchValue(p, depth, alpha, beta) <= beta
  {
  }

  /**
   * The state the column loop of `alpha_beta_pruning` keeps: `a` lies in
   * [alpha, beta), the best value over the columns tried so far is at most
   * `a`, and clamping that best value to the window gives `a`.
   */
  predicate Tracks(best: Value, alpha: int, beta: int, a: int)
  {
    alpha <= a < beta && AtMost(best, Fin(a)) && a == Clamp(best, alpha, beta)
  }

  /** Before any column is tried, alpha itself tracks the (empty) best. */
  lemma TracksInitially(p: Position, depth: int, alpha: int, beta: int)
    requires alpha < beta
    ensures Tracks(BestOfColumns(p, depth, 0), alpha, beta, alpha)
  {
  }

  /**
   * One step of the fail-hard column loop. With `a` equal to the running best
   * clamped to [alpha, beta] and that best still below beta, a child whose
   * search result `v` agrees with its negamax value on the window
   * (-beta, -a): either -v >= beta, and then the new best reaches beta, or
   * -v < beta, and then the new best is tracked by max(a, -v).
   */
  lemma FailHardStep(best: Value, child: Value, alpha: int, beta: int, a: int, v: int)
    requires Tracks(best, alpha, beta, a)
    requires Clamp(Fin(v), -beta, -a) == Clamp(child, -beta, -a)
    ensures -v >= beta ==> AtMost(Fin(beta), Max(best, child.Negate()))
    ensures -v < beta ==> Tracks(Max(best, child.Negate()), alpha, beta, if -v > a then -v else a)
  {
  }

  /**
   * Column i is playable and `value` is the negated result of its search one
   * level down with the window (-beta, -a): the loop's state after the column
   * follows, a cutoff when value >= beta and max(a, value) otherwise.
   */
  lemma PlayedColumnStep(p: Position, depth: int, i: int, alpha: int, beta: int, a: int, value: int)
    requires 0 <= i < Width && Drop(p, i).Some?
    requires Tracks(BestOfColumns(p, depth, i), alpha, beta, a)
    requires value == -SearchValue(Drop(p, i).value, depth - 1, -beta, -a)
    ensures value >= beta ==> AtMost(Fin(beta), BestOfColumns(p, depth, i + 1))
    ensures value < beta ==> Tracks(BestOfColumns(p, depth, i + 1), alpha, beta, if value > a then value else a)
  {
    var q := Drop(p, i).value;
    SearchValueInWindow(q, depth - 1, -beta, -a);
    FailHardStep(BestOfColumns(p, depth, i), Negamax(q, depth - 1), alpha, beta, a, -value);
  }

  /** Column i cannot be played: the best value so far does not change. */
  lemma SkippedColumnStep(p: Position, depth: int, i: int)
    requires 0 <= i < Width && Drop(p, i).None?
    ensures BestOfColumns(p, depth, i + 1) == BestOfColumns(p, depth, i)
  {
  }

  /** A cutoff: once the best value reaches beta, the node's clamped value is beta. */
  lemma CutoffValue(p: Position, depth: int, i: int, alpha: int, beta: int)
    requires 0 <= i <= Width && alpha < beta
    requires AtMost(Fin(beta), BestOfColumns(p, depth, i))
    ensures Clamp(BestOfColumns(p, depth, Width), alpha, beta) == beta
  {
    BestOfColumnsGrows(p, depth, i, Width);
  }

  /** Every column tried without a cutoff: the tracked value is the node's clamped value. */
  lemma ExhaustedValue(p: Position, depth: int, alpha: int, beta: int, a: int)
    requires alpha < beta
    requires Tracks(BestOfColumns(p, depth, Width), alpha, beta, a)
    ensures Clamp(BestOfColumns(p, depth, Width), alpha, beta) == a
  {
  }

  /**
   * The value `find_best_move` computes for a playable column: the negated
   * result of the full-window search (-1000, 1000) one level down.
   */
  function RootValue(p: Position, depth: int, col: int): int
    requires Drop(p, col).Some?
  {
    -SearchValue(Drop(p, col).value, depth - 1, -1000, 1000)
  }

  /** The column `find_best_move` returns when it picks none. */
  const NoMove := 8

  /**
   * The state of the loop of `find_best_move` after columns 0 .. n-1: either
   * no column was picked, the best value is still -1000 and no playable column
   * beat it, or `best` is a playable column among them whose root value is the
   * best value, above -1000, at least that of every playable column so far and
   * strictly above that of every playable column before it.
   */
  predicate Choice(p: Position, depth: int, n: int, best: int, bestValue: int)
  {
    if best == NoMove then
      bestValue == -1000
      && forall c :: 0 <= c < n && Drop(p, c).Some? ==> RootValue(p, depth, c) <= -1000
    else
      && 0 <= best < n && Drop(p, best).Some? && bestValue == RootValue(p, depth, best) && bestValue > -1000
      && (forall c :: 0 <= c < n && Drop(p, c).Some? ==> RootValue(p, depth, c) <= bestValue)
      && (forall c :: 0 <= c < best && Drop(p, c).Some? ==> RootValue(p, depth, c) < bestValue)
  }

  /** One column of the loop of `find_best_move`: skipped, kept as the new best, or passed over. */
  lemma ChoiceStep(p: Position, depth: int, n: int, best: int, bestValue: int)
    requires 0 <= n < Width && Choice(p, depth, n, best, bestValue)
    ensures Drop(p, n).None? ==> Choice(p, depth, n + 1, best, bestValue)
    ensures Drop(p, n).Some? && RootValue(p, depth, n) > bestValue ==>
      Choice(p, depth, n + 1, n, RootValue(p, depth, n))
    ensures Drop(p, n).Some? && RootValue(p, depth, n) <= bestValue ==>
      Choice(p, depth, n + 1, best, bestValue)
  {
  }

  /**
   * After the last column: `best` is NoMove exactly when no playable column
   * has a root value above -1000, and otherwise it is the lowest playable
   * column of maximal root value.
   */
  lemma ChoiceComplete(p: Position, depth: int, best: int, bestValue: int)
    requires Choice(p, depth, Width, best, bestValue)
    ensures best == NoMove <==>
      forall c :: 0 <= c < Width && Drop(p, c).Some? ==> RootValue(p, depth, c) <= -1000
    ensures best != NoMove ==>
      && 0 <= best < Width && Drop(p, best).Some?
      && (forall c :: 0 <= c < Width && Drop(p, c).Some? ==> RootValue(p, depth, c) <= RootValue(p, depth, best))
      && (forall c :: 0 <= c < best && Drop(p, c).Some? ==> RootValue(p, depth, c) < RootValue(p, depth, best))
  {
  }

  /** Every root value lies in [-1000, 1000]. */
  lemma RootValueBounds(p: Position, depth: int, col: int)
    requires Drop(p, col).Some?
    ensures -1000 <= RootValue(p, depth, col) <= 1000
  {
  }
}
