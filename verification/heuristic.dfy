/** The positional evaluation `heuristica`: every cell of the player's colour adds that
    cell's weight, every cell of the opposite colour subtracts it, empty cells add nothing.
 */
module Heuristic {
  import opened Board

  /** A row of the weight table: eight non-negative weights. */
  type WeightRow = r: seq<nat> | |r| == Size witness [0, 0, 0, 0, 0, 0, 0, 0]

  /** The fixed weight table `taulaHeuristica`, heavier towards the centre. */
  const Weights: seq<WeightRow> := [
    [3, 4,  5,  7,  7,  5, 4, 3],
    [4, 6,  8, 10, 10,  8, 6, 4],
    [5, 8, 11, 13, 13, 11, 8, 5],
    [7, 10, 13, 16, 16, 13, 10, 7],
    [7, 10, 13, 16, 16, 13, 10, 7],
    [5, 8, 11, 13, 13, 11, 8, 5],
    [4, 6,  8, 10, 10,  8, 6, 4],
    [3, 4,  5,  7,  7,  5, 4, 3]
  ]

  /** The sum of all 64 weights. */
  const WeightTotal: int := 520

  /** What one cell holding `v` contributes from the point of view of `color`: its weight
      `w` with a sign, or nothing when `v` is neither `color` nor its opponent. */
  function CellScore(v: int, color: int, w: int): (s: int)
    ensures w >= 0 ==> -w <= s <= w
    ensures s != 0 ==> v == color || v == Opponent(color)
    ensures w > 0 && color != 0 ==> (s > 0 <==> v == color) && (s < 0 <==> v == Opponent(color))
  {
    if v == color then w
    else if v == Opponent(color) then -w
    else 0
  }

  /** Contribution of the first `n` cells of row `i`. */
  function RowScore<B>(rules: Rules<B>, b: B, color: int, i: int, n: int): int
    requires IsRow(i) && 0 <= n <= Size
  {
    if n == 0 then 0
    else RowScore(rules, b, color, i, n - 1) + CellScore(rules.cell(b, i, n - 1), color, Weights[i][n - 1])
  }

  /** Contribution of the first `n` rows. */
  function BoardScore<B>(rules: Rules<B>, b: B, color: int, n: int): int
    requires 0 <= n <= Size
  {
    if n == 0 then 0
    else BoardScore(rules, b, color, n - 1) + RowScore(rules, b, color, n - 1, Size)
  }

  /** Sum of the first `n` weights of row `i`. */
  function RowWeight(i: int, n: int): int
    requires IsRow(i) && 0 <= n <= Size
  {
    if n == 0 then 0 else RowWeight(i, n - 1) + Weights[i][n - 1]
  }

  /** Sum of the weights of the first `n` rows. */
  function TableWeight(n: int): int
    requires 0 <= n <= Size
  {
    if n == 0 then 0 else TableWeight(n - 1) + RowWeight(n - 1, Size)
  }

  /** The score of board `b` from the point of view of `color`, bounded by the table's total
      weight whatever the board holds. */
  function Score<B>(rules: Rules<B>, b: B, color: int): (h: int)
    ensures -WeightTotal <= h <= WeightTotal
  {
    ScoreBounded(rules, b, color, Size);
    TableWeightTotal();
    BoardScore(rules, b, color, Size)
  }

  /** The weights add up to 520. */
  lemma TableWeightTotal()
    ensures TableWeight(Size) == WeightTotal
  {
    assert RowWeight(0, Size) == 38;
    assert RowWeight(1, Size) == 56;
    assert RowWeight(2, Size) == 74;
    assert RowWeight(3, Size) == 92;
    assert RowWeight(4, Size) == 92;
    assert RowWeight(5, Size) == 74;
    assert RowWeight(6, Size) == 56;
    assert RowWeight(7, Size) == 38;
  }

  lemma {:induction false} RowScoreBounded<B>(rules: Rules<B>, b: B, color: int, i: int, n: int)
    requires IsRow(i) && 0 <= n <= Size
    ensures -RowWeight(i, n) <= RowScore(rules, b, color, i, n) <= RowWeight(i, n)
  {
    if n > 0 {
      RowScoreBounded(rules, b, color, i, n - 1);
    }
  }

  /** Each cell moves the score by at most its weight, so the first `n` rows score within
      the sum of their weights. */
  lemma {:induction false} ScoreBounded<B>(rules: Rules<B>, b: B, color: int, n: int)
    requires 0 <= n <= Size
    ensures -TableWeight(n) <= BoardScore(rules, b, color, n) <= TableWeight(n)
  {
    if n > 0 {
      ScoreBounded(rules, b, color, n - 1);
      RowScoreBounded(rules, b, color, n - 1, Size);
    }
  }

  lemma {:induction false} RowScoreAntisymmetric<B>(rules: Rules<B>, b: B, color: int, i: int, n: int)
    requires color != 0 && IsRow(i) && 0 <= n <= Size
    ensures RowScore(rules, b, Opponent(color), i, n) == -RowScore(rules, b, color, i, n)
  {
    if n > 0 {
      RowScoreAntisymmetric(rules, b, color, i, n - 1);
    }
  }

  /** Scoring from the opponent's side negates the score. */
  lemma {:induction false} ScoreAntisymmetric<B>(rules: Rules<B>, b: B, color: int)
    requires color != 0
    ensures Score(rules, b, Opponent(color)) == -Score(rules, b, color)
  {
    BoardScoreAntisymmetric(rules, b, color, Size);
  }

  lemma {:induction false} BoardScoreAntisymmetric<B>(rules: Rules<B>, b: B, color: int, n: int)
    requires color != 0 && 0 <= n <= Size
    ensures BoardScore(rules, b, Opponent(color), n) == -BoardScore(rules, b, color, n)
  {
    if n > 0 {
      BoardScoreAntisymmetric(rules, b, color, n - 1);
      RowScoreAntisymmetric(rules, b, color, n - 1, Size);
    }
  }

  /** No cell of `b` holds a piece. */
  ghost predicate IsEmpty<B>(rules: Rules<B>, b: B) {
    forall i, j :: IsRow(i) && IsColumn(j) ==> rules.cell(b, i, j) == 0
  }

  /** A board without pieces scores 0 for either colour. */
  lemma {:induction false} EmptyScoresZero<B>(rules: Rules<B>, b: B, color: int)
    requires color != 0 && IsEmpty(rules, b)
    ensures Score(rules, b, color) == 0
  {
    EmptyBoardScoreZero(rules, b, color, Size);
  }

  lemma {:induction false} EmptyBoardScoreZero<B>(rules: Rules<B>, b: B, color: int, n: int)
    requires color != 0 && IsEmpty(rules, b) && 0 <= n <= Size
    ensures BoardScore(rules, b, color, n) == 0
  {
    if n > 0 {
      EmptyBoardScoreZero(rules, b, color, n - 1);
      EmptyRowScoreZero(rules, b, color, n - 1, Size);
    }
  }

  lemma {:induction false} EmptyRowScoreZero<B>(rules: Rules<B>, b: B, color: int, i: int, n: int)
    requires color != 0 && IsEmpty(rules, b) && IsRow(i) && 0 <= n <= Size
    ensures RowScore(rules, b, color, i, n) == 0
  {
    if n > 0 {
      EmptyRowScoreZero(rules, b, color, i, n - 1);
    }
  }

  /** With colour 0, which the player is never given, the empty cells themselves are
      counted as the player's and an empty board scores the full table weight. */
  lemma {:induction false} ColorZeroCountsEmptyCells<B>(rules: Rules<B>, b: B)
    requires IsEmpty(rules, b)
    ensures Score(rules, b, 0) == WeightTotal
  {
    EmptyBoardScoreColorZero(rules, b, Size);
    TableWeightTotal();
  }

  lemma {:induction false} EmptyBoardScoreColorZero<B>(rules: Rules<B>, b: B, n: int)
    requires IsEmpty(rules, b) && 0 <= n <= Size
    ensures BoardScore(rules, b, 0, n) == TableWeight(n)
  {
    if n > 0 {
      EmptyBoardScoreColorZero(rules, b, n - 1);
      EmptyRowScoreColorZero(rules, b, n - 1, Size);
    }
  }

  lemma {:induction false} EmptyRowScoreColorZero<B>(rules: Rules<B>, b: B, i: int, n: int)
    requires IsEmpty(rules, b) && IsRow(i) && 0 <= n <= Size
    ensures RowScore(rules, b, 0, i, n) == RowWeight(i, n)
  {
    if n > 0 {
      EmptyRowScoreColorZero(rules, b, i, n - 1);
    }
  }

  /** `heuristica`: the two nested loops over rows and columns, accumulating the same score. */
  method Evaluate<B>(rules: Rules<B>, b: B, color: int) returns (h: int)
    ensures h == Score(rules, b, color)
    ensures -WeightTotal <= h <= WeightTotal
  {
    h := 0;
    for i := 0 to Size
      invariant h == BoardScore(rules, b, color, i)
    {
      for j := 0 to Size
        invariant h == BoardScore(rules, b, color, i) + RowScore(rules, b, color, i, j)
      {
        var v := rules.cell(b, i, j);
        if v == color {
          h := h + Weights[i][j];
        } else if v == Opponent(color) {
          h := h - Weights[i][j];
        }
      }
    }
  }
}
