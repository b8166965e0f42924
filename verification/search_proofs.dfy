/** What the two evaluators promise: the terminal tests in order, max/min alternation,
    the unbounded search below depth 0, and the alpha-beta theorem relating the pruned value
    to the unpruned one.
 */
module SearchProofs {
  import opened Board
  import opened Heuristic
  import opened Search

  // ---------------------------------------------------------------------------------------
  // Leaves

  /** The three terminal tests, in order, for both evaluators; the counts of 0 and 1 show
      that no child was expanded. */
  lemma TerminalPriority<B(!new)>(rules: Rules<B>, color: int, b: B, last: int, depth: int,
                                  alpha: int, beta: int, mov: int)
    requires Valid(rules)
    ensures rules.wins(b, last, color) ==>
      Minimax(rules, color, b, last, depth, mov) == Eval(Win, 0) &&
      AlphaBeta(rules, color, b, last, depth, alpha, beta, mov) == Eval(Win, 0)
    ensures !rules.wins(b, last, color) && rules.wins(b, last, Opponent(color)) ==>
      Minimax(rules, color, b, last, depth, mov) == Eval(-Win, 0) &&
      AlphaBeta(rules, color, b, last, depth, alpha, beta, mov) == Eval(-Win, 0)
    ensures !rules.wins(b, last, color) && !rules.wins(b, last, Opponent(color)) &&
            (depth == 0 || !rules.canMove(b)) ==>
      Minimax(rules, color, b, last, depth, mov) == Eval(Score(rules, b, color), 1) &&
      AlphaBeta(rules, color, b, last, depth, alpha, beta, mov) == Eval(Score(rules, b, color), 1)
  {
  }

  /** The sentinels dominate: a leaf scored by the heuristic lies strictly between the loss
      and the win sentinel, so a value of `Win` or `-Win` at a leaf always means a line. */
  lemma SentinelsDominate<B>(rules: Rules<B>, color: int, b: B, last: int)
    ensures -Win < Score(rules, b, color) < Win
    ensures LeafEval(rules, color, b, last).value == Win <==> rules.wins(b, last, color)
    ensures LeafEval(rules, color, b, last).value == -Win <==>
              !rules.wins(b, last, color) && rules.wins(b, last, Opponent(color))
  {
  }

  // ---------------------------------------------------------------------------------------
  // Ranges

  /** Every node, whatever the depth, has a value that is a sentinel or a heuristic score,
      never one of the loops' starting values. */
  lemma {:induction false} MinimaxInRange<B(!new)>(rules: Rules<B>, color: int, b: B, last: int, depth: int, mov: int)
    requires Valid(rules)
    ensures InRange(Minimax(rules, color, b, last, depth, mov).value)
    decreases rules.measure(b), 1
  {
    if !IsLeaf(rules, color, b, last, depth) {
      if mov == 1 {
        MaxChildrenBounds(rules, color, b, depth, 0, Eval(IntMin, 0));
      } else {
        MinChildrenBounds(rules, color, b, depth, 0, Eval(IntMax, 0));
      }
    }
  }

  /** The player's loop never lowers the running maximum or the leaf count; it returns its
      accumulator untouched when no column from `i` on is legal, and a node value otherwise. */
  lemma {:induction false} MaxChildrenBounds<B(!new)>(rules: Rules<B>, color: int, b: B, depth: int, i: int, acc: Eval)
    requires Valid(rules) && 0 <= i <= Size
    ensures var e := MaxChildren(rules, color, b, depth, i, acc);
      && e.value >= acc.value && e.leaves >= acc.leaves
      && (!HasMoveIn(rules, b, i, Size) ==> e == acc)
      && (HasMoveIn(rules, b, i, Size) && MaxAccumulator(acc.value) ==> InRange(e.value))
    decreases rules.measure(b), 0, Size - i
  {
    if i < Size {
      if rules.legal(b, i) {
        var child := rules.play(b, i, color);
        var v := Minimax(rules, color, child, i, depth - 1, 0);
        MinimaxInRange(rules, color, child, i, depth - 1, 0);
        MaxChildrenBounds(rules, color, b, depth, i + 1, Eval(Max(acc.value, v.value), acc.leaves + v.leaves));
      } else {
        MaxChildrenBounds(rules, color, b, depth, i + 1, acc);
      }
    }
  }

  /** The opponent's loop, mirror image of `MaxChildrenBounds`. */
  lemma {:induction false} MinChildrenBounds<B(!new)>(rules: Rules<B>, color: int, b: B, depth: int, i: int, acc: Eval)
    requires Valid(rules) && 0 <= i <= Size
    ensures var e := MinChildren(rules, color, b, depth, i, acc);
      && e.value <= acc.value && e.leaves >= acc.leaves
      && (!HasMoveIn(rules, b, i, Size) ==> e == acc)
      && (HasMoveIn(rules, b, i, Size) && MinAccumulator(acc.value) ==> InRange(e.value))
    decreases rules.measure(b), 0, Size - i
  {
    if i < Size {
      if rules.legal(b, i) {
        var child := rules.play(b, i, Opponent(color));
        var v := Minimax(rules, color, child, i, depth - 1, 1);
        MinimaxInRange(rules, color, child, i, depth - 1, 1);
        MinChildrenBounds(rules, color, b, depth, i + 1, Eval(Min(acc.value, v.value), acc.leaves + v.leaves));
      } else {
        MinChildrenBounds(rules, color, b, depth, i + 1, acc);
      }
    }
  }

  /** The pruned search, whatever the window, also yields a sentinel or a heuristic score. */
  lemma {:induction false} AlphaBetaInRange<B(!new)>(rules: Rules<B>, color: int, b: B, last: int, depth: int,
                                                    alpha: int, beta: int, mov: int)
    requires Valid(rules)
    ensures InRange(AlphaBeta(rules, color, b, last, depth, alpha, beta, mov).value)
    decreases rules.measure(b), 1
  {
    if !IsLeaf(rules, color, b, last, depth) {
      if mov == 1 {
        MaxPrunedBounds(rules, color, b, depth, 0, Eval(IntMin, 0), alpha, beta);
      } else {
        MinPrunedBounds(rules, color, b, depth, 0, Eval(IntMax, 0), alpha, beta);
      }
    }
  }

  /** The player's pruned loop, with the same guarantees as `MaxChildrenBounds`. */
  lemma {:induction false} MaxPrunedBounds<B(!new)>(rules: Rules<B>, color: int, b: B, depth: int, i: int, acc: Eval,
                                                   alpha: int, beta: int)
    requires Valid(rules) && 0 <= i <= Size
    ensures var e := MaxPruned(rules, color, b, depth, i, acc, alpha, beta);
      && e.value >= acc.value && e.leaves >= acc.leaves
      && (!HasMoveIn(rules, b, i, Size) ==> e == acc)
      && (HasMoveIn(rules, b, i, Size) && MaxAccumulator(acc.value) ==> InRange(e.value))
    decreases rules.measure(b), 0, Size - i
  {
    if i < Size {
      if rules.legal(b, i) {
        var child := rules.play(b, i, color);
        var r := AlphaBeta(rules, color, child, i, depth - 1, alpha, beta, 0);
        AlphaBetaInRange(rules, color, child, i, depth - 1, alpha, beta, 0);
        var best := Eval(Max(acc.value, r.value), acc.leaves + r.leaves);
        var alpha' := Max(alpha, best.value);
        if alpha' < beta {
          MaxPrunedBounds(rules, color, b, depth, i + 1, best, alpha', beta);
        }
      } else {
        MaxPrunedBounds(rules, color, b, depth, i + 1, acc, alpha, beta);
      }
    }
  }

  /** The opponent's pruned loop, mirror image of `MaxPrunedBounds`. */
  lemma {:induction false} MinPrunedBounds<B(!new)>(rules: Rules<B>, color: int, b: B, depth: int, i: int, acc: Eval,
                                                   alpha: int, beta: int)
    requires Valid(rules) && 0 <= i <= Size
    ensures var e := MinPruned(rules, color, b, depth, i, acc, alpha, beta);
      && e.value <= acc.value && e.leaves >= acc.leaves
      && (!HasMoveIn(rules, b, i, Size) ==> e == acc)
      && (HasMoveIn(rules, b, i, Size) && MinAccumulator(acc.value) ==> InRange(e.value))
    decreases rules.measure(b), 0, Size - i
  {
    if i < Size {
      if rules.legal(b, i) {
        var child := rules.play(b, i, Opponent(color));
        var r := AlphaBeta(rules, color, child, i, depth - 1, alpha, beta, 1);
        AlphaBetaInRange(rules, color, child, i, depth - 1, alpha, beta, 1);
        var worst := Eval(Min(acc.value, r.value), acc.leaves + r.leaves);
        var beta' := Min(beta, worst.value);
        if alpha < beta' {
          MinPrunedBounds(rules, color, b, depth, i + 1, worst, alpha, beta');
        }
      } else {
        MinPrunedBounds(rules, color, b, depth, i + 1, acc, alpha, beta);
      }
    }
  }

  // ---------------------------------------------------------------------------------------
  // Alternation of the unpruned search

  /** The value of the child reached through legal column `c` at a node where `mov` says
      who moves: the mover's piece is dropped and the other side moves next. */
  function ChildValue<B(!new)>(rules: Rules<B>, color: int, b: B, depth: int, c: int, mov: int): int
    requires Valid(rules) && IsColumn(c) && rules.legal(b, c)
  {
    if mov == 1 then Minimax(rules, color, rules.play(b, c, color), c, depth - 1, 0).value
    else Minimax(rules, color, rules.play(b, c, Opponent(color)), c, depth - 1, 1).value
  }

  lemma {:induction false} MaxChildrenIsMaximum<B(!new)>(rules: Rules<B>, color: int, b: B, depth: int, i: int, acc: Eval)
    requires Valid(rules) && 0 <= i <= Size
    ensures var v := MaxChildren(rules, color, b, depth, i, acc).value;
      && (forall c :: i <= c < Size && rules.legal(b, c) ==> ChildValue(rules, color, b, depth, c, 1) <= v)
      && (v == acc.value || exists c :: i <= c < Size && rules.legal(b, c) && v == ChildValue(rules, color, b, depth, c, 1))
    decreases Size - i
  {
    if i < Size {
      if rules.legal(b, i) {
        var child := Minimax(rules, color, rules.play(b, i, color), i, depth - 1, 0);
        MaxChildrenBounds(rules, color, b, depth, i + 1, Eval(Max(acc.value, child.value), acc.leaves + child.leaves));
        MaxChildrenIsMaximum(rules, color, b, depth, i + 1, Eval(Max(acc.value, child.value), acc.leaves + child.leaves));
      } else {
        MaxChildrenIsMaximum(rules, color, b, depth, i + 1, acc);
      }
    }
  }

  lemma {:induction false} MinChildrenIsMinimum<B(!new)>(rules: Rules<B>, color: int, b: B, depth: int, i: int, acc: Eval)
    requires Valid(rules) && 0 <= i <= Size
    ensures var v := MinChildren(rules, color, b, depth, i, acc).value;
      && (forall c :: i <= c < Size && rules.legal(b, c) ==> v <= ChildValue(rules, color, b, depth, c, 0))
      && (v == acc.value || exists c :: i <= c < Size && rules.legal(b, c) && v == ChildValue(rules, color, b, depth, c, 0))
    decreases Size - i
  {
    if i < Size {
      if rules.legal(b, i) {
        var child := Minimax(rules, color, rules.play(b, i, Opponent(color)), i, depth - 1, 1);
        MinChildrenBounds(rules, color, b, depth, i + 1, Eval(Min(acc.value, child.value), acc.leaves + child.leaves));
        MinChildrenIsMinimum(rules, color, b, depth, i + 1, Eval(Min(acc.value, child.value), acc.leaves + child.leaves));
      } else {
        MinChildrenIsMinimum(rules, color, b, depth, i + 1, acc);
      }
    }
  }

  /** At a node that is not a leaf, the player's value is the largest value among the legal
      children (player's piece dropped, opponent to move), and the opponent's value is the
      smallest among the legal children (opponent's piece dropped, player to move). */
  lemma MinimaxAlternation<B(!new)>(rules: Rules<B>, color: int, b: B, last: int, depth: int, mov: int)
    requires Valid(rules) && !IsLeaf(rules, color, b, last, depth)
    ensures var v := Minimax(rules, color, b, last, depth, mov).value;
      && (exists c :: IsColumn(c) && rules.legal(b, c) && v == ChildValue(rules, color, b, depth, c, mov))
      && (mov == 1 ==> forall c :: IsColumn(c) && rules.legal(b, c) ==> ChildValue(rules, color, b, depth, c, mov) <= v)
      && (mov != 1 ==> forall c :: IsColumn(c) && rules.legal(b, c) ==> v <= ChildValue(rules, color, b, depth, c, mov))
  {
    MinimaxInRange(rules, color, b, last, depth, mov);
    if mov == 1 {
      MaxChildrenIsMaximum(rules, color, b, depth, 0, Eval(IntMin, 0));
    } else {
      MinChildrenIsMinimum(rules, color, b, depth, 0, Eval(IntMax, 0));
    }
  }

  // ---------------------------------------------------------------------------------------
  // Depth below zero

  /** A node reached with a negative depth never meets the `depth == 0` test: its value does
      not depend on which negative depth it has, so the search runs on until a line is made
      or the board is full. */
  lemma {:induction false} NegativeDepthUnbounded<B(!new)>(rules: Rules<B>, color: int, b: B, last: int,
                                                          d1: int, d2: int, mov: int)
    requires Valid(rules) && d1 < 0 && d2 < 0
    ensures Minimax(rules, color, b, last, d1, mov) == Minimax(rules, color, b, last, d2, mov)
    decreases rules.measure(b), 1
  {
    if !IsLeaf(rules, color, b, last, d1) {
      if mov == 1 {
        MaxChildrenNegativeDepth(rules, color, b, d1, d2, 0, Eval(IntMin, 0));
      } else {
        MinChildrenNegativeDepth(rules, color, b, d1, d2, 0, Eval(IntMax, 0));
      }
    }
  }

  lemma {:induction false} MaxChildrenNegativeDepth<B(!new)>(rules: Rules<B>, color: int, b: B,
                                                            d1: int, d2: int, i: int, acc: Eval)
    requires Valid(rules) && d1 < 0 && d2 < 0 && 0 <= i <= Size
    ensures MaxChildren(rules, color, b, d1, i, acc) == MaxChildren(rules, color, b, d2, i, acc)
    decreases rules.measure(b), 0, Size - i
  {
    if i < Size {
      if rules.legal(b, i) {
        var child := rules.play(b, i, color);
        NegativeDepthUnbounded(rules, color, child, i, d1 - 1, d2 - 1, 0);
        var e := Minimax(rules, color, child, i, d1 - 1, 0);
        MaxChildrenNegativeDepth(rules, color, b, d1, d2, i + 1, Eval(Max(acc.value, e.value), acc.leaves + e.leaves));
      } else {
        MaxChildrenNegativeDepth(rules, color, b, d1, d2, i + 1, acc);
      }
    }
  }

  lemma {:induction false} MinChildrenNegativeDepth<B(!new)>(rules: Rules<B>, color: int, b: B,
                                                            d1: int, d2: int, i: int, acc: Eval)
    requires Valid(rules) && d1 < 0 && d2 < 0 && 0 <= i <= Size
    ensures MinChildren(rules, color, b, d1, i, acc) == MinChildren(rules, color, b, d2, i, acc)
    decreases rules.measure(b), 0, Size - i
  {
    if i < Size {
      if rules.legal(b, i) {
        var child := rules.play(b, i, Opponent(color));
        NegativeDepthUnbounded(rules, color, child, i, d1 - 1, d2 - 1, 1);
        var e := Minimax(rules, color, child, i, d1 - 1, 1);
        MinChildrenNegativeDepth(rules, color, b, d1, d2, i + 1, Eval(Min(acc.value, e.value), acc.leaves + e.leaves));
      } else {
        MinChildrenNegativeDepth(rules, color, b, d1, d2, i + 1, acc);
      }
    }
  }

  // ---------------------------------------------------------------------------------------
  // Alpha-beta against minimax

  /** `alpha` and `beta` are values of the Java `int` type with `alpha < beta`. */
  predicate IsWindow(alpha: int, beta: int) {
    IntMin <= alpha < beta <= IntMax
  }

  /** The pruned result `r` stands in the right relation to the exact value `v` for the
      window `(alpha, beta)`: exact inside the window, at most alpha when the exact value is
      at most alpha, at least beta when the exact value is at least beta. */
  predicate WindowAgrees(v: int, r: int, alpha: int, beta: int) {
    && (alpha < v < beta ==> r == v)
    && (v <= alpha ==> r <= alpha)
    && (v >= beta ==> r >= beta)
  }

  /** The alpha-beta theorem for `movMinMaxPoda` against `movMinMaxSensePoda`. */
  lemma {:induction false} AlphaBetaCorrect<B(!new)>(rules: Rules<B>, color: int, b: B, last: int, depth: int,
                                                    alpha: int, beta: int, mov: int)
    requires Valid(rules) && IsWindow(alpha, beta)
    ensures WindowAgrees(Minimax(rules, color, b, last, depth, mov).value,
                         AlphaBeta(rules, color, b, last, depth, alpha, beta, mov).value, alpha, beta)
    decreases rules.measure(b), 1, 0, 0
  {
    if !IsLeaf(rules, color, b, last, depth) {
      if mov == 1 {
        MaxPrunedCorrect(rules, color, b, depth, 0, Eval(IntMin, 0), Eval(IntMin, 0), alpha, alpha, beta);
      } else {
        MinPrunedCorrect(rules, color, b, depth, 0, Eval(IntMax, 0), Eval(IntMax, 0), beta, alpha, beta);
      }
    }
  }

  /** The player's loop: `m` is the unpruned running maximum, `acc` the pruned one, `a` the
      current alpha, `(alpha, beta)` the window the node was called with. While no cut-off has
      happened both maxima lie at or below `a`, and once `a` has risen above `alpha` both
      equal it. */
  lemma {:induction false} MaxPrunedCorrect<B(!new)>(rules: Rules<B>, color: int, b: B, depth: int, i: int,
                                                    m: Eval, acc: Eval, a: int, alpha: int, beta: int)
    requires Valid(rules) && 0 <= i <= Size && IsWindow(alpha, beta)
    requires alpha <= a < beta
    requires m.value <= a && acc.value <= a
    requires a > alpha ==> m.value == a && acc.value == a
    ensures WindowAgrees(MaxChildren(rules, color, b, depth, i, m).value,
                         MaxPruned(rules, color, b, depth, i, acc, a, beta).value, alpha, beta)
    decreases rules.measure(b), 0, Size - i, 1
  {
    if i < Size {
      if rules.legal(b, i) {
        MaxPrunedCorrectLegal(rules, color, b, depth, i, m, acc, a, alpha, beta);
      } else {
        MaxPrunedCorrect(rules, color, b, depth, i + 1, m, acc, a, alpha, beta);
      }
    }
  }

  /** `MaxPrunedCorrect` at a legal column: the child is searched, then either the loop is
      cut off, which happens only when the exact value has reached beta, or it goes on with
      the invariant re-established. */
  lemma {:induction false} MaxPrunedCorrectLegal<B(!new)>(rules: Rules<B>, color: int, b: B, depth: int, i: int,
                                                         m: Eval, acc: Eval, a: int, alpha: int, beta: int)
    requires Valid(rules) && 0 <= i < Size && rules.legal(b, i) && IsWindow(alpha, beta)
    requires alpha <= a < beta
    requires m.value <= a && acc.value <= a
    requires a > alpha ==> m.value == a && acc.value == a
    ensures WindowAgrees(MaxChildren(rules, color, b, depth, i, m).value,
                         MaxPruned(rules, color, b, depth, i, acc, a, beta).value, alpha, beta)
    decreases rules.measure(b), 0, Size - i, 0
  {
    var child := rules.play(b, i, color);
    var v := Minimax(rules, color, child, i, depth - 1, 0);
    var r := AlphaBeta(rules, color, child, i, depth - 1, a, beta, 0);
    AlphaBetaCorrect(rules, color, child, i, depth - 1, a, beta, 0);
    var m' := Eval(Max(m.value, v.value), m.leaves + v.leaves);
    var acc' := Eval(Max(acc.value, r.value), acc.leaves + r.leaves);
    var a' := Max(a, acc'.value);
    MaxUnfold(rules, color, b, depth, i, m, acc, a, beta);
    MaxChildrenBounds(rules, color, b, depth, i + 1, m');
    MaxStep(v.value, r.value, m.value, acc.value, a, alpha, beta,
            MaxChildren(rules, color, b, depth, i + 1, m').value);
    if a' < beta {
      MaxPrunedCorrect(rules, color, b, depth, i + 1, m', acc', a', alpha, beta);
    }
  }

  /** The opponent's loop, mirror image of `MaxPrunedCorrect` with `bc` the current beta. */
  lemma {:induction false} MinPrunedCorrect<B(!new)>(rules: Rules<B>, color: int, b: B, depth: int, i: int,
                                                    m: Eval, acc: Eval, bc: int, alpha: int, beta: int)
    requires Valid(rules) && 0 <= i <= Size && IsWindow(alpha, beta)
    requires alpha < bc <= beta
    requires m.value >= bc && acc.value >= bc
    requires bc < beta ==> m.value == bc && acc.value == bc
    ensures WindowAgrees(MinChildren(rules, color, b, depth, i, m).value,
                         MinPruned(rules, color, b, depth, i, acc, alpha, bc).value, alpha, beta)
    decreases rules.measure(b), 0, Size - i, 1
  {
    if i < Size {
      if rules.legal(b, i) {
        MinPrunedCorrectLegal(rules, color, b, depth, i, m, acc, bc, alpha, beta);
      } else {
        MinPrunedCorrect(rules, color, b, depth, i + 1, m, acc, bc, alpha, beta);
      }
    }
  }

  /** `MinPrunedCorrect` at a legal column, mirror image of `MaxPrunedCorrectLegal`. */
  lemma {:induction false} MinPrunedCorrectLegal<B(!new)>(rules: Rules<B>, color: int, b: B, depth: int, i: int,
                                                         m: Eval, acc: Eval, bc: int, alpha: int, beta: int)
    requires Valid(rules) && 0 <= i < Size && rules.legal(b, i) && IsWindow(alpha, beta)
    requires alpha < bc <= beta
    requires m.value >= bc && acc.value >= bc
    requires bc < beta ==> m.value == bc && acc.value == bc
    ensures WindowAgrees(MinChildren(rules, color, b, depth, i, m).value,
                         MinPruned(rules, color, b, depth, i, acc, alpha, bc).value, alpha, beta)
    decreases rules.measure(b), 0, Size - i, 0
  {
    var child := rules.play(b, i, Opponent(color));
    var v := Minimax(rules, color, child, i, depth - 1, 1);
    var r := AlphaBeta(rules, color, child, i, depth - 1, alpha, bc, 1);
    AlphaBetaCorrect(rules, color, child, i, depth - 1, alpha, bc, 1);
    var m' := Eval(Min(m.value, v.value), m.leaves + v.leaves);
    var acc' := Eval(Min(acc.value, r.value), acc.leaves + r.leaves);
    var bc' := Min(bc, acc'.value);
    MinUnfold(rules, color, b, depth, i, m, acc, alpha, bc);
    MinChildrenBounds(rules, color, b, depth, i + 1, m');
    MinStep(v.value, r.value, m.value, acc.value, bc, alpha, beta,
            MinChildren(rules, color, b, depth, i + 1, m').value);
    if alpha < bc' {
      MinPrunedCorrect(rules, color, b, depth, i + 1, m', acc', bc', alpha, beta);
    }
  }

  /** One turn of the player's two loops at a legal column `i`, unpruned and pruned. */
  lemma MaxUnfold<B(!new)>(rules: Rules<B>, color: int, b: B, depth: int, i: int,
                           m: Eval, acc: Eval, a: int, beta: int)
    requires Valid(rules) && 0 <= i < Size && rules.legal(b, i)
    ensures var child := rules.play(b, i, color);
      var v := Minimax(rules, color, child, i, depth - 1, 0);
      var r := AlphaBeta(rules, color, child, i, depth - 1, a, beta, 0);
      var m' := Eval(Max(m.value, v.value), m.leaves + v.leaves);
      var acc' := Eval(Max(acc.value, r.value), acc.leaves + r.leaves);
      var a' := Max(a, acc'.value);
      && MaxChildren(rules, color, b, depth, i, m) == MaxChildren(rules, color, b, depth, i + 1, m')
      && MaxPruned(rules, color, b, depth, i, acc, a, beta) ==
           (if a' >= beta then acc' else MaxPruned(rules, color, b, depth, i + 1, acc', a', beta))
  {
  }

  /** One turn of the opponent's two loops at a legal column `i`, unpruned and pruned. */
  lemma MinUnfold<B(!new)>(rules: Rules<B>, color: int, b: B, depth: int, i: int,
                           m: Eval, acc: Eval, alpha: int, bc: int)
    requires Valid(rules) && 0 <= i < Size && rules.legal(b, i)
    ensures var child := rules.play(b, i, Opponent(color));
      var v := Minimax(rules, color, child, i, depth - 1, 1);
      var r := AlphaBeta(rules, color, child, i, depth - 1, alpha, bc, 1);
      var m' := Eval(Min(m.value, v.value), m.leaves + v.leaves);
      var acc' := Eval(Min(acc.value, r.value), acc.leaves + r.leaves);
      var bc' := Min(bc, acc'.value);
      && MinChildren(rules, color, b, depth, i, m) == MinChildren(rules, color, b, depth, i + 1, m')
      && MinPruned(rules, color, b, depth, i, acc, alpha, bc) ==
           (if alpha >= bc' then acc' else MinPruned(rules, color, b, depth, i + 1, acc', alpha, bc'))
  {
  }

  /** One step of the player's pruned loop, on values alone: `v` is the child's exact value
      and `r` its pruned value searched with the window `(a, beta)`, `rest` the exact value
      of the whole loop. A cut-off happens only when the exact value has reached beta, and
      then the loop's pruned result is correct; otherwise the loop invariant carries over. */
  lemma MaxStep(v: int, r: int, m: int, acc: int, a: int, alpha: int, beta: int, rest: int)
    requires WindowAgrees(v, r, a, beta)
    requires alpha <= a < beta && m <= a && acc <= a
    requires a > alpha ==> m == a && acc == a
    requires rest >= Max(m, v)
    ensures var a' := Max(a, Max(acc, r));
      && (a' >= beta ==> WindowAgrees(rest, Max(acc, r), alpha, beta))
      && (a' < beta ==>
            Max(m, v) <= a' && Max(acc, r) <= a' && (a' > alpha ==> Max(m, v) == a' && Max(acc, r) == a'))
  {
  }

  /** One step of the opponent's pruned loop, mirror image of `MaxStep`. */
  lemma MinStep(v: int, r: int, m: int, acc: int, bc: int, alpha: int, beta: int, rest: int)
    requires WindowAgrees(v, r, alpha, bc)
    requires alpha < bc <= beta && m >= bc && acc >= bc
    requires bc < beta ==> m == bc && acc == bc
    requires rest <= Min(m, v)
    ensures var bc' := Min(bc, Min(acc, r));
      && (alpha >= bc' ==> WindowAgrees(rest, Min(acc, r), alpha, beta))
      && (alpha < bc' ==>
            Min(m, v) >= bc' && Min(acc, r) >= bc' && (bc' < beta ==> Min(m, v) == bc' && Min(acc, r) == bc'))
  {
  }

  /** With the full window the root uses, pruning returns exactly the unpruned value. */
  lemma FullWindowExact<B(!new)>(rules: Rules<B>, color: int, b: B, last: int, depth: int, mov: int)
    requires Valid(rules)
    ensures AlphaBeta(rules, color, b, last, depth, IntMin, IntMax, mov).value ==
            Minimax(rules, color, b, last, depth, mov).value
  {
    AlphaBetaCorrect(rules, color, b, last, depth, IntMin, IntMax, mov);
    MinimaxInRange(rules, color, b, last, depth, mov);
  }

  // ---------------------------------------------------------------------------------------
  // Pruning and the node counter

  /** Whatever the window, the pruned search scores no more leaves than the unpruned one:
      it visits a prefix of the same children and prunes inside them. */
  lemma {:induction false} PrunedLeavesAtMost<B(!new)>(rules: Rules<B>, color: int, b: B, last: int, depth: int,
                                                      alpha: int, beta: int, mov: int)
    requires Valid(rules)
    ensures AlphaBeta(rules, color, b, last, depth, alpha, beta, mov).leaves <=
            Minimax(rules, color, b, last, depth, mov).leaves
    decreases rules.measure(b), 1
  {
    if !IsLeaf(rules, color, b, last, depth) {
      if mov == 1 {
        MaxPrunedLeaves(rules, color, b, depth, 0, Eval(IntMin, 0), Eval(IntMin, 0), alpha, beta);
      } else {
        MinPrunedLeaves(rules, color, b, depth, 0, Eval(IntMax, 0), Eval(IntMax, 0), alpha, beta);
      }
    }
  }

  lemma {:induction false} MaxPrunedLeaves<B(!new)>(rules: Rules<B>, color: int, b: B, depth: int, i: int,
                                                   m: Eval, acc: Eval, alpha: int, beta: int)
    requires Valid(rules) && 0 <= i <= Size
    requires acc.leaves <= m.leaves
    ensures MaxPruned(rules, color, b, depth, i, acc, alpha, beta).leaves <=
            MaxChildren(rules, color, b, depth, i, m).leaves
    decreases rules.measure(b), 0, Size - i
  {
    if i < Size {
      if rules.legal(b, i) {
        var child := rules.play(b, i, color);
        var v := Minimax(rules, color, child, i, depth - 1, 0);
        var r := AlphaBeta(rules, color, child, i, depth - 1, alpha, beta, 0);
        PrunedLeavesAtMost(rules, color, child, i, depth - 1, alpha, beta, 0);
        var m' := Eval(Max(m.value, v.value), m.leaves + v.leaves);
        var acc' := Eval(Max(acc.value, r.value), acc.leaves + r.leaves);
        var alpha' := Max(alpha, acc'.value);
        assert MaxChildren(rules, color, b, depth, i, m) == MaxChildren(rules, color, b, depth, i + 1, m');
        MaxChildrenBounds(rules, color, b, depth, i + 1, m');
        if alpha' < beta {
          assert MaxPruned(rules, color, b, depth, i, acc, alpha, beta) == MaxPruned(rules, color, b, depth, i + 1, acc', alpha', beta);
          MaxPrunedLeaves(rules, color, b, depth, i + 1, m', acc', alpha', beta);
        }
      } else {
        MaxPrunedLeaves(rules, color, b, depth, i + 1, m, acc, alpha, beta);
      }
    }
  }

  lemma {:induction false} MinPrunedLeaves<B(!new)>(rules: Rules<B>, color: int, b: B, depth: int, i: int,
                                                   m: Eval, acc: Eval, alpha: int, beta: int)
    requires Valid(rules) && 0 <= i <= Size
    requires acc.leaves <= m.leaves
    ensures MinPruned(rules, color, b, depth, i, acc, alpha, beta).leaves <=
            MinChildren(rules, color, b, depth, i, m).leaves
    decreases rules.measure(b), 0, Size - i
  {
    if i < Size {
      if rules.legal(b, i) {
        var child := rules.play(b, i, Opponent(color));
        var v := Minimax(rules, color, child, i, depth - 1, 1);
        var r := AlphaBeta(rules, color, child, i, depth - 1, alpha, beta, 1);
        PrunedLeavesAtMost(rules, color, child, i, depth - 1, alpha, beta, 1);
        var m' := Eval(Min(m.value, v.value), m.leaves + v.leaves);
        var acc' := Eval(Min(acc.value, r.value), acc.leaves + r.leaves);
        var beta' := Min(beta, acc'.value);
        assert MinChildren(rules, color, b, depth, i, m) == MinChildren(rules, color, b, depth, i + 1, m');
        MinChildrenBounds(rules, color, b, depth, i + 1, m');
        if alpha < beta' {
          assert MinPruned(rules, color, b, depth, i, acc, alpha, beta) == MinPruned(rules, color, b, depth, i + 1, acc', alpha, beta');
          MinPrunedLeaves(rules, color, b, depth, i + 1, m', acc', alpha, beta');
        }
      } else {
        MinPrunedLeaves(rules, color, b, depth, i + 1, m, acc, alpha, beta);
      }
    }
  }
}
