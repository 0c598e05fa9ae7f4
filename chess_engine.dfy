/** The move search engine: the `ChessAI` class, which evaluates a board by
    material, searches it with depth-limited minimax and alpha-beta pruning,
    and picks a move at the root. It works on one shared `Board`, pushing a
    move before searching a child and popping it straight after. */
module ChessEngine {
  import opened ExtInt
  import opened ChessRules
  import opened Evaluation
  import MinimaxSpec

  class ChessAI {
    /** The search depth in plies, fixed when the engine is created. */
    const depth: int

    constructor (depth: int)
      ensures this.depth == depth
    {
      this.depth := depth;
    }

    /** `evaluate_board`: walk the piece table, adding the white count and
        subtracting the black count of each kind, times its value. */
    method EvaluateBoard(board: Board) returns (evaluation: int)
      ensures evaluation == Material(board.rules, board.position)
    {
      evaluation := 0;
      for i := 0 to |PieceValues|
        invariant evaluation == MaterialOver(board.rules, board.position, PieceValues[..i])
      {
        var piece := PieceValues[i].0;
        var value := PieceValues[i].1;
        assert PieceValues[..i + 1][..i] == PieceValues[..i];
        evaluation := evaluation + board.rules.pieces(board.position, White, piece) * value;
        evaluation := evaluation - board.rules.pieces(board.position, Black, piece) * value;
      }
      assert PieceValues[..|PieceValues|] == PieceValues;
    }

    /** `minimax`: alpha-beta search of the board's position. The board is
        left exactly as it was found. A finished game or an exhausted depth
        is scored by the static evaluation itself. Otherwise the result
        agrees with the unpruned minimax value on everything the window
        (alpha, beta) can tell apart: it is that value when the value lies
        strictly inside the window, at most alpha when the value is, and at
        least beta when the value is. */
    method Minimax(board: Board, depth: nat, alpha: ExtInt, beta: ExtInt, isMaximizing: bool)
      returns (v: ExtInt)
      requires board.Valid() && Lt(alpha, beta)
      modifies board
      decreases depth, 1
      ensures board.Valid()
      ensures board.position == old(board.position)
      ensures board.moveStack == old(board.moveStack) && board.states == old(board.states)
      ensures depth == 0 || board.rules.isGameOver(board.position) ==>
        v == Fin(Material(board.rules, board.position))
      ensures Clamp(alpha, beta, v) ==
        Clamp(alpha, beta, MinimaxSpec.Minimax(board.rules, board.position, depth, isMaximizing))
      ensures var exact := MinimaxSpec.Minimax(board.rules, board.position, depth, isMaximizing);
        (Lt(alpha, exact) && Lt(exact, beta) ==> v == exact) &&
        (Le(exact, alpha) ==> Le(v, alpha)) &&
        (Le(beta, exact) ==> Le(beta, v)) &&
        (alpha == NegInf && beta == PosInf ==> v == exact)
    {
      if depth == 0 || board.rules.isGameOver(board.position) {
        var e := EvaluateBoard(board);
        v := Fin(e);
      } else {
        var legalMoves := board.rules.legalMoves(board.position);
        if isMaximizing {
          ghost var visited, evals;
          v, visited, evals := MaximizeOver(board, legalMoves, depth - 1, alpha, beta);
        } else {
          ghost var visited, evals;
          v, visited, evals := MinimizeOver(board, legalMoves, depth - 1, alpha, beta);
        }
      }
      ClampAgreement(alpha, beta, v, MinimaxSpec.Minimax(board.rules, board.position, depth, isMaximizing));
      ClampFullWindow(v);
      ClampFullWindow(MinimaxSpec.Minimax(board.rules, board.position, depth, isMaximizing));
    }

    /** The maximising branch of `minimax`: search the children reached by
        `legalMoves` in order, raising alpha as it goes, and stop after the
        first child that brings alpha up to beta. The ghost results record
        how many children were searched and the values they returned; each
        of those values is correct for the window in force when its child
        was searched (MinimaxSpec.MaxChildrenAgree, read child by child
        through MinimaxSpec.MaxChildrenAgreeEach). */
    method MaximizeOver(board: Board, legalMoves: seq<Move>, depth: nat, alpha: ExtInt, beta: ExtInt)
      returns (maxEval: ExtInt, ghost visited: nat, ghost evals: seq<ExtInt>)
      requires board.Valid() && Lt(alpha, beta)
      modifies board
      decreases depth, 4
      ensures board.Valid()
      ensures board.position == old(board.position)
      ensures board.moveStack == old(board.moveStack) && board.states == old(board.states)
      ensures Clamp(alpha, beta, maxEval) ==
        Clamp(alpha, beta, MinimaxSpec.MaxOf(board.rules, board.position, legalMoves, depth))
      ensures visited == |evals| <= |legalMoves| && (|legalMoves| > 0 ==> visited >= 1)
      ensures maxEval == MaxSeq(evals)
      ensures Clamp(alpha, beta, maxEval) ==
        Clamp(alpha, beta, MinimaxSpec.MaxOf(board.rules, board.position, legalMoves[..visited], depth))
      ensures MinimaxSpec.MaxChildrenAgree(board.rules, board.position, legalMoves, depth, alpha, beta, evals)
      ensures visited < |legalMoves| ==> Le(beta, Max(alpha, maxEval))
    {
      ghost var p := board.position;
      ghost var rules := board.rules;
      assert legalMoves[..|legalMoves|] == legalMoves;
      maxEval := NegInf;
      visited, evals := 0, [];
      var a := alpha;
      for i := 0 to |legalMoves|
        invariant board.Valid() && board.position == p
        invariant board.moveStack == old(board.moveStack) && board.states == old(board.states)
        invariant a == Max(alpha, maxEval) && Lt(a, beta)
        invariant Clamp(alpha, beta, maxEval) ==
          Clamp(alpha, beta, MinimaxSpec.MaxOf(rules, p, legalMoves[..i], depth))
        invariant visited == |evals| == i && maxEval == MaxSeq(evals)
        invariant MinimaxSpec.MaxChildrenAgree(rules, p, legalMoves, depth, alpha, beta, evals)
      {
        maxEval, a, evals := MaxTurn(board, legalMoves, depth, alpha, beta, i, maxEval, a, evals);
        visited := visited + 1;
        if Le(beta, a) {
          MinimaxSpec.MaxNodeCutoff(rules, p, legalMoves, depth, i + 1, alpha, beta, maxEval);
          break;
        }
      }
    }

    /** The minimising branch of `minimax`: search the children reached by
        `legalMoves` in order, lowering beta as it goes, and stop after the
        first child that brings beta down to alpha. The ghost results are
        recorded as in MaximizeOver (MinimaxSpec.MinChildrenAgree). */
    method MinimizeOver(board: Board, legalMoves: seq<Move>, depth: nat, alpha: ExtInt, beta: ExtInt)
      returns (minEval: ExtInt, ghost visited: nat, ghost evals: seq<ExtInt>)
      requires board.Valid() && Lt(alpha, beta)
      modifies board
      decreases depth, 4
      ensures board.Valid()
      ensures board.position == old(board.position)
      ensures board.moveStack == old(board.moveStack) && board.states == old(board.states)
      ensures Clamp(alpha, beta, minEval) ==
        Clamp(alpha, beta, MinimaxSpec.MinOf(board.rules, board.position, legalMoves, depth))
      ensures visited == |evals| <= |legalMoves| && (|legalMoves| > 0 ==> visited >= 1)
      ensures minEval == MinSeq(evals)
      ensures Clamp(alpha, beta, minEval) ==
        Clamp(alpha, beta, MinimaxSpec.MinOf(board.rules, board.position, legalMoves[..visited], depth))
      ensures MinimaxSpec.MinChildrenAgree(board.rules, board.position, legalMoves, depth, alpha, beta, evals)
      ensures visited < |legalMoves| ==> Le(Min(beta, minEval), alpha)
    {
      ghost var p := board.position;
      ghost var rules := board.rules;
      assert legalMoves[..|legalMoves|] == legalMoves;
      minEval := PosInf;
      visited, evals := 0, [];
      var b := beta;
      for i := 0 to |legalMoves|
        invariant board.Valid() && board.position == p
        invariant board.moveStack == old(board.moveStack) && board.states == old(board.states)
        invariant b == Min(beta, minEval) && Lt(alpha, b)
        invariant Clamp(alpha, beta, minEval) ==
          Clamp(alpha, beta, MinimaxSpec.MinOf(rules, p, legalMoves[..i], depth))
        invariant visited == |evals| == i && minEval == MinSeq(evals)
        invariant MinimaxSpec.MinChildrenAgree(rules, p, legalMoves, depth, alpha, beta, evals)
      {
        minEval, b, evals := MinTurn(board, legalMoves, depth, alpha, beta, i, minEval, b, evals);
        visited := visited + 1;
        if Le(b, alpha) {
          MinimaxSpec.MinNodeCutoff(rules, p, legalMoves, depth, i + 1, alpha, beta, minEval);
          break;
        }
      }
    }

    /** One turn of the maximising loop over child `i`: search it with the
        window (a, beta), then raise the running maximum and alpha by its
        value. Before the turn `prior` records the values the earlier
        children returned; after it the record has grown by this child's
        value and the loop's invariants hold one child further on. */
    method MaxTurn(board: Board, legalMoves: seq<Move>, depth: nat, alpha: ExtInt, beta: ExtInt,
                   i: nat, maxEval: ExtInt, a: ExtInt, ghost prior: seq<ExtInt>)
      returns (maxEval': ExtInt, a': ExtInt, ghost evals: seq<ExtInt>)
      requires board.Valid() && Lt(alpha, beta) && i == |prior| < |legalMoves|
      requires maxEval == MaxSeq(prior) && a == Max(alpha, maxEval) && Lt(a, beta)
      requires Clamp(alpha, beta, maxEval) ==
        Clamp(alpha, beta, MinimaxSpec.MaxOf(board.rules, board.position, legalMoves[..i], depth))
      requires MinimaxSpec.MaxChildrenAgree(board.rules, board.position, legalMoves, depth, alpha, beta, prior)
      modifies board
      decreases depth, 3
      ensures board.Valid()
      ensures board.position == old(board.position)
      ensures board.moveStack == old(board.moveStack) && board.states == old(board.states)
      ensures |evals| == i + 1 && evals[..i] == prior
      ensures maxEval' == Max(maxEval, evals[i]) == MaxSeq(evals)
      ensures a' == Max(a, evals[i]) == Max(alpha, maxEval')
      ensures Clamp(alpha, beta, maxEval') ==
        Clamp(alpha, beta, MinimaxSpec.MaxOf(board.rules, board.position, legalMoves[..i + 1], depth))
      ensures MinimaxSpec.MaxChildrenAgree(board.rules, board.position, legalMoves, depth, alpha, beta, evals)
    {
      var e := Explore(board, legalMoves[i], depth, a, beta, false);
      MinimaxSpec.MaxLoopStep(board.rules, board.position, legalMoves, depth, alpha, beta, prior, maxEval, a, e);
      maxEval', a', evals := Max(maxEval, e), Max(a, e), prior + [e];
      assert evals[..i] == prior;
    }

    /** One turn of the minimising loop over child `i`, the mirror of
        MaxTurn: search it with the window (alpha, b), then lower the
        running minimum and beta by its value. */
    method MinTurn(board: Board, legalMoves: seq<Move>, depth: nat, alpha: ExtInt, beta: ExtInt,
                   i: nat, minEval: ExtInt, b: ExtInt, ghost prior: seq<ExtInt>)
      returns (minEval': ExtInt, b': ExtInt, ghost evals: seq<ExtInt>)
      requires board.Valid() && Lt(alpha, beta) && i == |prior| < |legalMoves|
      requires minEval == MinSeq(prior) && b == Min(beta, minEval) && Lt(alpha, b)
      requires Clamp(alpha, beta, minEval) ==
        Clamp(alpha, beta, MinimaxSpec.MinOf(board.rules, board.position, legalMoves[..i], depth))
      requires MinimaxSpec.MinChildrenAgree(board.rules, board.position, legalMoves, depth, alpha, beta, prior)
      modifies board
      decreases depth, 3
      ensures board.Valid()
      ensures board.position == old(board.position)
      ensures board.moveStack == old(board.moveStack) && board.states == old(board.states)
      ensures |evals| == i + 1 && evals[..i] == prior
      ensures minEval' == Min(minEval, evals[i]) == MinSeq(evals)
      ensures b' == Min(b, evals[i]) == Min(beta, minEval')
      ensures Clamp(alpha, beta, minEval') ==
        Clamp(alpha, beta, MinimaxSpec.MinOf(board.rules, board.position, legalMoves[..i + 1], depth))
      ensures MinimaxSpec.MinChildrenAgree(board.rules, board.position, legalMoves, depth, alpha, beta, evals)
    {
      var e := Explore(board, legalMoves[i], depth, alpha, b, true);
      MinimaxSpec.MinLoopStep(board.rules, board.position, legalMoves, depth, alpha, beta, prior, minEval, b, e);
      minEval', b', evals := Min(minEval, e), Min(b, e), prior + [e];
      assert evals[..i] == prior;
    }

    /** The step both search loops and the root loop take for each move:
        push it, search the resulting position, pop it again. */
    method Explore(board: Board, m: Move, depth: nat, alpha: ExtInt, beta: ExtInt, isMaximizing: bool)
      returns (v: ExtInt)
      requires board.Valid() && Lt(alpha, beta)
      modifies board
      decreases depth, 2
      ensures board.Valid()
      ensures board.position == old(board.position)
      ensures board.moveStack == old(board.moveStack) && board.states == old(board.states)
      ensures Clamp(alpha, beta, v) ==
        Clamp(alpha, beta, MinimaxSpec.Minimax(board.rules, board.rules.apply(board.position, m), depth, isMaximizing))
    {
      board.Push(m);
      v := Minimax(board, depth, alpha, beta, isMaximizing);
      var _ := board.Pop();
    }

    /** `select_move`: search every legal move with a fresh full window, the
        minimiser to reply, one ply less deep, and keep the first move whose
        score is strictly greater than every score before it. */
    method SelectMove(board: Board) returns (bestMove: Option<Move>)
      requires board.Valid() && depth >= 1
      modifies board
      ensures board.Valid()
      ensures board.position == old(board.position)
      ensures board.moveStack == old(board.moveStack) && board.states == old(board.states)
      ensures bestMove == MinimaxSpec.BestMove(board.rules, board.position, depth)
      ensures bestMove.Some? ==> bestMove.value in board.rules.legalMoves(board.position)
      ensures Consistent(board.rules) ==>
        (bestMove.None? <==> |board.rules.legalMoves(board.position)| == 0)
    {
      bestMove := None;
      var bestValue := NegInf;
      var alpha := NegInf;
      var beta := PosInf;
      var legalMoves := board.rules.legalMoves(board.position);
      ghost var p := board.position;
      for i := 0 to |legalMoves|
        invariant board.Valid() && board.position == p
        invariant board.moveStack == old(board.moveStack) && board.states == old(board.states)
        invariant MinimaxSpec.Choice(bestMove, bestValue) ==
          MinimaxSpec.SelectOver(board.rules, p, legalMoves[..i], depth)
      {
        var boardValue := Explore(board, legalMoves[i], depth - 1, alpha, beta, false);
        ClampFullWindow(boardValue);
        ClampFullWindow(MinimaxSpec.RootScore(board.rules, p, legalMoves[i], depth));
        assert legalMoves[..i + 1][..i] == legalMoves[..i];
        if Lt(bestValue, boardValue) {
          bestValue := boardValue;
          bestMove := Some(legalMoves[i]);
        }
      }
      MinimaxSpec.BestMoveIsFirstMaximum(board.rules, p, depth);
      if Consistent(board.rules) {
        MinimaxSpec.BestMoveNoneIffNoMoves(board.rules, p, depth);
      }
      assert legalMoves[..|legalMoves|] == legalMoves;
    }
  }
}
