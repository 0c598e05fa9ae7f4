/** The static evaluation: material counted from white's point of view. */
module Evaluation {
  import opened ChessRules

  /** The piece table `evaluate_board` walks, in the order of its list:
      pawn, knight, bishop, rook, queen, king. */
  const PieceValues: seq<(Kind, int)> :=
    [(Pawn, 1), (Knight, 3), (Bishop, 3), (Rook, 5), (Queen, 9), (King, 0)]

  /** The white-minus-black count of one kind. */
  function Diff(rules: Rules, p: Position, k: Kind): int {
    rules.pieces(p, White, k) - rules.pieces(p, Black, k)
  }

  /** What the evaluator's accumulator holds after walking `table`: for each
      entry it adds the white count times the value and subtracts the black
      count times the value. */
  function MaterialOver(rules: Rules, p: Position, table: seq<(Kind, int)>): int {
    if table == [] then 0
    else
      var kind := table[|table| - 1].0;
      var value := table[|table| - 1].1;
      MaterialOver(rules, p, table[..|table| - 1])
        + rules.pieces(p, White, kind) * value
        - rules.pieces(p, Black, kind) * value
  }

  /** The score `evaluate_board` returns for a position. */
  function Material(rules: Rules, p: Position): int {
    MaterialOver(rules, p, PieceValues)
  }

  /** The evaluation is the weighted sum of the per-kind differences with
      weights pawn 1, knight 3, bishop 3, rook 5, queen 9; kings count
      nothing. */
  lemma MaterialClosedForm(rules: Rules, p: Position)
    ensures Material(rules, p) ==
      Diff(rules, p, Pawn) + 3 * Diff(rules, p, Knight) + 3 * Diff(rules, p, Bishop)
      + 5 * Diff(rules, p, Rook) + 9 * Diff(rules, p, Queen)
  {
    var t := PieceValues;
    assert MaterialOver(rules, p, t[..1]) == Diff(rules, p, Pawn) by {
      assert t[..1][..0] == [];
    }
    assert MaterialOver(rules, p, t[..2]) == MaterialOver(rules, p, t[..1]) + 3 * Diff(rules, p, Knight) by {
      assert t[..2][..1] == t[..1];
    }
    assert MaterialOver(rules, p, t[..3]) == MaterialOver(rules, p, t[..2]) + 3 * Diff(rules, p, Bishop) by {
      assert t[..3][..2] == t[..2];
    }
    assert MaterialOver(rules, p, t[..4]) == MaterialOver(rules, p, t[..3]) + 5 * Diff(rules, p, Rook) by {
      assert t[..4][..3] == t[..3];
    }
    assert MaterialOver(rules, p, t[..5]) == MaterialOver(rules, p, t[..4]) + 9 * Diff(rules, p, Queen) by {
      assert t[..5][..4] == t[..4];
    }
    assert MaterialOver(rules, p, t) == MaterialOver(rules, p, t[..5]) by {
      assert t[..6] == t;
    }
  }

  /** Only the counts of the five valued kinds matter: two positions with the
      same pawns, knights, bishops, rooks and queens on each side score the
      same, whatever their kings. */
  lemma KingsIgnored(rules: Rules, p: Position, q: Position)
    requires forall s, k :: k != King ==> rules.pieces(q, s, k) == rules.pieces(p, s, k)
    ensures Material(rules, q) == Material(rules, p)
  {
    MaterialClosedForm(rules, p);
    MaterialClosedForm(rules, q);
    assert Diff(rules, q, Pawn) == Diff(rules, p, Pawn);
    assert Diff(rules, q, Knight) == Diff(rules, p, Knight);
    assert Diff(rules, q, Bishop) == Diff(rules, p, Bishop);
    assert Diff(rules, q, Rook) == Diff(rules, p, Rook);
    assert Diff(rules, q, Queen) == Diff(rules, p, Queen);
  }

  /** Exchanging the colours of all pieces negates the score, for any table. */
  lemma {:induction false} MaterialOverSwap(rules: Rules, p: Position, q: Position, table: seq<(Kind, int)>)
    requires forall k :: rules.pieces(q, White, k) == rules.pieces(p, Black, k)
    requires forall k :: rules.pieces(q, Black, k) == rules.pieces(p, White, k)
    ensures MaterialOver(rules, q, table) == -MaterialOver(rules, p, table)
  {
    if table != [] {
      MaterialOverSwap(rules, p, q, table[..|table| - 1]);
    }
  }

  /** A colour-mirrored position has the negated evaluation. */
  lemma MaterialColourSwap(rules: Rules, p: Position, q: Position)
    requires forall k :: rules.pieces(q, White, k) == rules.pieces(p, Black, k)
    requires forall k :: rules.pieces(q, Black, k) == rules.pieces(p, White, k)
    ensures Material(rules, q) == -Material(rules, p)
  {
    MaterialOverSwap(rules, p, q, PieceValues);
  }

  /** Equal material on both sides evaluates to 0, for any table. */
  lemma {:induction false} MaterialOverBalanced(rules: Rules, p: Position, table: seq<(Kind, int)>)
    requires forall k :: rules.pieces(p, White, k) == rules.pieces(p, Black, k)
    ensures MaterialOver(rules, p, table) == 0
  {
    if table != [] {
      MaterialOverBalanced(rules, p, table[..|table| - 1]);
    }
  }

  /** A position with the same material on both sides evaluates to 0. */
  lemma MaterialBalanced(rules: Rules, p: Position)
    requires forall k :: rules.pieces(p, White, k) == rules.pieces(p, Black, k)
    ensures Material(rules, p) == 0
  {
    MaterialOverBalanced(rules, p, PieceValues);
  }
}
