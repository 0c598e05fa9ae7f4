/** The part of the chess rules library that the search engine consumes.
    Legal-move generation, game-over detection and piece counting are not
    modelled: a `Rules` value carries them as uninterpreted total functions
    over an abstract `Position`, and every result below holds for all of
    them. A `Board` is the mutable board the search pushes moves onto and
    pops them off again. */
module ChessRules {

  datatype Option<T> = None | Some(value: T)

  datatype Side = White | Black

  datatype Kind = Pawn | Knight | Bishop | Rook | Queen | King

  /** A board square, 0 (a1) to 63 (h8). */
  type Square = s: int | 0 <= s < 64

  /** A move: origin square, destination square, optional promotion piece. */
  datatype Move = Move(from: Square, to: Square, promotion: Option<Kind>)

  /** The complete state of a game as the rules library sees it. */
  type Position(==, !new)

  /** The rules library's queries on a position. */
  datatype Rules = Rules(
    legalMoves: Position -> seq<Move>,
    apply: (Position, Move) -> Position,
    isGameOver: Position -> bool,
    pieces: (Position, Side, Kind) -> nat)

  /** What the chess rules guarantee and the search relies on for its
      selection result: a position with no legal move is checkmate or
      stalemate, so the game is over. */
  ghost predicate Consistent(rules: Rules) {
    forall p :: !rules.isGameOver(p) ==> |rules.legalMoves(p)| > 0
  }

  /** A board: the current position and the stack of moves played to reach
      it, together with the position before each of those moves, which is
      what `Pop` restores. */
  class Board {
    const rules: Rules
    var position: Position
    var moveStack: seq<Move>
    var states: seq<Position>

    /** Each recorded state, with its move applied, gives the next state,
        and the last one gives the current position. */
    ghost predicate Valid()
      reads this
    {
      |states| == |moveStack| &&
      (forall i :: 0 <= i < |states| - 1 ==>
        rules.apply(states[i], moveStack[i]) == states[i + 1]) &&
      (|states| > 0 ==>
        rules.apply(states[|states| - 1], moveStack[|states| - 1]) == position)
    }

    constructor (rules: Rules, start: Position)
      ensures Valid()
      ensures this.rules == rules && position == start
      ensures moveStack == [] && states == []
    {
      this.rules := rules;
      position := start;
      moveStack := [];
      states := [];
    }

    /** `board.push(move)`: play a move. */
    method Push(m: Move)
      requires Valid()
      modifies this
      ensures Valid()
      ensures position == rules.apply(old(position), m)
      ensures moveStack == old(moveStack) + [m]
      ensures states == old(states) + [old(position)]
    {
      states := states + [position];
      moveStack := moveStack + [m];
      position := rules.apply(position, m);
    }

    /** `board.pop()`: take back the last move and return it. */
    method Pop() returns (m: Move)
      requires Valid() && |moveStack| > 0
      modifies this
      ensures Valid()
      ensures m == old(moveStack[|moveStack| - 1])
      ensures position == old(states[|states| - 1])
      ensures moveStack == old(moveStack[..|moveStack| - 1])
      ensures states == old(states[..|states| - 1])
      ensures old(position) == rules.apply(position, m)
    {
      var n := |moveStack|;
      m := moveStack[n - 1];
      position := states[n - 1];
      moveStack := moveStack[..n - 1];
      states := states[..n - 1];
    }
  }

  /** A push followed by a pop leaves the board as it was. */
  method PushPop(board: Board, m: Move) returns (popped: Move)
    requires board.Valid()
    modifies board
    ensures board.Valid() && popped == m
    ensures board.position == old(board.position)
    ensures board.moveStack == old(board.moveStack)
    ensures board.states == old(board.states)
  {
    board.Push(m);
    popped := board.Pop();
  }
}
