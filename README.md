# Chess move search engine, modelled in Dafny

This project models the move search engine of a small two-player chess program: the
`ChessAI` class that scores a position by material, searches the game tree with
depth-limited minimax and alpha-beta pruning, and picks the computer's reply. The class
exists twice in the repository, character for character the same (`ChessAI.py:80-141`
and `main.py:7-68`); one model covers both copies, and the table cites the first.

The chess rules library is an external collaborator. Its queries (legal moves, applying a
move, game over, counting the pieces of one kind and colour) are the four fields of a
`ChessRules.Rules` value over an abstract `Position` type, and every result holds for every
choice of them. Where a result needs the one fact of chess the engine relies on, that a
position with no legal move is over (checkmate or stalemate), it says so with the
predicate `ChessRules.Consistent`. The mutable board is the class `ChessRules.Board`: the
current position, the stack of moves pushed, and the position before each of them, which
`Pop` restores.

Files, one module each:

- `ext_int.dfy` (`ExtInt`): integers with the two sentinels `NegInf` and `PosInf` that
  stand for `-float('inf')` and `float('inf')`; order, `Max`, `Min`, and `Clamp`, a value
  pulled into a window.
- `chess_rules.dfy` (`ChessRules`): sides, piece kinds, moves, the rules interface and
  the `Board` class.
- `evaluation.dfy` (`Evaluation`): the piece table and the material score, with its
  closed form and symmetry lemmas.
- `minimax_spec.dfy` (`MinimaxSpec`): the reference semantics. `Minimax` is plain
  minimax with no pruning; `SelectOver`/`BestMove` is the root loop as a function.
- `chess_engine.dfy` (`ChessEngine`): the `ChessAI` class. Its methods mutate one shared
  board with push and pop and are proved against the reference functions.

How the search's correctness is stated: `ChessAI.Minimax` returns a value `v` whose clamp
to the window `[alpha, beta]` equals the clamp of the unpruned value `V`. It follows that
`v == V` whenever `V` lies strictly inside `(alpha, beta)` and always with the full window.
When `V <= alpha` then `v <= alpha`, and when `V >= beta` then `v >= beta`. The root calls
every child with the full window, so `SelectMove` chooses exactly as an unpruned search
would.

Behaviour kept as the code has it:

- The root always hands the first ply to the minimiser (`is_maximizing=False`,
  `ChessAI.py:135`) and keeps the move of largest score. Scores are white minus black,
  which means the engine maximises white's material. Yet the human is only allowed to pick
  up white pieces (`ChessAI.py:62`), so the engine plays black. The model reproduces this
  as written (`MinimaxSpec.RootScore`).
- The search is fail-soft, not fail-hard. A node returns its running maximum or minimum,
  not the bound it was cut at. The clamp contract covers this behaviour.
- `select_move` does not refuse a position without legal moves; it returns `None`
  (`ChessRules.Option.None`). The model has no precondition for it. Without the
  `Consistent` fact it also returns `None` when every root score is `NegInf`.
- `select_move` needs `self.depth >= 1`: with depth 0 its recursive calls start at -1 and
  never reach the `depth == 0` base case. `SelectMove` requires `depth >= 1`, and the
  search methods take a `nat` depth.
- `select_move` loops over the library's legal-move generator while it pushes and pops.
  Every push is undone before the generator resumes, so iterating a snapshot of the legal
  moves, as the model does, is the same.

The branches of `minimax` appear as `ChessAI.MaximizeOver` and `ChessAI.MinimizeOver`.
They are the same loops as in `minimax`, `break` included. One turn of each loop (search a
child, then fold its value into the running maximum or minimum and into alpha or beta) is
`ChessAI.MaxTurn` or `ChessAI.MinTurn`, and the step repeated in every loop,
`push; minimax; pop`, is `ChessAI.Explore`. These are separate methods so that each proof
obligation stays small enough to verify reliably.

## Model

| member | source | states |
|---|---|---|
| `ChessRules.Board.Push` | ChessAI.py:107 | playing a move applies it to the position and pushes the move and the previous position onto the stacks, keeping the board consistent |
| `ChessRules.Board.Pop` | ChessAI.py:109 | taking back the last move restores the position before it and shortens both stacks by one, returning the move; the popped move leads from the restored position to the old one |
| `ChessRules.PushPop` | ChessAI.py:107-109 | a push followed by a pop leaves position, move stack and state stack exactly as they were |
| `Evaluation.MaterialClosedForm` | ChessAI.py:84-96 | the score is (white - black) pawns + 3 x knights + 3 x bishops + 5 x rooks + 9 x queens; kings add nothing |
| `Evaluation.KingsIgnored` | ChessAI.py:92 | two positions with the same non-king material on both sides score the same, whatever their kings |
| `Evaluation.MaterialOverSwap` | ChessAI.py:86-95 | for any piece table, exchanging the colours of all pieces negates the accumulated score |
| `Evaluation.MaterialColourSwap` | ChessAI.py:86-96 | a colour-mirrored position evaluates to the negated score |
| `Evaluation.MaterialOverBalanced` | ChessAI.py:86-95 | for any piece table, equal counts of every kind on both sides accumulate to 0 |
| `Evaluation.MaterialBalanced` | ChessAI.py:86-96 | a position with identical material on both sides evaluates to 0 |
| `ExtInt.MaxIsLeastUpperBound` | ChessAI.py:110-111 | `max(a, b)` is one of its arguments, at least both, and at most any common upper bound |
| `ExtInt.MinIsGreatestLowerBound` | ChessAI.py:121-122 | `min(a, b)` is one of its arguments, at most both, and at least any common lower bound |
| `MinimaxSpec.MaxOfIsMaximum` | ChessAI.py:104-114 | the maximising fold over the children bounds every child's value from above and equals one of them, or is -inf with no children |
| `MinimaxSpec.MinOfIsMinimum` | ChessAI.py:115-125 | the minimising fold over the children bounds every child's value from below and equals one of them, or is +inf with no children |
| `MinimaxSpec.MaxOfPrefix` | ChessAI.py:112-113 | the exact maximum over the children searched before a cutoff is at most the maximum over all children |
| `MinimaxSpec.MinOfPrefix` | ChessAI.py:123-124 | the exact minimum over the children searched before a cutoff is at least the minimum over all children |
| `MinimaxSpec.TerminalShortCircuit` | ChessAI.py:99-100 | at depth 0 or in a finished game the search value is the static evaluation, whatever depth and side remain |
| `MinimaxSpec.MinimaxFinite` | ChessAI.py:99-125 | when every unfinished position has a legal move, no search value is +inf or -inf |
| `MinimaxSpec.RootScoreDepthOne` | ChessAI.py:133-135 | at search depth 1 a root move scores the static evaluation of the position it leads to |
| `MinimaxSpec.SelectOverIsFirstMaximum` | ChessAI.py:133-139 | the root loop's kept score bounds every move's score; it keeps no move exactly when its score is -inf; the kept move is one whose score is the kept score and every earlier move scores strictly less |
| `MinimaxSpec.BestMoveIsFirstMaximum` | ChessAI.py:127-141 | `select_move` returns None exactly when every legal move scores -inf, and otherwise a legal move of maximal score that is strictly better than every earlier legal move |
| `MinimaxSpec.BestMoveNoneIffNoMoves` | ChessAI.py:127-141 | when every unfinished position has a legal move, `select_move` returns None exactly when there is no legal move |
| `MinimaxSpec.MaxNodeStep` | ChessAI.py:107-111 | folding one more child, searched with alpha raised to the running maximum, keeps the running maximum equal to the exact maximum up to the clamp to (alpha, beta) |
| `MinimaxSpec.MaxLoopStep` | ChessAI.py:107-111 | one turn of the maximising loop: folding in a child searched with alpha raised to the running maximum keeps the running maximum the maximum of the returned values, the raised alpha equal to max(alpha, running maximum), the clamp agreement with the exact maximum over the children so far, and the record that every child searched was searched correctly |
| `MinimaxSpec.MinLoopStep` | ChessAI.py:118-122 | the mirror turn of the minimising loop, with beta lowered to the running minimum |
| `MinimaxSpec.MaxChildrenAgreeEach` | ChessAI.py:107-111 | in a maximising node's record, the value returned for child j agrees with child j's exact minimax value on the clamp to (max(alpha, maximum of the values before it), beta), and that window is not empty |
| `MinimaxSpec.MaxChildrenAgreeFromEach` | ChessAI.py:107-111 | conversely, values that agree child by child in that way make up a valid maximising record |
| `MinimaxSpec.MinChildrenAgreeEach` | ChessAI.py:118-122 | in a minimising node's record, the value returned for child j agrees with child j's exact minimax value on the clamp to (alpha, min(beta, minimum of the values before it)), and that window is not empty |
| `MinimaxSpec.MinChildrenAgreeFromEach` | ChessAI.py:118-122 | conversely, values that agree child by child in that way make up a valid minimising record |
| `MinimaxSpec.MaxNodeCutoff` | ChessAI.py:112-113 | once alpha reaches beta, the unsearched children cannot change the clamped maximum |
| `MinimaxSpec.MinNodeStep` | ChessAI.py:118-122 | folding one more child, searched with beta lowered to the running minimum, keeps the running minimum equal to the exact minimum up to the clamp to (alpha, beta) |
| `MinimaxSpec.MinNodeCutoff` | ChessAI.py:123-124 | once beta falls to alpha, the unsearched children cannot change the clamped minimum |
| `ChessEngine.ChessAI.constructor` | ChessAI.py:81-82 | the engine keeps the search depth it was given |
| `ChessEngine.ChessAI.EvaluateBoard` | ChessAI.py:84-96 | the loop over the piece table returns the material score of the board's position |
| `ChessEngine.ChessAI.Minimax` | ChessAI.py:98-125 | board unchanged afterwards; static evaluation at depth 0 or game over; otherwise the unpruned minimax value up to the clamp to (alpha, beta), hence exact inside the window and with the full window, and on the right side of it otherwise |
| `ChessEngine.ChessAI.MaximizeOver` | ChessAI.py:104-114 | board unchanged; the running maximum equals the exact maximum over all children, and over the children searched, up to the clamp to (alpha, beta); it is the maximum of the values those children returned, and each of those values agrees with that child's exact value on the clamp to the window in force when it was searched, alpha raised to the maximum of the values before it (`MinimaxSpec.MaxChildrenAgree`), which is still below beta; at least one child is searched when there is one, and fewer than all only after alpha reached beta |
| `ChessEngine.ChessAI.MinimizeOver` | ChessAI.py:115-125 | board unchanged; the running minimum equals the exact minimum over all children, and over the children searched, up to the clamp to (alpha, beta); it is the minimum of the values those children returned, and each of those values agrees with that child's exact value on the clamp to the window in force when it was searched, beta lowered to the minimum of the values before it (`MinimaxSpec.MinChildrenAgree`), which is still above alpha; at least one child is searched when there is one, and fewer than all only after beta fell to alpha |
| `ChessEngine.ChessAI.MaxTurn` | ChessAI.py:107-111 | board unchanged; one more child searched: the record grows by that child's value, the running maximum and alpha are raised by it, the running maximum stays the maximum of the record and clamp-agrees with the exact maximum over one more child, and the record stays correct child by child |
| `ChessEngine.ChessAI.MinTurn` | ChessAI.py:118-122 | board unchanged; the mirror turn: the running minimum and beta are lowered by the child's value, the running minimum stays the minimum of the record and clamp-agrees with the exact minimum over one more child, and the record stays correct child by child |
| `ChessEngine.ChessAI.Explore` | ChessAI.py:107-109 | push, search and pop leave the board unchanged and return the child's search value up to the clamp |
| `ChessEngine.ChessAI.SelectMove` | ChessAI.py:127-141 | board unchanged; the result is the reference root choice: each legal move scored at depth - 1 with the minimiser to move and a fresh full window, first strict maximum kept; a returned move is legal; None exactly when there is no legal move whenever unfinished positions always have one |

## Left out

- The windowed and web-page shells (`ChessAI.py:5-78`, `ChessAI.py:143-146`,
  `main.py:70-112`): drawing, clicks, text input, image rendering and the game-over
  messages. They are presentation. The engine's callers there always check for game over
  before asking for a move, which is consistent with the model.
- The chess rules themselves: move generation, check, checkmate, stalemate, insufficient
  material, the seventy-five-move and fivefold-repetition rules, `pieces`, and how the
  library implements push and pop. They are foreign code, modelled only as the abstract
  `Rules` functions and the `Board` stacks. Properties that need concrete chess, such as
  finding a mate in one, are not stated.
- Floating point: the infinities are only sentinels and become `ExtInt.NegInf` and
  `ExtInt.PosInf`.
- Exceptions raised by the rules library during push or pop: the model's push always
  succeeds, and `ChessRules.Board.Pop` requires a non-empty move stack, so popping an empty
  board (where the library raises `IndexError`) is excluded by that precondition rather than
  modelled. The engine only ever pops straight after its own push.
- `ChessEngine.ChessAI.Minimax`: requires `alpha < beta`. The source states no such
  precondition, but every call it makes satisfies it: the root passes the full window, and
  a loop goes on to the next child only while `alpha < beta`.
