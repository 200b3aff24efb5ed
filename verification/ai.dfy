/**
 The move-selection search: the linear board heuristic, the depth-limited
 min/max search with its alpha/beta cut-offs exactly as the loops are
 written, and the two-ply choice of the next move. Scores are `real`s.
 */
module Search {
  import opened Catalog
  import opened Boards

  const MinUtility: real := -100000.0
  const MaxUtility: real := 100000.0
  const EvaluationDepth: nat := 1

  /**
   How many lines a board may have cleared for the heuristic to stay inside
   [MinUtility, MaxUtility]: 0.760666 * 131000 is below 100000, while the
   penalties of a consistent 10x20 board add up to less than 211.
   */
  const LineBudget: nat := 131000

  // ---------------------------------------------------------------------
  // The heuristic.
  // ---------------------------------------------------------------------

  function Sum(s: seq<int>): int {
    if |s| == 0 then 0 else Sum(s[..|s| - 1]) + s[|s| - 1]
  }

  function Abs(x: int): nat {
    if x < 0 then -x else x
  }

  /** The sum of the height differences of neighbouring columns. */
  function Bumpiness(h: seq<int>): int {
    if |h| <= 1 then 0 else Bumpiness(h[..|h| - 1]) + Abs(h[|h| - 1] - h[|h| - 2])
  }

  /** The weighted score of a board that is still in play. */
  function RawUtility(b: Board): real {
    -0.510066 * (Sum(b.columnHeights) as real)
    + 0.760666 * (b.clearedLines as real)
    - 0.35663 * (Sum(b.holes) as real)
    - 0.184483 * (Bumpiness(b.columnHeights) as real)
  }

  /** Where `utility` does not panic. */
  predicate UtilityDefined(b: Board) {
    b.gameOver || MinUtility <= RawUtility(b) <= MaxUtility
  }

  /** Bigger is better; a finished game scores the minimum. */
  function Utility(b: Board): (u: real)
    requires UtilityDefined(b)
    ensures MinUtility <= u <= MaxUtility
    ensures b.gameOver ==> u == MinUtility
  {
    if b.gameOver then MinUtility else RawUtility(b)
  }

  lemma {:induction false} SumBounds(s: seq<int>)
    requires forall i :: 0 <= i < |s| ==> 0 <= s[i] <= Height
    ensures 0 <= Sum(s) <= Height * |s|
  {
    if |s| > 0 {
      var init := s[..|s| - 1];
      assert forall i :: 0 <= i < |init| ==> init[i] == s[i];
      SumBounds(init);
    }
  }

  lemma {:induction false} BumpinessBounds(h: seq<int>)
    requires forall i :: 0 <= i < |h| ==> 0 <= h[i] <= Height
    ensures 0 <= Bumpiness(h) <= Height * |h|
  {
    if |h| > 1 {
      var init := h[..|h| - 1];
      assert forall i :: 0 <= i < |init| ==> init[i] == h[i];
      BumpinessBounds(init);
    }
  }

  lemma {:induction false} SumIncrement(s: seq<int>, c: int, d: int)
    requires 0 <= c < |s|
    ensures Sum(s[c := s[c] + d]) == Sum(s) + d
  {
    var t := s[c := s[c] + d];
    if c < |s| - 1 {
      assert t[..|t| - 1] == s[..|s| - 1][c := s[c] + d];
      SumIncrement(s[..|s| - 1], c, d);
    } else {
      assert t[..|t| - 1] == s[..|s| - 1];
    }
  }

  /** Consistent statistics lie within the board's height. */
  lemma StatsBounded(b: Board)
    requires WellFormed(b) && StatsConsistent(b)
    ensures forall c :: 0 <= c < Width ==> 0 <= b.columnHeights[c] <= Height && 0 <= b.holes[c] <= Height
  {
    forall c | 0 <= c < Width
      ensures 0 <= b.columnHeights[c] <= Height && 0 <= b.holes[c] <= Height
    {
      assert b.holes[c] == ColumnHoles(b.cells, c) <= ColumnHeight(b.cells, c);
    }
  }

  /**
   A board in play whose line count is within the budget scores strictly
   above a finished game and never makes `utility` panic.
   */
  lemma PlayableUtility(b: Board)
    requires Inv(b) && b.clearedLines <= LineBudget
    ensures UtilityDefined(b)
    ensures !b.gameOver ==> MinUtility < Utility(b)
  {
    if !b.gameOver {
      StatsBounded(b);
      SumBounds(b.columnHeights);
      SumBounds(b.holes);
      BumpinessBounds(b.columnHeights);
    }
  }

  /** All else equal, one more hole lowers the score by the hole weight. */
  lemma ExtraHoleLowersUtility(b: Board, c: int)
    requires !b.gameOver && 0 <= c < |b.holes|
    ensures var worse := b.(holes := b.holes[c := b.holes[c] + 1]);
      RawUtility(worse) == RawUtility(b) - 0.35663 && RawUtility(worse) < RawUtility(b)
  {
    SumIncrement(b.holes, c, 1);
  }

  /** The source's loop over the columns that accumulates the three sums. */
  method ComputeUtility(b: Board) returns (u: real)
    requires WellFormed(b) && UtilityDefined(b)
    ensures u == Utility(b)
  {
    if b.gameOver {
      return MinUtility;
    }
    var heightsSum, heightsDiff, holes := 0, 0, 0;
    var col := 0;
    while col < Width
      invariant 0 <= col <= Width
      invariant heightsSum == Sum(b.columnHeights[..col])
      invariant holes == Sum(b.holes[..col])
      invariant heightsDiff == Bumpiness(b.columnHeights[..col])
    {
      assert b.columnHeights[..col + 1][..col] == b.columnHeights[..col];
      assert b.holes[..col + 1][..col] == b.holes[..col];
      heightsSum := heightsSum + b.columnHeights[col];
      holes := holes + b.holes[col];
      if col != 0 {
        heightsDiff := heightsDiff + Abs(b.columnHeights[col] - b.columnHeights[col - 1]);
      }
      col := col + 1;
    }
    assert b.columnHeights[..Width] == b.columnHeights;
    assert b.holes[..Width] == b.holes;
    u := -0.510066 * (heightsSum as real)
      + 0.760666 * (b.clearedLines as real)
      - 0.35663 * (holes as real)
      - 0.184483 * (heightsDiff as real);
  }

  // ---------------------------------------------------------------------
  // The search.
  // ---------------------------------------------------------------------

  function MaxReal(x: real, y: real): real {
    if x >= y then x else y
  }

  function MinReal(x: real, y: real): real {
    if x <= y then x else y
  }

  /** Boards the search may be run on `depth` plies deep without `utility` panicking. */
  predicate Searchable(b: Board, depth: nat) {
    Inv(b) && b.clearedLines + Height * depth <= LineBudget
  }

  /** What the placement loops of one kind leave behind: the kind's maximum and alpha. */
  datatype Scan = Scan(best: real, alpha: real)

  /**
   The evaluation of `b`: its utility at depth 0 or once the game is over,
   otherwise the minimum over the kinds of the maximum over their placements,
   with the cut-offs the source makes.
   */
  function Evaluate(b: Board, depth: nat, alpha: real, beta: real): (v: real)
    requires Searchable(b, depth)
    ensures MinUtility <= v <= MaxUtility
    ensures (depth == 0 || b.gameOver) ==> UtilityDefined(b) && v == Utility(b)
    ensures depth > 0 && !b.gameOver ==>
      v <= ScanPlacements(b, depth, Tetrominoes()[0], 0, 0, alpha, beta, MinUtility - 1.0).best
    decreases depth, 2, 0, 0
  {
    if depth == 0 || b.gameOver then
      PlayableUtility(b);
      Utility(b)
    else
      ScanKinds(b, depth, 0, alpha, beta, MaxUtility + 1.0)
  }

  /**
   The loop over the kinds from index `k` on: each kind's maximum lowers the
   running minimum and beta, and the loop stops once alpha exceeds beta.
   */
  function ScanKinds(b: Board, depth: nat, k: int, alpha: real, beta: real, minEval: real): (v: real)
    requires Searchable(b, depth) && depth >= 1 && !b.gameOver
    requires 0 <= k <= TetrominoesCount
    requires MinUtility <= minEval <= MaxUtility + 1.0
    ensures MinUtility <= v <= minEval
    ensures k < TetrominoesCount ==>
      v <= ScanPlacements(b, depth, Tetrominoes()[k], 0, 0, alpha, beta, MinUtility - 1.0).best
    decreases depth, 1, TetrominoesCount - k, 0
  {
    if k == TetrominoesCount then minEval
    else
      var s := ScanPlacements(b, depth, Tetrominoes()[k], 0, 0, alpha, beta, MinUtility - 1.0);
      var minEval' := MinReal(minEval, s.best);
      var beta' := MinReal(beta, minEval');
      if s.alpha > beta' then minEval'
      else ScanKinds(b, depth, k + 1, s.alpha, beta', minEval')
  }

  /**
   The loops over the rotations and columns of kind `t`, from (rotation, col)
   on. A cut-off leaves only the column loop, so the next rotation is still
   scanned.
   */
  function ScanPlacements(b: Board, depth: nat, t: Tetromino, rotation: int, col: int,
                          alpha: real, beta: real, maxEval: real): (s: Scan)
    requires Searchable(b, depth) && depth >= 1 && !b.gameOver
    requires IsNonEmpty(t) && 0 <= rotation <= RotationsCount(t) && 0 <= col
    requires rotation < RotationsCount(t) ==> col <= Width - PieceWidth(t, rotation) + 1
    requires MinUtility - 1.0 <= maxEval <= MaxUtility
    ensures maxEval <= s.best <= MaxUtility
    ensures alpha <= s.alpha
    ensures rotation < RotationsCount(t) && col + PieceWidth(t, rotation) <= Width ==> MinUtility <= s.best
    decreases depth, 0, RotationsCount(t) - rotation, Width + 1 - col
  {
    if rotation == RotationsCount(t) then Scan(maxEval, alpha)
    else if col + PieceWidth(t, rotation) > Width then
      ScanPlacements(b, depth, t, rotation + 1, 0, alpha, beta, maxEval)
    else
      var eval := EvaluatePlacement(b, depth, t, rotation, col, alpha, beta);
      var maxEval' := MaxReal(maxEval, eval);
      var alpha' := MaxReal(alpha, maxEval');
      if alpha' > beta then ScanPlacements(b, depth, t, rotation + 1, 0, alpha', beta, maxEval')
      else ScanPlacements(b, depth, t, rotation, col + 1, alpha', beta, maxEval')
  }

  /**
   The body of the column loop: the piece is dropped on a copy of the board,
   whether or not that ends the game, and the result is evaluated one ply
   shallower.
   */
  function EvaluatePlacement(b: Board, depth: nat, t: Tetromino, rotation: int, col: int,
                             alpha: real, beta: real): (v: real)
    requires Searchable(b, depth) && depth >= 1 && !b.gameOver
    requires IsNonEmpty(t) && 0 <= rotation < RotationsCount(t)
    requires 0 <= col && col + PieceWidth(t, rotation) <= Width
    ensures MinUtility <= v <= MaxUtility
    decreases depth, 0, RotationsCount(t) - rotation, Width - col
  {
    var after := Drop(NewBoardFromBoard(b), t, rotation, col).board;
    Evaluate(after, depth - 1, alpha, beta)
  }

  // ---------------------------------------------------------------------
  // Choosing and committing a move.
  // ---------------------------------------------------------------------

  /** The search's state: the live board and the piece to drop next. */
  datatype Ai = Ai(board: Board, next: Tetromino)

  /** A fresh search on an empty board, with no piece set yet. */
  function NewAi(): (ai: Ai)
    ensures ai.board == NewBoard() && ai.next == Empty
    ensures Inv(ai.board) && !ai.board.gameOver
  {
    Ai(NewBoard(), Empty)
  }

  /** Sets the pending piece and nothing else. */
  function SetNext(ai: Ai, next: Tetromino): (r: Ai)
    requires IsNonEmpty(next)
    ensures r.board == ai.board && r.next == next
  {
    ai.(next := next)
  }

  datatype Move = Move(rotation: int, column: int)

  predicate IsPlacement(t: Tetromino, m: Move)
    requires IsNonEmpty(t)
  {
    0 <= m.rotation < RotationsCount(t) && 0 <= m.column && m.column + PieceWidth(t, m.rotation) <= Width
  }

  /** Rotation-major, then column, the order of the source's nested loops. */
  predicate Before(m: Move, n: Move) {
    m.rotation < n.rotation || (m.rotation == n.rotation && m.column < n.column)
  }

  /** The placements of rotation `rotation` of `t`, column by column. */
  function RowOf(t: Tetromino, rotation: int): (row: seq<Move>)
    requires IsNonEmpty(t) && 0 <= rotation < RotationsCount(t)
    ensures forall m :: m in row <==> IsPlacement(t, m) && m.rotation == rotation
    ensures forall c :: 0 <= c < |row| ==> row[c].rotation == rotation && row[c].column == c
  {
    var row := seq(Width - PieceWidth(t, rotation) + 1, col => Move(rotation, col));
    assert forall m :: m in row <==> IsPlacement(t, m) && m.rotation == rotation by {
      forall m | IsPlacement(t, m) && m.rotation == rotation
        ensures m in row
      {
        assert row[m.column] == m;
      }
    }
    row
  }

  /** The placements of `t` for rotations `rotation` and up, in loop order. */
  function PlacementsFrom(t: Tetromino, rotation: int): (ps: seq<Move>)
    requires IsNonEmpty(t) && 0 <= rotation <= RotationsCount(t)
    ensures forall m :: m in ps <==> IsPlacement(t, m) && rotation <= m.rotation
    decreases RotationsCount(t) - rotation
  {
    if rotation == RotationsCount(t) then []
    else RowOf(t, rotation) + PlacementsFrom(t, rotation + 1)
  }

  /** Every (rotation, column) of `t` that fits the board's width, in loop order. */
  function Placements(t: Tetromino): (ps: seq<Move>)
    requires IsNonEmpty(t)
    ensures forall m :: m in ps <==> IsPlacement(t, m)
  {
    PlacementsFrom(t, 0)
  }

  /** Every move of `ps` comes strictly before the ones after it, so none repeats. */
  predicate InLoopOrder(ps: seq<Move>) {
    forall i, j :: 0 <= i < j < |ps| ==> Before(ps[i], ps[j])
  }

  /** Two ordered lists, the first wholly before the second, concatenate to an ordered list. */
  lemma InLoopOrderAppend(xs: seq<Move>, ys: seq<Move>)
    requires InLoopOrder(xs) && InLoopOrder(ys)
    requires forall m, n :: m in xs && n in ys ==> Before(m, n)
    ensures InLoopOrder(xs + ys)
  {
    var zs := xs + ys;
    forall i, j | 0 <= i < j < |zs|
      ensures Before(zs[i], zs[j])
    {
      if j < |xs| {
        assert zs[i] == xs[i] && zs[j] == xs[j];
      } else if i < |xs| {
        assert zs[i] == xs[i] && zs[j] == ys[j - |xs|];
        assert xs[i] in xs && ys[j - |xs|] in ys;
      } else {
        assert zs[i] == ys[i - |xs|] && zs[j] == ys[j - |xs|];
      }
    }
  }

  /** The placements from `rotation` on are listed without repeats, in loop order. */
  lemma {:induction false} PlacementsFromInOrder(t: Tetromino, rotation: int)
    requires IsNonEmpty(t) && 0 <= rotation <= RotationsCount(t)
    ensures InLoopOrder(PlacementsFrom(t, rotation))
    decreases RotationsCount(t) - rotation
  {
    if rotation < RotationsCount(t) {
      PlacementsFromInOrder(t, rotation + 1);
      var row := RowOf(t, rotation);
      var rest := PlacementsFrom(t, rotation + 1);
      assert InLoopOrder(row);
      InLoopOrderAppend(row, rest);
    }
  }

  /** Every placement is listed once, in the order of the source's nested loops. */
  lemma PlacementsInOrder(t: Tetromino)
    requires IsNonEmpty(t)
    ensures InLoopOrder(Placements(t))
  {
    PlacementsFromInOrder(t, 0);
  }

  /** Where the search may run: a live board with consistent statistics and room for three drops. */
  predicate CanSearch(b: Board) {
    Inv(b) && !b.gameOver && b.clearedLines + 3 * Height <= LineBudget
  }

  /** Dropping `cur` as `m` and then `next` as `n` leaves the game running. */
  predicate PairSurvives(b: Board, cur: Tetromino, next: Tetromino, m: Move, n: Move)
    requires CanSearch(b) && IsNonEmpty(cur) && IsNonEmpty(next)
  {
    && IsPlacement(cur, m)
    && IsPlacement(next, n)
    && var d := Drop(b, cur, m.rotation, m.column);
    && !d.gameEnded
    && !Drop(d.board, next, n.rotation, n.column).gameEnded
  }

  /** A first move is eligible when some placement of the next piece survives after it. */
  predicate Eligible(b: Board, cur: Tetromino, next: Tetromino, m: Move)
    requires CanSearch(b) && IsNonEmpty(cur) && IsNonEmpty(next)
  {
    exists n {:trigger PairSurvives(b, cur, next, m, n)} :: n in Placements(next) && PairSurvives(b, cur, next, m, n)
  }

  /** One evaluated pair of placements and the value the search gave it. */
  datatype Evaluation = Evaluation(move: Move, reply: Move, value: real)

  /** The first moves of the evaluations whose value is `v`, in order, with repeats. */
  function MovesValued(trace: seq<Evaluation>, v: real): (ms: seq<Move>)
    ensures |ms| <= |trace|
    ensures forall m :: m in ms ==> exists k :: 0 <= k < |trace| && trace[k].move == m && trace[k].value == v
  {
    if |trace| == 0 then []
    else
      var init := trace[..|trace| - 1];
      var last := trace[|trace| - 1];
      var ms := MovesValued(init, v);
      assert forall m :: m in ms ==> exists k :: 0 <= k < |init| && trace[k].move == m && trace[k].value == v;
      ms + (if last.value == v then [last.move] else [])
  }

  lemma {:induction false} MovesValuedNone(trace: seq<Evaluation>, v: real)
    requires forall k :: 0 <= k < |trace| ==> trace[k].value < v
    ensures MovesValued(trace, v) == []
  {
    if |trace| > 0 {
      MovesValuedNone(trace[..|trace| - 1], v);
    }
  }

  lemma MovesValuedAppend(trace: seq<Evaluation>, e: Evaluation, v: real)
    ensures MovesValued(trace + [e], v) == MovesValued(trace, v) + (if e.value == v then [e.move] else [])
  {
    assert (trace + [e])[..|trace|] == trace;
  }

  /**
   `bestEval` is the largest value of the trace (below MinUtility when the
   trace is empty) and `bestMoves` lists the first moves that reached it.
   */
  ghost predicate BestOf(trace: seq<Evaluation>, bestEval: real, bestMoves: seq<Move>) {
    && bestEval == BestValue(trace)
    && MinUtility - 1.0 <= bestEval <= MaxUtility
    && (|trace| == 0 ==> bestEval == MinUtility - 1.0)
    && (|trace| > 0 ==> MinUtility <= bestEval && |bestMoves| > 0)
    && (forall k :: 0 <= k < |trace| ==> trace[k].value <= bestEval)
    && bestMoves == MovesValued(trace, bestEval)
  }

  /** The best value of the trace: its largest value, or just below MinUtility when it is empty. */
  function BestValue(trace: seq<Evaluation>): real {
    if |trace| == 0 then MinUtility - 1.0
    else MaxReal(BestValue(trace[..|trace| - 1]), trace[|trace| - 1].value)
  }

  /** The board a surviving pair leaves: `next` dropped as `n` where `cur` dropped as `m` left it. */
  function AfterPair(b: Board, cur: Tetromino, next: Tetromino, m: Move, n: Move): (a: Board)
    requires CanSearch(b) && IsNonEmpty(cur) && IsNonEmpty(next)
    requires IsPlacement(cur, m) && IsPlacement(next, n) && !Drop(b, cur, m.rotation, m.column).gameEnded
    ensures Searchable(a, EvaluationDepth)
  {
    var d := Drop(b, cur, m.rotation, m.column);
    Drop(d.board, next, n.rotation, n.column).board
  }

  // The reference search. The trace the source's loops leave is defined
  // here pair by pair, independently of the methods below and generically
  // in a judge that says which pairs survive and what value a surviving
  // pair gets: a surviving pair is appended with its value, given the best
  // value recorded before it as alpha; every other pair is skipped.

  /** What decides the search over pairs of moves: survival, and the value of a survivor under an alpha. */
  datatype Judge = Judge(survives: (Move, Move) -> bool, value: (Move, Move, real) -> real)

  /** The trace after trying the pair (m, n). */
  function Tried(jd: Judge, trace: seq<Evaluation>, m: Move, n: Move): (t: seq<Evaluation>)
    ensures |t| == |trace| + (if jd.survives(m, n) then 1 else 0)
    ensures t[..|trace|] == trace
    ensures jd.survives(m, n) ==> t[|trace|] == Evaluation(m, n, jd.value(m, n, BestValue(trace)))
  {
    if jd.survives(m, n) then trace + [Evaluation(m, n, jd.value(m, n, BestValue(trace)))]
    else trace
  }

  /** The trace after trying, in order, the first `j` of `replies` as replies to `m`. */
  function RepliesTried(jd: Judge, replies: seq<Move>, trace: seq<Evaluation>, m: Move, j: nat)
    : (t: seq<Evaluation>)
    requires j <= |replies|
    ensures |trace| <= |t| && t[..|trace|] == trace
  {
    if j == 0 then trace
    else Tried(jd, RepliesTried(jd, replies, trace, m, j - 1), m, replies[j - 1])
  }

  /** The trace after trying, in order, the first `i` of `moves` as first moves, each with all `replies`. */
  function MovesTried(jd: Judge, moves: seq<Move>, replies: seq<Move>, i: nat): (t: seq<Evaluation>)
    requires i <= |moves|
  {
    if i == 0 then []
    else RepliesTried(jd, replies, MovesTried(jd, moves, replies, i - 1), moves[i - 1], |replies|)
  }

  /**
   The judge of the source's search: a pair survives when both drops leave
   the game running, and a survivor's value is the evaluation, one ply
   deeper, of the board it leaves.
   */
  function SearchJudge(b: Board, cur: Tetromino, next: Tetromino): (jd: Judge)
    requires CanSearch(b) && IsNonEmpty(cur) && IsNonEmpty(next)
    ensures Judges(b, cur, next, jd)
  {
    var jd := Judge(
      (m, n) => PairSurvives(b, cur, next, m, n),
      (m, n, alpha) =>
        if PairSurvives(b, cur, next, m, n)
        then Evaluate(AfterPair(b, cur, next, m, n), EvaluationDepth, alpha, MaxUtility)
        else MinUtility);
    assert forall m, n :: JudgesPair(b, cur, next, jd, m, n);
    assert forall m, n :: ValuesPair(b, cur, next, jd, m, n);
    jd
  }

  /** The whole trace of the search: every placement of `cur`, each followed by every placement of `next`. */
  function SearchTrace(b: Board, cur: Tetromino, next: Tetromino): seq<Evaluation>
    requires CanSearch(b) && IsNonEmpty(cur) && IsNonEmpty(next)
  {
    MovesTried(SearchJudge(b, cur, next), Placements(cur), Placements(next), |Placements(cur)|)
  }

  /** `jd` decides the survival of the pair (m, n) as the source's search does. */
  ghost predicate JudgesPair(b: Board, cur: Tetromino, next: Tetromino, jd: Judge, m: Move, n: Move)
    requires CanSearch(b) && IsNonEmpty(cur) && IsNonEmpty(next)
  {
    jd.survives(m, n) <==> PairSurvives(b, cur, next, m, n)
  }

  /** `jd` values the pair (m, n), when it survives, as the source's search does. */
  ghost predicate ValuesPair(b: Board, cur: Tetromino, next: Tetromino, jd: Judge, m: Move, n: Move)
    requires CanSearch(b) && IsNonEmpty(cur) && IsNonEmpty(next)
  {
    PairSurvives(b, cur, next, m, n) ==>
      forall alpha :: jd.value(m, n, alpha) == Evaluate(AfterPair(b, cur, next, m, n), EvaluationDepth, alpha, MaxUtility)
  }

  // Judges is triggered only by the per-pair predicates, so that a proof
  // unfolds the drops behind a judge only for the pairs it names.

  /** `jd` judges every pair as the source's search does. */
  ghost predicate Judges(b: Board, cur: Tetromino, next: Tetromino, jd: Judge)
    requires CanSearch(b) && IsNonEmpty(cur) && IsNonEmpty(next)
  {
    && (forall m, n {:trigger JudgesPair(b, cur, next, jd, m, n)} :: JudgesPair(b, cur, next, jd, m, n))
    && (forall m, n {:trigger ValuesPair(b, cur, next, jd, m, n)} :: ValuesPair(b, cur, next, jd, m, n))
  }

  /**
   Folds one evaluation into the best value and its moves: a larger value
   starts the list afresh, an equal one extends it, a smaller one is dropped.
   */
  method Record(ghost trace: seq<Evaluation>, bestEval: real, bestMoves: seq<Move>, e: Evaluation)
    returns (ghost trace': seq<Evaluation>, bestEval': real, bestMoves': seq<Move>)
    requires BestOf(trace, bestEval, bestMoves)
    requires MinUtility <= e.value <= MaxUtility
    ensures trace' == trace + [e]
    ensures bestEval' == MaxReal(bestEval, e.value)
    ensures BestOf(trace', bestEval', bestMoves')
  {
    trace' := trace + [e];
    assert trace'[..|trace|] == trace;
    bestEval' := bestEval;
    bestMoves' := bestMoves;
    if e.value > bestEval {
      MovesValuedNone(trace, e.value);
      MovesValuedAppend(trace, e, e.value);
      bestEval' := e.value;
      bestMoves' := [e.move];
    } else if e.value == bestEval {
      MovesValuedAppend(trace, e, bestEval);
      bestMoves' := bestMoves + [e.move];
    } else {
      MovesValuedAppend(trace, e, bestEval);
    }
    forall k | 0 <= k < |trace'|
      ensures trace'[k].value <= bestEval'
    {
      if k < |trace| {
        assert trace'[k] == trace[k];
      }
    }
  }

  // ---------------------------------------------------------------------
  // What the reference search records.
  // ---------------------------------------------------------------------

  // AllSurvive quantifies over indices and is triggered only by the
  // per-index predicate Survives, so that the drops inside PairSurvives are
  // unfolded only where a proof names an index.

  /** The evaluated pair `e` leaves the game running. */
  ghost predicate Survives(b: Board, cur: Tetromino, next: Tetromino, e: Evaluation)
    requires CanSearch(b) && IsNonEmpty(cur) && IsNonEmpty(next)
  {
    PairSurvives(b, cur, next, e.move, e.reply)
  }

  /** Every evaluated pair of the trace leaves the game running. */
  ghost predicate AllSurvive(b: Board, cur: Tetromino, next: Tetromino, trace: seq<Evaluation>)
    requires CanSearch(b) && IsNonEmpty(cur) && IsNonEmpty(next)
  {
    forall k {:trigger Survives(b, cur, next, trace[k])} ::
      0 <= k < |trace| ==> Survives(b, cur, next, trace[k])
  }

  lemma AllSurviveSnoc(b: Board, cur: Tetromino, next: Tetromino, trace: seq<Evaluation>, e: Evaluation)
    requires CanSearch(b) && IsNonEmpty(cur) && IsNonEmpty(next)
    requires AllSurvive(b, cur, next, trace) && Survives(b, cur, next, e)
    ensures AllSurvive(b, cur, next, trace + [e])
  {
    forall k | 0 <= k < |trace| + 1
      ensures Survives(b, cur, next, (trace + [e])[k])
    {
      if k < |trace| {
        assert (trace + [e])[k] == trace[k];
      } else {
        assert (trace + [e])[k] == e;
      }
    }
  }

  /** What the search loops keep true of the evaluations made so far. */
  ghost predicate TraceInv(b: Board, cur: Tetromino, next: Tetromino,
                           trace: seq<Evaluation>, bestEval: real, bestMoves: seq<Move>)
    requires CanSearch(b) && IsNonEmpty(cur) && IsNonEmpty(next)
  {
    BestOf(trace, bestEval, bestMoves) && AllSurvive(b, cur, next, trace)
  }

  /** Where a member of a list of moves sits in it. */
  lemma IndexOf(ms: seq<Move>, m: Move) returns (k: nat)
    requires m in ms
    ensures k < |ms| && ms[k] == m
  {
    k :| 0 <= k < |ms| && ms[k] == m;
  }

  /** The pair (m, n) has an entry in the trace at or after index `from`. */
  ghost predicate Recorded(trace: seq<Evaluation>, from: nat, m: Move, n: Move) {
    exists x :: from <= x < |trace| && trace[x].move == m && trace[x].reply == n
  }

  /** Every pair of the trace survives by the judge `jd`. */
  ghost predicate Survivors(jd: Judge, trace: seq<Evaluation>) {
    forall k :: 0 <= k < |trace| ==> jd.survives(trace[k].move, trace[k].reply)
  }

  /** Trying replies appends only pairs that survive. */
  lemma {:induction false} RepliesTriedSurvivors(jd: Judge, replies: seq<Move>, trace: seq<Evaluation>, m: Move, j: nat)
    requires j <= |replies| && Survivors(jd, trace)
    ensures Survivors(jd, RepliesTried(jd, replies, trace, m, j))
  {
    if j > 0 {
      RepliesTriedSurvivors(jd, replies, trace, m, j - 1);
      var t := RepliesTried(jd, replies, trace, m, j - 1);
      var t' := RepliesTried(jd, replies, trace, m, j);
      forall k | 0 <= k < |t'|
        ensures jd.survives(t'[k].move, t'[k].reply)
      {
        if k < |t| {
          assert t'[k] == t'[..|t|][k];
        }
      }
    }
  }

  /** Every pair the reference search records survives by its judge. */
  lemma {:induction false} MovesTriedSurvivors(jd: Judge, moves: seq<Move>, replies: seq<Move>, i: nat)
    requires i <= |moves|
    ensures Survivors(jd, MovesTried(jd, moves, replies, i))
  {
    if i > 0 {
      MovesTriedSurvivors(jd, moves, replies, i - 1);
      RepliesTriedSurvivors(jd, replies, MovesTried(jd, moves, replies, i - 1), moves[i - 1], |replies|);
    }
  }

  /** A surviving reply among the first `j` is recorded after `m`, behind the trace it started from. */
  lemma {:induction false} RepliesTriedRecords(jd: Judge, replies: seq<Move>, trace: seq<Evaluation>,
                                               m: Move, j: nat, k: nat)
    requires k < j <= |replies| && jd.survives(m, replies[k])
    ensures Recorded(RepliesTried(jd, replies, trace, m, j), |trace|, m, replies[k])
  {
    var t := RepliesTried(jd, replies, trace, m, j - 1);
    var t' := RepliesTried(jd, replies, trace, m, j);
    assert t' == Tried(jd, t, m, replies[j - 1]);
    if k == j - 1 {
      assert |trace| <= |t| < |t'|;
      assert t'[|t|].move == m && t'[|t|].reply == replies[k];
    } else {
      RepliesTriedRecords(jd, replies, trace, m, j - 1, k);
      var x :| |trace| <= x < |t| && t[x].move == m && t[x].reply == replies[k];
      assert t'[x] == t'[..|t|][x] == t[x];
    }
  }

  /** When none of the first `j` replies survives after `m`, trying them records nothing. */
  lemma {:induction false} RepliesTriedSkips(jd: Judge, replies: seq<Move>, trace: seq<Evaluation>, m: Move, j: nat)
    requires j <= |replies|
    requires forall k :: 0 <= k < j ==> !jd.survives(m, replies[k])
    ensures RepliesTried(jd, replies, trace, m, j) == trace
  {
    if j > 0 {
      RepliesTriedSkips(jd, replies, trace, m, j - 1);
    }
  }

  /** A surviving pair whose first move is among the first `i` is recorded by the reference search. */
  lemma {:induction false} MovesTriedRecords(jd: Judge, moves: seq<Move>, replies: seq<Move>, i: nat, mi: nat, k: nat)
    requires mi < i <= |moves| && k < |replies|
    requires jd.survives(moves[mi], replies[k])
    ensures Recorded(MovesTried(jd, moves, replies, i), 0, moves[mi], replies[k])
  {
    var t := MovesTried(jd, moves, replies, i - 1);
    var t' := MovesTried(jd, moves, replies, i);
    if mi == i - 1 {
      RepliesTriedRecords(jd, replies, t, moves[mi], |replies|, k);
    } else {
      MovesTriedRecords(jd, moves, replies, i - 1, mi, k);
      var x :| 0 <= x < |t| && t[x].move == moves[mi] && t[x].reply == replies[k];
      assert t'[x] == t'[..|t|][x] == t[x];
    }
  }

  /** The best value of a trace is at least that of any prefix. */
  lemma {:induction false} BestValuePrefix(trace: seq<Evaluation>, k: nat)
    requires k <= |trace|
    ensures BestValue(trace[..k]) <= BestValue(trace)
  {
    if k < |trace| {
      var init := trace[..|trace| - 1];
      BestValuePrefix(init, k);
      assert init[..k] == trace[..k];
    } else {
      assert trace[..k] == trace;
    }
  }

  /** Under a judge of the source's search, the pairs that survive by it leave the game running. */
  lemma JudgedSurvive(b: Board, cur: Tetromino, next: Tetromino, jd: Judge, trace: seq<Evaluation>)
    requires CanSearch(b) && IsNonEmpty(cur) && IsNonEmpty(next)
    requires Judges(b, cur, next, jd) && Survivors(jd, trace)
    ensures AllSurvive(b, cur, next, trace)
  {
    forall k | 0 <= k < |trace|
      ensures Survives(b, cur, next, trace[k])
    {
      assert JudgesPair(b, cur, next, jd, trace[k].move, trace[k].reply);
    }
  }

  /** Trying the replies to an eligible first move records at least one pair. */
  lemma EligibleRecords(b: Board, cur: Tetromino, next: Tetromino, jd: Judge, trace: seq<Evaluation>, m: Move)
    requires CanSearch(b) && IsNonEmpty(cur) && IsNonEmpty(next) && Judges(b, cur, next, jd)
    requires Eligible(b, cur, next, m)
    ensures |RepliesTried(jd, Placements(next), trace, m, |Placements(next)|)| > |trace|
  {
    var n :| n in Placements(next) && PairSurvives(b, cur, next, m, n);
    assert JudgesPair(b, cur, next, jd, m, n);
    SurvivingReplyRecorded(jd, Placements(next), trace, m, n);
  }

  /** Trying replies that include a surviving one records at least one pair. */
  lemma SurvivingReplyRecorded(jd: Judge, replies: seq<Move>, trace: seq<Evaluation>, m: Move, n: Move)
    requires n in replies && jd.survives(m, n)
    ensures |RepliesTried(jd, replies, trace, m, |replies|)| > |trace|
  {
    var k := IndexOf(replies, n);
    RepliesTriedRecords(jd, replies, trace, m, |replies|, k);
  }

  /** Trying the replies to a first move that is not eligible records nothing. */
  lemma IneligibleRecordsNothing(b: Board, cur: Tetromino, next: Tetromino, jd: Judge, trace: seq<Evaluation>, m: Move)
    requires CanSearch(b) && IsNonEmpty(cur) && IsNonEmpty(next) && Judges(b, cur, next, jd)
    requires !Eligible(b, cur, next, m)
    ensures RepliesTried(jd, Placements(next), trace, m, |Placements(next)|) == trace
  {
    var replies := Placements(next);
    forall k | 0 <= k < |replies|
      ensures !jd.survives(m, replies[k])
    {
      assert replies[k] in replies;
      assert JudgesPair(b, cur, next, jd, m, replies[k]);
    }
    RepliesTriedSkips(jd, replies, trace, m, |replies|);
  }

  /** Every pair the reference search records leaves the game running. */
  lemma SearchTraceSurvives(b: Board, cur: Tetromino, next: Tetromino)
    requires CanSearch(b) && IsNonEmpty(cur) && IsNonEmpty(next)
    ensures AllSurvive(b, cur, next, SearchTrace(b, cur, next))
  {
    var jd := SearchJudge(b, cur, next);
    MovesTriedSurvivors(jd, Placements(cur), Placements(next), |Placements(cur)|);
    JudgedSurvive(b, cur, next, jd, SearchTrace(b, cur, next));
  }

  /** Every pair of placements that leaves the game running is recorded by the reference search. */
  lemma SearchTraceComplete(b: Board, cur: Tetromino, next: Tetromino, m: Move, n: Move)
    requires CanSearch(b) && IsNonEmpty(cur) && IsNonEmpty(next)
    requires PairSurvives(b, cur, next, m, n)
    ensures Recorded(SearchTrace(b, cur, next), 0, m, n)
  {
    var jd := SearchJudge(b, cur, next);
    assert JudgesPair(b, cur, next, jd, m, n);
    SurvivingPairRecorded(jd, Placements(cur), Placements(next), m, n);
  }

  /** Trying every pair of `moves` and `replies` records each pair that survives. */
  lemma SurvivingPairRecorded(jd: Judge, moves: seq<Move>, replies: seq<Move>, m: Move, n: Move)
    requires m in moves && n in replies && jd.survives(m, n)
    ensures Recorded(MovesTried(jd, moves, replies, |moves|), 0, m, n)
  {
    var mi := IndexOf(moves, m);
    var k := IndexOf(replies, n);
    MovesTriedRecords(jd, moves, replies, |moves|, mi, k);
  }

  /** When the reference search records nothing, no first move is eligible. */
  lemma EmptySearchNoneEligible(b: Board, cur: Tetromino, next: Tetromino)
    requires CanSearch(b) && IsNonEmpty(cur) && IsNonEmpty(next)
    requires |SearchTrace(b, cur, next)| == 0
    ensures forall m :: m in Placements(cur) ==> !Eligible(b, cur, next, m)
  {
    forall m | m in Placements(cur)
      ensures !Eligible(b, cur, next, m)
    {
      if Eligible(b, cur, next, m) {
        var n :| n in Placements(next) && PairSurvives(b, cur, next, m, n);
        SearchTraceComplete(b, cur, next, m, n);
      }
    }
  }

  // ---------------------------------------------------------------------
  // The search loops.
  // ---------------------------------------------------------------------

  /**
   On the board `a` that the first move `m` left, `jd` decides and values the
   reply `n` as the source's search does.
   */
  ghost predicate JudgesReply(a: Board, next: Tetromino, jd: Judge, m: Move, n: Move)
    requires Searchable(a, 2) && !a.gameOver && IsNonEmpty(next)
  {
    && (jd.survives(m, n) <==> IsPlacement(next, n) && !Drop(a, next, n.rotation, n.column).gameEnded)
    && (IsPlacement(next, n) && !Drop(a, next, n.rotation, n.column).gameEnded ==>
          forall alpha :: jd.value(m, n, alpha) ==
            Evaluate(Drop(a, next, n.rotation, n.column).board, EvaluationDepth, alpha, MaxUtility))
  }

  /** `jd` judges every reply to `m` on the board `a` that `m` left as the source's search does. */
  ghost predicate JudgesReplies(a: Board, next: Tetromino, jd: Judge, m: Move)
    requires Searchable(a, 2) && !a.gameOver && IsNonEmpty(next)
  {
    forall n {:trigger JudgesReply(a, next, jd, m, n)} :: JudgesReply(a, next, jd, m, n)
  }

  /** A judge of the search judges the replies to a first move on the board that move left. */
  lemma FirstMoveJudges(b: Board, cur: Tetromino, next: Tetromino, jd: Judge, m: Move, d: Dropped)
    requires CanSearch(b) && IsNonEmpty(cur) && IsNonEmpty(next) && Judges(b, cur, next, jd)
    requires IsPlacement(cur, m) && d == Drop(b, cur, m.rotation, m.column) && !d.gameEnded
    ensures Searchable(d.board, 2) && !d.board.gameOver
    ensures JudgesReplies(d.board, next, jd, m)
  {
    forall n
      ensures JudgesReply(d.board, next, jd, m, n)
    {
      assert JudgesPair(b, cur, next, jd, m, n);
      assert ValuesPair(b, cur, next, jd, m, n);
    }
  }

  /**
   The body of the inner search loop: the reply `nextMove` is dropped on a
   copy of the board `a` that the first move left and, when the game goes
   on, the result is evaluated with the best value so far as alpha and
   recorded.
   */
  method TryReply(a: Board, next: Tetromino, ghost jd: Judge, curMove: Move, nextMove: Move,
                  ghost trace: seq<Evaluation>, bestEval: real, bestMoves: seq<Move>)
    returns (ghost trace': seq<Evaluation>, bestEval': real, bestMoves': seq<Move>)
    requires Searchable(a, 2) && !a.gameOver && IsNonEmpty(next) && IsPlacement(next, nextMove)
    requires JudgesReplies(a, next, jd, curMove)
    requires BestOf(trace, bestEval, bestMoves)
    ensures BestOf(trace', bestEval', bestMoves')
    ensures trace' == Tried(jd, trace, curMove, nextMove)
    ensures bestEval <= bestEval'
    ensures Drop(a, next, nextMove.rotation, nextMove.column).gameEnded ==>
      trace' == trace && bestEval' == bestEval && bestMoves' == bestMoves
  {
    trace', bestEval', bestMoves' := trace, bestEval, bestMoves;
    var nextBoard := NewBoardFromBoard(a);
    var d2 := Drop(nextBoard, next, nextMove.rotation, nextMove.column);
    assert JudgesReply(a, next, jd, curMove, nextMove);
    if !d2.gameEnded {
      var e;
      e, trace', bestEval', bestMoves' := RecordSurvivor(curMove, nextMove, d2.board, trace, bestEval, bestMoves);
    }
  }

  /** Evaluates the board a surviving pair left, with the best value so far as alpha, and records it. */
  method RecordSurvivor(curMove: Move, nextMove: Move, after: Board,
                        ghost trace: seq<Evaluation>, bestEval: real, bestMoves: seq<Move>)
    returns (e: Evaluation, ghost trace': seq<Evaluation>, bestEval': real, bestMoves': seq<Move>)
    requires Searchable(after, EvaluationDepth) && BestOf(trace, bestEval, bestMoves)
    ensures e == Evaluation(curMove, nextMove, Evaluate(after, EvaluationDepth, bestEval, MaxUtility))
    ensures trace' == trace + [e]
    ensures bestEval' == MaxReal(bestEval, e.value)
    ensures BestOf(trace', bestEval', bestMoves')
  {
    var eval := Evaluate(after, EvaluationDepth, bestEval, MaxUtility);
    e := Evaluation(curMove, nextMove, eval);
    trace', bestEval', bestMoves' := Record(trace, bestEval, bestMoves, e);
  }

  /** One iteration of the loop over the replies, with the loop's invariant. */
  method ReplyStep(a: Board, next: Tetromino, ghost jd: Judge, curMove: Move,
                   replies: seq<Move>, j: nat, ghost trace0: seq<Evaluation>,
                   ghost trace: seq<Evaluation>, bestEval: real, bestMoves: seq<Move>)
    returns (ghost trace': seq<Evaluation>, bestEval': real, bestMoves': seq<Move>)
    requires Searchable(a, 2) && !a.gameOver && IsNonEmpty(next)
    requires JudgesReplies(a, next, jd, curMove)
    requires replies == Placements(next) && j < |replies|
    requires BestOf(trace, bestEval, bestMoves)
    requires trace == RepliesTried(jd, replies, trace0, curMove, j)
    ensures BestOf(trace', bestEval', bestMoves')
    ensures trace' == RepliesTried(jd, replies, trace0, curMove, j + 1)
    ensures bestEval <= bestEval'
  {
    assert replies[j] in replies;
    trace', bestEval', bestMoves' := TryReply(a, next, jd, curMove, replies[j], trace, bestEval, bestMoves);
  }

  /**
   The inner search loop: every placement of `next`, in loop order, is tried
   as the reply to the first move `curMove` on the board `a` it left.
   */
  method TryReplies(a: Board, next: Tetromino, ghost jd: Judge, curMove: Move,
                    ghost trace: seq<Evaluation>, bestEval: real, bestMoves: seq<Move>)
    returns (ghost trace': seq<Evaluation>, bestEval': real, bestMoves': seq<Move>)
    requires Searchable(a, 2) && !a.gameOver && IsNonEmpty(next)
    requires JudgesReplies(a, next, jd, curMove)
    requires BestOf(trace, bestEval, bestMoves)
    ensures BestOf(trace', bestEval', bestMoves')
    ensures trace' == RepliesTried(jd, Placements(next), trace, curMove, |Placements(next)|)
    ensures bestEval <= bestEval'
  {
    trace', bestEval', bestMoves' := trace, bestEval, bestMoves;
    var replies := Placements(next);
    var j := 0;
    while j < |replies|
      invariant j <= |replies|
      invariant BestOf(trace', bestEval', bestMoves')
      invariant trace' == RepliesTried(jd, replies, trace, curMove, j)
      invariant bestEval <= bestEval'
    {
      trace', bestEval', bestMoves' := ReplyStep(a, next, jd, curMove, replies, j, trace, trace', bestEval', bestMoves');
      j := j + 1;
    }
  }

  /**
   The body of the outer search loop: the first move `curMove` is dropped on a
   copy of the board and, when the game goes on, every reply is tried after
   it. Exactly the surviving pairs with first move `curMove` are appended, so
   the best value never drops, and nothing is appended when the move is not
   eligible.
   */
  method TryMove(b: Board, cur: Tetromino, next: Tetromino, ghost jd: Judge, curMove: Move,
                 ghost trace: seq<Evaluation>, bestEval: real, bestMoves: seq<Move>)
    returns (ghost trace': seq<Evaluation>, bestEval': real, bestMoves': seq<Move>)
    requires CanSearch(b) && IsNonEmpty(cur) && IsNonEmpty(next) && Judges(b, cur, next, jd)
    requires IsPlacement(cur, curMove)
    requires BestOf(trace, bestEval, bestMoves)
    ensures BestOf(trace', bestEval', bestMoves')
    ensures trace' == RepliesTried(jd, Placements(next), trace, curMove, |Placements(next)|)
    ensures bestEval <= bestEval'
    ensures |trace'| == |trace| <==> !Eligible(b, cur, next, curMove)
  {
    var curBoard := NewBoardFromBoard(b);
    var d := Drop(curBoard, cur, curMove.rotation, curMove.column);
    if !d.gameEnded {
      FirstMoveJudges(b, cur, next, jd, curMove, d);
      trace', bestEval', bestMoves' := TryReplies(d.board, next, jd, curMove, trace, bestEval, bestMoves);
    } else {
      trace', bestEval', bestMoves' := trace, bestEval, bestMoves;
      FirstMoveEndsGame(b, cur, next, curMove);
    }
    if Eligible(b, cur, next, curMove) {
      EligibleRecords(b, cur, next, jd, trace, curMove);
    } else {
      IneligibleRecordsNothing(b, cur, next, jd, trace, curMove);
    }
    BestValuePrefix(trace', |trace|);
  }

  /** When the first move alone ends the game, it is not eligible. */
  lemma FirstMoveEndsGame(b: Board, cur: Tetromino, next: Tetromino, m: Move)
    requires CanSearch(b) && IsNonEmpty(cur) && IsNonEmpty(next) && IsPlacement(cur, m)
    requires Drop(b, cur, m.rotation, m.column).gameEnded
    ensures !Eligible(b, cur, next, m)
  {
  }

  /** The pieces of a surviving pair were placed where they fit. */
  lemma SurvivorIsPlacement(b: Board, cur: Tetromino, next: Tetromino, e: Evaluation)
    requires CanSearch(b) && IsNonEmpty(cur) && IsNonEmpty(next)
    requires Survives(b, cur, next, e)
    ensures IsPlacement(cur, e.move) && IsPlacement(next, e.reply)
  {
  }

  /** A move of the best list is a placement that was evaluated with the best value. */
  lemma ChosenWasEvaluated(b: Board, cur: Tetromino, next: Tetromino,
                           trace: seq<Evaluation>, bestEval: real, bestMoves: seq<Move>, m: Move)
    requires CanSearch(b) && IsNonEmpty(cur) && IsNonEmpty(next)
    requires TraceInv(b, cur, next, trace, bestEval, bestMoves) && m in bestMoves
    ensures IsPlacement(cur, m)
    ensures exists k :: 0 <= k < |trace| && trace[k].move == m && trace[k].value == bestEval
  {
    var k :| 0 <= k < |trace| && trace[k].move == m && trace[k].value == bestEval;
    assert Survives(b, cur, next, trace[k]);
    SurvivorIsPlacement(b, cur, next, trace[k]);
  }

  /** One iteration of the loop over the first moves, with the loop's invariant. */
  method MoveStep(b: Board, cur: Tetromino, next: Tetromino, ghost jd: Judge, moves: seq<Move>, i: nat,
                  ghost trace: seq<Evaluation>, bestEval: real, bestMoves: seq<Move>)
    returns (ghost trace': seq<Evaluation>, bestEval': real, bestMoves': seq<Move>)
    requires CanSearch(b) && IsNonEmpty(cur) && IsNonEmpty(next) && Judges(b, cur, next, jd)
    requires moves == Placements(cur) && i < |moves|
    requires BestOf(trace, bestEval, bestMoves)
    requires trace == MovesTried(jd, moves, Placements(next), i)
    ensures BestOf(trace', bestEval', bestMoves')
    ensures trace' == MovesTried(jd, moves, Placements(next), i + 1)
    ensures bestEval <= bestEval'
  {
    assert moves[i] in moves;
    trace', bestEval', bestMoves' := TryMove(b, cur, next, jd, moves[i], trace, bestEval, bestMoves);
  }

  /**
   The outer search loop: every placement of `cur` is tried as the first
   move, in loop order, so the trace is the reference search's. The best
   value is the largest recorded, and when nothing was recorded no first
   move is eligible.
   */
  method SearchMoves(b: Board, cur: Tetromino, next: Tetromino)
    returns (bestEval: real, bestMoves: seq<Move>, ghost trace: seq<Evaluation>)
    requires CanSearch(b) && IsNonEmpty(cur) && IsNonEmpty(next)
    ensures trace == SearchTrace(b, cur, next)
    ensures TraceInv(b, cur, next, trace, bestEval, bestMoves)
    ensures |bestMoves| == 0 ==> forall m :: m in Placements(cur) ==> !Eligible(b, cur, next, m)
    ensures |bestMoves| > 0 ==> MinUtility <= bestEval <= MaxUtility
    ensures forall m :: m in bestMoves ==> IsPlacement(cur, m)
  {
    var moves := Placements(cur);
    ghost var jd := SearchJudge(b, cur, next);
    bestEval := MinUtility - 1.0;
    bestMoves := [];
    trace := [];
    var i := 0;
    while i < |moves|
      invariant i <= |moves|
      invariant BestOf(trace, bestEval, bestMoves)
      invariant trace == MovesTried(jd, moves, Placements(next), i)
    {
      trace, bestEval, bestMoves := MoveStep(b, cur, next, jd, moves, i, trace, bestEval, bestMoves);
      i := i + 1;
    }
    SearchTraceSurvives(b, cur, next);
    if |trace| == 0 {
      EmptySearchNoneEligible(b, cur, next);
    }
    forall m | m in bestMoves
      ensures IsPlacement(cur, m)
    {
      ChosenWasEvaluated(b, cur, next, trace, bestEval, bestMoves, m);
    }
  }

  /**
   The search's verdict: `ok` exactly when the best list is not empty, and
   when it is empty no first move is eligible.
   */
  ghost predicate Verdict(b: Board, cur: Tetromino, next: Tetromino, ok: bool, bestMoves: seq<Move>)
    requires CanSearch(b) && IsNonEmpty(cur) && IsNonEmpty(next)
  {
    && (ok <==> |bestMoves| > 0)
    && (!ok ==> forall m :: m in Placements(cur) ==> !Eligible(b, cur, next, m))
  }

  /**
   The choice among the best moves: `move` is the one `pick` selects, a
   placement that was evaluated with the best value.
   */
  ghost predicate Choice(cur: Tetromino, pick: nat, ok: bool, move: Move, bestEval: real,
                         bestMoves: seq<Move>, trace: seq<Evaluation>)
    requires IsNonEmpty(cur)
  {
    ok ==>
      && |bestMoves| > 0
      && move == bestMoves[pick % |bestMoves|]
      && IsPlacement(cur, move)
      && exists k :: 0 <= k < |trace| && trace[k].move == move && trace[k].value == bestEval
  }

  /**
   What the search of the source's `DropSetNext` delivers: the reference
   search's trace, its best value and moves, the verdict and the choice.
   */
  ghost predicate SearchOutcome(b: Board, cur: Tetromino, next: Tetromino, pick: nat,
                                ok: bool, move: Move, bestEval: real, bestMoves: seq<Move>,
                                trace: seq<Evaluation>)
    requires CanSearch(b) && IsNonEmpty(cur) && IsNonEmpty(next)
  {
    && trace == SearchTrace(b, cur, next)
    && TraceInv(b, cur, next, trace, bestEval, bestMoves)
    && Verdict(b, cur, next, ok, bestMoves)
    && Choice(cur, pick, ok, move, bestEval, bestMoves, trace)
  }

  /**
   The search succeeds exactly when some first move is eligible, and the move
   it chooses is one of them.
   */
  lemma OutcomeIsEligible(b: Board, cur: Tetromino, next: Tetromino, pick: nat,
                          ok: bool, move: Move, bestEval: real, bestMoves: seq<Move>,
                          trace: seq<Evaluation>)
    requires CanSearch(b) && IsNonEmpty(cur) && IsNonEmpty(next)
    requires SearchOutcome(b, cur, next, pick, ok, move, bestEval, bestMoves, trace)
    ensures ok ==> Eligible(b, cur, next, move)
    ensures ok <==> exists m :: m in Placements(cur) && Eligible(b, cur, next, m)
  {
    if ok {
      var k :| 0 <= k < |trace| && trace[k].move == move && trace[k].value == bestEval;
      assert Survives(b, cur, next, trace[k]);
      SurvivorIsPlacement(b, cur, next, trace[k]);
      assert PairSurvives(b, cur, next, move, trace[k].reply);
      assert move in Placements(cur);
    }
  }

  /** The pair (m, n) has an entry in the trace whose value is at most `v`. */
  ghost predicate RecordedAtMost(trace: seq<Evaluation>, m: Move, n: Move, v: real) {
    exists x :: 0 <= x < |trace| && trace[x].move == m && trace[x].reply == n && trace[x].value <= v
  }

  /** A recorded pair's value is at most the best value, and the best list is not empty. */
  lemma BestBoundsRecorded(trace: seq<Evaluation>, bestEval: real, bestMoves: seq<Move>, m: Move, n: Move)
    requires BestOf(trace, bestEval, bestMoves) && Recorded(trace, 0, m, n)
    ensures RecordedAtMost(trace, m, n, bestEval) && |bestMoves| > 0
  {
    var x :| 0 <= x < |trace| && trace[x].move == m && trace[x].reply == n;
    assert trace[x].value <= bestEval;
  }

  /**
   The chosen move is a best one: the search succeeds as soon as one pair
   survives, and every surviving pair of placements was evaluated to at most
   the best value, which the chosen first move reached (Choice).
   */
  lemma ChosenIsBest(b: Board, cur: Tetromino, next: Tetromino, pick: nat,
                     ok: bool, move: Move, bestEval: real, bestMoves: seq<Move>,
                     trace: seq<Evaluation>, m: Move, n: Move)
    requires CanSearch(b) && IsNonEmpty(cur) && IsNonEmpty(next)
    requires SearchOutcome(b, cur, next, pick, ok, move, bestEval, bestMoves, trace)
    requires PairSurvives(b, cur, next, m, n)
    ensures ok && RecordedAtMost(trace, m, n, bestEval)
  {
    SearchTraceComplete(b, cur, next, m, n);
    BestBoundsRecorded(trace, bestEval, bestMoves, m, n);
  }

  /** Dropping the chosen move on its own leaves the game running. */
  lemma ChosenKeepsGame(b: Board, cur: Tetromino, next: Tetromino, pick: nat,
                        ok: bool, move: Move, bestEval: real, bestMoves: seq<Move>,
                        trace: seq<Evaluation>)
    requires CanSearch(b) && IsNonEmpty(cur) && IsNonEmpty(next)
    requires AllSurvive(b, cur, next, trace) && Choice(cur, pick, ok, move, bestEval, bestMoves, trace) && ok
    ensures !Drop(b, cur, move.rotation, move.column).gameEnded
  {
    var k :| 0 <= k < |trace| && trace[k].move == move && trace[k].value == bestEval;
    assert Survives(b, cur, next, trace[k]);
  }

  /**
   The search of the source's `DropSetNext`: every placement of `cur` is tried
   on a copy of the board and, when it does not end the game, every placement
   of `next` after it; each surviving pair is evaluated one ply deeper with the
   best value so far as alpha. The first moves whose value equals the best are
   kept, repeats included, and `pick` chooses among them where the source draws
   a random index.
   */
  method ChooseMove(b: Board, cur: Tetromino, next: Tetromino, pick: nat)
    returns (ok: bool, move: Move, bestEval: real, bestMoves: seq<Move>, ghost trace: seq<Evaluation>)
    requires CanSearch(b) && IsNonEmpty(cur) && IsNonEmpty(next)
    ensures SearchOutcome(b, cur, next, pick, ok, move, bestEval, bestMoves, trace)
    ensures ok ==> !Drop(b, cur, move.rotation, move.column).gameEnded
  {
    bestEval, bestMoves, trace := SearchMoves(b, cur, next);
    move := Move(0, 0);
    ok := |bestMoves| > 0;
    if ok {
      move := bestMoves[pick % |bestMoves|];
      ChosenWasEvaluated(b, cur, next, trace, bestEval, bestMoves, move);
      ChosenKeepsGame(b, cur, next, pick, ok, move, bestEval, bestMoves, trace);
    }
  }

  /**
   Drops the pending piece as the chosen move and makes `next` the pending
   one. When no first move is eligible nothing changes and `ok` is false.
   */
  method DropSetNext(ai: Ai, next: Tetromino, pick: nat)
    returns (r: Ai, ok: bool, move: Move, bestEval: real, bestMoves: seq<Move>, ghost trace: seq<Evaluation>)
    requires IsNonEmpty(next) && IsNonEmpty(ai.next)
    requires CanSearch(ai.board)
    ensures SearchOutcome(ai.board, ai.next, next, pick, ok, move, bestEval, bestMoves, trace)
    ensures !ok ==> r == ai
    ensures ok ==>
      && IsPlacement(ai.next, move)
      && r == Ai(Drop(ai.board, ai.next, move.rotation, move.column).board, next)
      && r.board.droppedTetrominoes == ai.board.droppedTetrominoes + 1
  {
    ok, move, bestEval, bestMoves, trace := ChooseMove(ai.board, ai.next, next, pick);
    r := ai;
    if ok {
      var d := Drop(ai.board, ai.next, move.rotation, move.column);
      r := Ai(d.board, next);
    }
  }
}
