/**
  The 8x8 board: serpentine numbering of the grid (initBoardLogic), the per-cell
  reward drawn when a Node is built, and the reward lookup getPointOfNode.
 */
module Board {

  const SIZE: int := 8
  /** The last (winning) cell id, SIZE * SIZE. */
  const LAST: int := 64

  /** One square of the board (the source's Node): its id, grid position and point value. */
  datatype Cell = Cell(id: int, row: int, col: int, reward: int)

  predicate InGrid(r: int, c: int) { 0 <= r < SIZE && 0 <= c < SIZE }

  /** Grid row of cell `id`: ids 1..8 lie on the bottom row SIZE-1, the next eight above it, ... */
  function RowOf(id: int): (r: int)
    requires 1 <= id <= LAST
    ensures 0 <= r < SIZE
  {
    SIZE - 1 - (id - 1) / SIZE
  }

  /** Grid column of cell `id`: even rows (counted from the bottom) run left to right, odd rows back. */
  function ColOf(id: int): (c: int)
    requires 1 <= id <= LAST
    ensures 0 <= c < SIZE
  {
    var band := (id - 1) / SIZE;
    var offset := (id - 1) % SIZE;
    if band % 2 == 0 then offset else SIZE - 1 - offset
  }

  /**
    The id that initBoardLogic gives grid position (r, c). The id lies in 1..LAST and
    RowOf/ColOf recover the position, so the numbering is one-to-one.
   */
  function IdAt(r: int, c: int): (id: int)
    requires InGrid(r, c)
    ensures 1 <= id <= LAST
    ensures RowOf(id) == r && ColOf(id) == c
  {
    var band := SIZE - 1 - r;
    if band % 2 == 0 then SIZE * band + c + 1 else SIZE * band + (SIZE - 1 - c) + 1
  }

  /** Every id 1..LAST is given to exactly the position (RowOf(id), ColOf(id)): the numbering is onto. */
  lemma IdAtOnto(id: int)
    requires 1 <= id <= LAST
    ensures IdAt(RowOf(id), ColOf(id)) == id
  {
  }

  /** Consecutive ids are grid neighbours: one row apart or one column apart, never both. */
  lemma SerpentineAdjacent(k: int)
    requires 1 <= k < LAST
    ensures var dr := RowOf(k) - RowOf(k + 1);
            var dc := ColOf(k) - ColOf(k + 1);
            (dr == 0 && (dc == 1 || dc == -1)) || (dc == 0 && dr == 1)
  {
  }

  /**
    The bottom row holds 1..SIZE from left to right, and along any row the ids step by
    one, upwards on rows SIZE-1, SIZE-3, ... and downwards on the rows between.
   */
  lemma RowDirection(r: int, c: int)
    requires InGrid(r, c)
    ensures r == SIZE - 1 ==> IdAt(r, c) == c + 1
    ensures c + 1 < SIZE ==>
      IdAt(r, c + 1) == IdAt(r, c) + (if (SIZE - 1 - r) % 2 == 0 then 1 else -1)
  {
  }

  /** The ids of a board are those of the serpentine numbering. */
  ghost predicate Numbered(board: array2<Cell>)
    reads board
  {
    board.Length0 == SIZE && board.Length1 == SIZE &&
    forall r, c :: InGrid(r, c) ==> board[r, c].id == IdAt(r, c)
  }

  /** Every point value on the board is one of 1, 2, 3. */
  ghost predicate Rewarded(board: array2<Cell>)
    reads board
  {
    board.Length0 == SIZE && board.Length1 == SIZE &&
    forall r, c :: InGrid(r, c) ==> 1 <= board[r, c].reward <= 3
  }

  /** A random draw behind a reward: `(int)(Math.random() * 3)` is one of 0, 1, 2. */
  predicate RewardDraws(draws: seq<int>)
  {
    |draws| == LAST && forall i :: 0 <= i < |draws| ==> 0 <= draws[i] < 3
  }

  /** The point value of cell `id` on a numbered board, 0 for ids that are not on it. */
  ghost function RewardOf(board: array2<Cell>, id: int): int
    reads board
    requires board.Length0 == SIZE && board.Length1 == SIZE
  {
    if 1 <= id <= LAST then board[RowOf(id), ColOf(id)].reward else 0
  }

  /**
    initBoardLogic: walks the rows from the bottom (r = SIZE-1) up, creating
    Node(id++, r, c) along each row. Nodes are created in id order, so draws[id - 1]
    is the random draw of node `id`, and its reward is draw + 1.
   */
  method InitBoardLogic(board: array2<Cell>, draws: seq<int>)
    requires board.Length0 == SIZE && board.Length1 == SIZE
    requires RewardDraws(draws)
    modifies board
    ensures forall r, c :: InGrid(r, c) ==>
      board[r, c] == Cell(IdAt(r, c), r, c, draws[IdAt(r, c) - 1] + 1)
    ensures Numbered(board) && Rewarded(board)
  {
    var id := 1;
    for r := SIZE downto 0
      invariant id == SIZE * (SIZE - r) + 1
      invariant forall r', c :: r <= r' < SIZE && 0 <= c < SIZE ==>
        board[r', c] == Cell(IdAt(r', c), r', c, draws[IdAt(r', c) - 1] + 1)
    {
      id := FillRow(board, draws, r, id);
    }
  }

  /**
    One row of initBoardLogic: left to right on even bands (counted from the bottom),
    right to left on odd ones, numbering on from `first`; the other rows are untouched.
   */
  method FillRow(board: array2<Cell>, draws: seq<int>, r: int, first: int) returns (next: int)
    requires board.Length0 == SIZE && board.Length1 == SIZE
    requires RewardDraws(draws) && 0 <= r < SIZE && first == SIZE * (SIZE - 1 - r) + 1
    modifies board
    ensures next == first + SIZE
    ensures forall c :: 0 <= c < SIZE ==> board[r, c] == Cell(IdAt(r, c), r, c, draws[IdAt(r, c) - 1] + 1)
    ensures forall r', c :: InGrid(r', c) && r' != r ==> board[r', c] == old(board[r', c])
  {
    next := first;
    var leftToRight := (SIZE - 1 - r) % 2 == 0;
    if leftToRight {
      for c := 0 to SIZE
        invariant next == first + c
        invariant forall c' :: 0 <= c' < c ==>
          board[r, c'] == Cell(IdAt(r, c'), r, c', draws[IdAt(r, c') - 1] + 1)
        invariant forall r', c' :: InGrid(r', c') && r' != r ==> board[r', c'] == old(board[r', c'])
      {
        board[r, c] := Cell(next, r, c, draws[next - 1] + 1);
        next := next + 1;
      }
    } else {
      for c := SIZE downto 0
        invariant next == first + (SIZE - c)
        invariant forall c' :: c <= c' < SIZE ==>
          board[r, c'] == Cell(IdAt(r, c'), r, c', draws[IdAt(r, c') - 1] + 1)
        invariant forall r', c' :: InGrid(r', c') && r' != r ==> board[r', c'] == old(board[r', c'])
      {
        board[r, c] := Cell(next, r, c, draws[next - 1] + 1);
        next := next + 1;
      }
    }
  }

  /**
    getPointOfNode: a row-major search for the node with this id. On a numbered board
    it returns that cell's reward for ids 1..LAST and 0 for every other id.
   */
  method GetPointOfNode(board: array2<Cell>, id: int) returns (pts: int)
    requires board.Length0 == SIZE && board.Length1 == SIZE
    ensures (forall r, c :: InGrid(r, c) ==> board[r, c].id != id) ==> pts == 0
    ensures Numbered(board) ==> pts == RewardOf(board, id)
    ensures Numbered(board) && Rewarded(board) ==> (1 <= id <= LAST <==> 1 <= pts <= 3)
  {
    for r := 0 to SIZE
      invariant forall r', c' :: 0 <= r' < r && 0 <= c' < SIZE ==> board[r', c'].id != id
    {
      for c := 0 to SIZE
        invariant forall c' :: 0 <= c' < c ==> board[r, c'].id != id
        invariant forall r', c' :: 0 <= r' < r && 0 <= c' < SIZE ==> board[r', c'].id != id
      {
        if board[r, c].id == id {
          return board[r, c].reward;
        }
      }
    }
    if 1 <= id <= LAST {
      IdAtOnto(id);
      assert board[RowOf(id), ColOf(id)].id != id;
      assert !Numbered(board);
    }
    return 0;
  }
}
