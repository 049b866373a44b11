/**
  The game engine of the SnakeDijkstraGUI window, with everything on screen stripped:
  the board, the players' position stacks and scores, the turn queue, the shortcut
  table and the input flag, and the operations that start a game and play a turn.
 */
module Game {
  import opened Wrappers
  import opened Board
  import opened Moves
  import opened Links
  import opened Ranking
  import opened HighScores

  /** The top of a position stack: the cell the player stands on. */
  function Top(stack: seq<int>): int
    requires |stack| > 0
  {
    stack[|stack| - 1]
  }

  /** Every player has a position, and every position ever recorded is a cell of the board. */
  ghost predicate StacksOnBoard(stacks: seq<seq<int>>)
  {
    && (forall i :: 0 <= i < |stacks| ==> |stacks[i]| > 0)
    && (forall i, j :: 0 <= i < |stacks| && 0 <= j < |stacks[i]| ==> 1 <= stacks[i][j] <= LAST)
  }

  /** Every queued id is one of the n players. */
  ghost predicate QueueOk(n: nat, queue: seq<int>)
  {
    forall k :: 0 <= k < |queue| ==> 1 <= queue[k] <= n
  }

  /** The players 1..n, each once. */
  ghost function Players(n: nat): multiset<int>
  {
    if n == 0 then multiset{} else Players(n - 1) + multiset{n}
  }

  /** The queue is a permutation of the players 1..n. */
  ghost predicate AllQueued(n: nat, queue: seq<int>)
  {
    multiset(queue) == Players(n)
  }

  /** Some player stands on the last cell. */
  ghost predicate SomeFinished(stacks: seq<seq<int>>)
  {
    exists i :: 0 <= i < |stacks| && |stacks[i]| > 0 && Top(stacks[i]) == LAST
  }

  /** Each of 1..n occurs once among the players, and nothing else does. */
  lemma {:induction false} PlayersOnce(n: nat)
    ensures |Players(n)| == n
    ensures forall id :: Players(n)[id] == if 1 <= id <= n then 1 else 0
  {
    if n > 0 {
      PlayersOnce(n - 1);
    }
  }

  /** The queue 1, 2, ..., n. */
  ghost predicate Ascending(n: nat, queue: seq<int>)
  {
    |queue| == n && forall k :: 0 <= k < n ==> queue[k] == k + 1
  }

  /** The queue 1, 2, ..., n holds every player once. */
  lemma {:induction false} AscendingQueued(n: nat, queue: seq<int>)
    requires Ascending(n, queue)
    ensures QueueOk(n, queue) && AllQueued(n, queue)
  {
    if n > 0 {
      var front := queue[..n - 1];
      AscendingQueued(n - 1, front);
      assert queue == front + [n];
    }
  }

  /** A queue that is a permutation of the players holds n entries: exactly the ids 1..n, none twice. */
  lemma FullQueue(n: nat, queue: seq<int>)
    requires AllQueued(n, queue)
    ensures |queue| == n
    ensures forall id :: id in queue <==> 1 <= id <= n
    ensures forall id :: multiset(queue)[id] <= 1
  {
    PlayersOnce(n);
    assert |multiset(queue)| == |queue|;
    assert |Players(n)| == n;
    forall id
      ensures id in queue <==> 1 <= id <= n
    {
      assert id in queue <==> id in multiset(queue);
    }
  }

  /**
    Taking the front player off a full queue: that player is one of the n players, the
    rest of the queue holds players, and the rest together with that player is everyone.
   */
  lemma Dequeue(n: nat, queue: seq<int>)
    requires QueueOk(n, queue) && AllQueued(n, queue) && |queue| > 0
    ensures var pid := queue[0];
      && 1 <= pid <= n
      && QueueOk(n, queue[1..])
      && multiset(queue[1..]) + multiset{pid} == Players(n)
  {
    assert queue == [queue[0]] + queue[1..];
    assert forall k :: 0 <= k < |queue| - 1 ==> queue[1..][k] == queue[k + 1];
  }

  /**
    Pushing a cell of the board on a player's stack keeps the stacks on the board; when
    nobody had finished, it finishes the game exactly when the cell is the last one.
   */
  lemma Push(stacks: seq<seq<int>>, pid: int, pos: int)
    requires StacksOnBoard(stacks) && !SomeFinished(stacks)
    requires 1 <= pid <= |stacks| && 1 <= pos <= LAST
    ensures var next := stacks[pid - 1 := stacks[pid - 1] + [pos]];
      StacksOnBoard(next) && (SomeFinished(next) <==> pos == LAST)
  {
    var next := stacks[pid - 1 := stacks[pid - 1] + [pos]];
    assert Top(next[pid - 1]) == pos;
    if pos != LAST {
      forall i | 0 <= i < |next| && |next[i]| > 0
        ensures Top(next[i]) != LAST
      {
        if i != pid - 1 {
          assert next[i] == stacks[i];
        }
      }
    }
  }

  /** Queuing the one missing player again, at the front or at the back, makes the queue a permutation of the players. */
  lemma Requeue(n: nat, queue: seq<int>, pid: int, front: bool)
    requires QueueOk(n, queue) && 1 <= pid <= n
    requires multiset(queue) + multiset{pid} == Players(n)
    ensures var next := if front then [pid] + queue else queue + [pid];
      QueueOk(n, next) && AllQueued(n, next)
  {
  }

  /** A new game for n players: all on cell 1, queued 1..n in order, nobody finished. */
  lemma NewGame(n: nat, stacks: seq<seq<int>>, queue: seq<int>)
    requires |stacks| == n && forall i :: 0 <= i < n ==> stacks[i] == [1]
    requires Ascending(n, queue)
    ensures StacksOnBoard(stacks) && QueueOk(n, queue) && AllQueued(n, queue) && !SomeFinished(stacks)
  {
    AscendingQueued(n, queue);
    assert forall i :: 0 <= i < n ==> Top(stacks[i]) == 1;
  }

  /** The first loop of initGameData: every player gets the stack [1] and a score of 0. */
  method StartingLine(n: nat) returns (starts: seq<seq<int>>, scores: array<int>)
    ensures |starts| == n && forall i :: 0 <= i < n ==> starts[i] == [1]
    ensures fresh(scores) && scores.Length == n
    ensures forall i :: 0 <= i < n ==> scores[i] == 0
  {
    starts := [];
    scores := new int[n];
    for i := 0 to n
      invariant |starts| == i && forall j :: 0 <= j < i ==> starts[j] == [1]
      invariant forall j :: 0 <= j < i ==> scores[j] == 0
    {
      starts := starts + [[1]];
      scores[i] := 0;
    }
  }

  /** The second loop of initGameData: the queue 1, 2, ..., n. */
  method FirstRound(n: nat) returns (queue: seq<int>)
    ensures Ascending(n, queue)
  {
    queue := [];
    for id := 1 to n + 1
      invariant Ascending(id - 1, queue)
    {
      queue := queue + [id];
    }
  }

  class SnakeGame {
    /** logicBoard: created once, numbered when the window is built. */
    const board: array2<Cell>
    const highScores: HighScoreManager
    var playerNames: seq<string>
    /** allPlayerStacks: for player `pid`, entry pid - 1 lists every cell it stood on, the current one last. */
    var stacks: seq<seq<int>>
    var playerScores: array<int>
    /** turnQueue: player ids, the one to move next at the front. */
    var turnQueue: seq<int>
    var shortcuts: map<int, int>
    var inputEnabled: bool

    /**
      What holds at every point the engine stops at, also in the middle of a turn:
      a numbered board, one name, stack and score per player, stacks on the board,
      scores non-negative, a well-formed shortcut table, and a queue of player ids.
     */
    ghost predicate Between()
      reads this, board, playerScores
    {
      && Numbered(board) && Rewarded(board)
      && |playerNames| == |stacks| == playerScores.Length
      && StacksOnBoard(stacks)
      && (forall i :: 0 <= i < playerScores.Length ==> playerScores[i] >= 0)
      && WellFormed(shortcuts)
      && QueueOk(|stacks|, turnQueue)
    }

    /** The queue is a permutation of all players. */
    ghost predicate Full()
      reads this
    {
      AllQueued(|stacks|, turnQueue)
    }

    /** Some player has reached the last cell: the game is over. */
    ghost predicate Finished()
      reads this
    {
      SomeFinished(stacks)
    }

    /**
      The invariant between turns: input is enabled exactly while a game is running and
      nobody has finished, and until somebody finishes the queue is a permutation of the players.
     */
    ghost predicate Valid()
      reads this, board, playerScores
    {
      && Between()
      && (inputEnabled <==> |stacks| > 0 && !Finished())
      && (!Finished() ==> Full())
    }

    /**
      The window before any game: the board numbered with the given reward draws, the
      high-score table loaded (its contents are a parameter), no players and input off.
     */
    constructor (rewardDraws: seq<int>, stored: map<string, int>)
      requires RewardDraws(rewardDraws)
      ensures Valid()
      ensures forall r, c :: InGrid(r, c) ==>
        board[r, c] == Cell(IdAt(r, c), r, c, rewardDraws[IdAt(r, c) - 1] + 1)
      ensures fresh(board) && fresh(highScores) && highScores.scores == stored
      ensures stacks == [] && turnQueue == [] && shortcuts == map[] && !inputEnabled
    {
      board := new Cell[SIZE, SIZE]((r, c) => Cell(0, r, c, 0));
      highScores := new HighScoreManager(stored);
      playerNames := [];
      stacks := [];
      playerScores := new int[0];
      turnQueue := [];
      shortcuts := map[];
      inputEnabled := false;
      new;
      InitBoardLogic(board, rewardDraws);
    }

    /**
      initGameData, with the names askPlayerNames collected: every player starts on
      cell 1 with 0 points, the queue is 1..N in order, a new shortcut table is drawn
      and input is enabled. The board and the high scores are kept.
     */
    method InitGameData(names: seq<string>, linkDraws: seq<(int, int)>)
      requires Numbered(board) && Rewarded(board)
      requires |names| > 0
      requires AllInDrawRange(linkDraws) && Fill(map[], linkDraws).Some?
      modifies this
      ensures Valid() && inputEnabled
      ensures playerNames == names
      ensures |stacks| == |names| && forall i :: 0 <= i < |names| ==> stacks[i] == [1]
      ensures fresh(playerScores) && playerScores.Length == |names|
      ensures forall i :: 0 <= i < |names| ==> playerScores[i] == 0
      ensures Ascending(|names|, turnQueue)
      ensures Fill(map[], linkDraws) == Some(shortcuts)
    {
      var n := |names|;
      var starts, scores := StartingLine(n);
      var queue := FirstRound(n);
      var table := GenShortcuts(linkDraws);
      NewGame(n, starts, queue);
      assert forall i :: 0 <= i < scores.Length ==> scores[i] >= 0;
      playerNames, stacks, playerScores, turnQueue, shortcuts, inputEnabled := names, starts, scores, queue, table, true;
    }

    /**
      finalizeTurn for player `pid`, already taken off the queue, arriving on `pos`:
      `pos` is pushed on that player's stack alone and that cell's points are added to
      that player's score alone. On the last cell the game ends: the player's best
      score is saved, the final ranking is returned, the player is not queued again and
      input stays off. Otherwise the player moves again at once when `pos` is a multiple
      of 5 (other than 1) and queues at the back otherwise, and input is enabled.
     */
    method FinalizeTurn(pid: int, pos: int) returns (results: Option<seq<int>>)
      requires Between() && !Finished() && !inputEnabled
      requires 1 <= pid <= |stacks| && multiset(turnQueue) + multiset{pid} == Players(|stacks|)
      requires 1 <= pos <= LAST
      modifies this, playerScores, highScores
      ensures Valid()
      ensures stacks == old(stacks)[pid - 1 := old(stacks[pid - 1]) + [pos]]
      ensures playerScores == old(playerScores) && playerScores[pid - 1] == old(playerScores[pid - 1]) + RewardOf(board, pos)
      ensures forall i :: 0 <= i < playerScores.Length && i != pid - 1 ==> playerScores[i] == old(playerScores[i])
      ensures playerNames == old(playerNames) && shortcuts == old(shortcuts)
      ensures results.Some? <==> pos == LAST
      ensures inputEnabled <==> pos != LAST
      ensures Finished() <==> pos == LAST
      ensures turnQueue == if pos == LAST then old(turnQueue)
                           else if pos % 5 == 0 && pos != 1 then [pid] + old(turnQueue)
                           else old(turnQueue) + [pid]
      ensures results.Some? ==>
        && IsRanking(playerScores[..], results.value)
        && highScores.Best(playerNames[pid - 1]) ==
             Max(old(highScores.Best(playerNames[pid - 1])), playerScores[pid - 1])
      ensures forall name :: ToLower(name) != ToLower(playerNames[pid - 1]) ==>
        highScores.Best(name) == old(highScores.Best(name))
      ensures pos != LAST ==> highScores.scores == old(highScores.scores)
    {
      Push(stacks, pid, pos);
      stacks := stacks[pid - 1 := stacks[pid - 1] + [pos]];
      AddPoints(pid, pos);
      if pos == LAST {
        results := GameOver(pid);
        return;
      }
      results := None;
      PassTurn(pid, pos);
    }

    /**
      The rest of finalizeTurn when the game goes on: the player moves again at once on
      a multiple of 5 other than 1 and queues at the back otherwise; input is enabled.
     */
    method PassTurn(pid: int, pos: int)
      requires Between() && !Finished() && !inputEnabled && |stacks| > 0
      requires 1 <= pid <= |stacks| && multiset(turnQueue) + multiset{pid} == Players(|stacks|)
      modifies this
      ensures Valid() && inputEnabled
      ensures turnQueue == if pos % 5 == 0 && pos != 1 then [pid] + old(turnQueue) else old(turnQueue) + [pid]
      ensures stacks == old(stacks) && playerScores == old(playerScores)
      ensures playerNames == old(playerNames) && shortcuts == old(shortcuts)
    {
      Requeue(|stacks|, turnQueue, pid, pos % 5 == 0 && pos != 1);
      if pos % 5 == 0 && pos != 1 {
        turnQueue := [pid] + turnQueue;
      } else {
        turnQueue := turnQueue + [pid];
      }
      inputEnabled := true;
    }

    /** The scoring step of finalizeTurn: the points of cell `pos` go to player `pid` alone. */
    method AddPoints(pid: int, pos: int)
      requires Numbered(board) && Rewarded(board)
      requires 1 <= pid <= playerScores.Length && 1 <= pos <= LAST
      requires forall i :: 0 <= i < playerScores.Length ==> playerScores[i] >= 0
      modifies playerScores
      ensures playerScores[pid - 1] == old(playerScores[pid - 1]) + RewardOf(board, pos)
      ensures forall i :: 0 <= i < playerScores.Length && i != pid - 1 ==> playerScores[i] == old(playerScores[i])
      ensures forall i :: 0 <= i < playerScores.Length ==> playerScores[i] >= 0
    {
      var pts := GetPointOfNode(board, pos);
      playerScores[pid - 1] := playerScores[pid - 1] + pts;
    }

    /**
      The end of the game in finalizeTurn: the winner's score is offered to the high-score
      table under the winner's name, and the standings of the game-over dialog are returned.
     */
    method GameOver(pid: int) returns (results: Option<seq<int>>)
      requires 1 <= pid <= |playerNames| == playerScores.Length
      modifies highScores
      ensures results.Some? && IsRanking(playerScores[..], results.value)
      ensures highScores.Best(playerNames[pid - 1]) ==
        Max(old(highScores.Best(playerNames[pid - 1])), playerScores[pid - 1])
      ensures forall name :: ToLower(name) != ToLower(playerNames[pid - 1]) ==>
        highScores.Best(name) == old(highScores.Best(name))
    {
      highScores.SaveScore(playerNames[pid - 1], playerScores[pid - 1]);
      var rk := Rank(playerScores[..]);
      results := Some(rk);
    }

    /**
      What one turn does, from the state before it (`old`) to the state after it: the
      front player `who` leaves the queue and ends on `dest`, FinalCell of the roll from
      its current cell; `dest` is pushed on that player's stack alone and its points go
      to that player's score alone; names and shortcuts are kept. On the last cell the
      game ends: input stays off, the player is not queued again, the standings are
      returned and the player's best is saved, every other name keeping its best.
      Otherwise the player is queued at the front on a multiple of 5 (other than 1) and
      at the back otherwise, input is enabled and the high-score table is untouched.
     */
    twostate predicate TurnTaken(val: nat, green: bool, new results: Option<seq<int>>, who: int, dest: int)
      reads this, board, playerScores, highScores
    {
      && old(|turnQueue|) > 0 && who == old(turnQueue[0])
      && 1 <= who <= old(|stacks|) && old(|stacks[who - 1]|) > 0
      && |stacks| == old(|stacks|) == |playerNames| == playerScores.Length
      && board.Length0 == SIZE && board.Length1 == SIZE
      && dest == FinalCell(Top(old(stacks[who - 1])), val, green, old(shortcuts)) && 1 <= dest <= LAST
      && stacks == old(stacks)[who - 1 := old(stacks[who - 1]) + [dest]]
      && playerScores == old(playerScores)
      && playerScores[who - 1] == old(playerScores[who - 1]) + RewardOf(board, dest)
      && (forall i :: 0 <= i < playerScores.Length && i != who - 1 ==> playerScores[i] == old(playerScores[i]))
      && playerNames == old(playerNames) && shortcuts == old(shortcuts)
      && (inputEnabled <==> dest != LAST)
      && turnQueue == (if dest == LAST then old(turnQueue[1..])
                       else if dest % 5 == 0 && dest != 1 then [who] + old(turnQueue[1..])
                       else old(turnQueue[1..]) + [who])
      && (results.Some? <==> dest == LAST)
      && (results.Some? ==>
            && IsRanking(playerScores[..], results.value)
            && highScores.Best(playerNames[who - 1]) ==
                 Max(old(highScores.Best(playerNames[who - 1])), playerScores[who - 1]))
      && (forall name :: ToLower(name) != ToLower(playerNames[who - 1]) ==>
            highScores.Best(name) == old(highScores.Best(name)))
      && (dest != LAST ==> highScores.scores == old(highScores.scores))
    }

    /**
      execLogic: the front player leaves the queue and rolls `val` forward when `green`,
      backward otherwise; the walk from the current cell is cut at the first link that
      fires, and the turn is finalized on the cell reached. The ghost results name the
      mover and the cell for the contracts of the callers.
     */
    method ExecLogic(val: int, green: bool) returns (results: Option<seq<int>>, ghost who: int, ghost dest: int)
      requires Between() && Full() && !Finished() && !inputEnabled && |turnQueue| > 0
      requires 1 <= val <= 6
      modifies this, playerScores, highScores
      ensures Valid()
      ensures TurnTaken(val, green, results, who, dest)
    {
      Dequeue(|stacks|, turnQueue);
      var pid := turnQueue[0];
      turnQueue := turnQueue[1..];
      var pos := ResolveMove(Top(stacks[pid - 1]), val, green, shortcuts);
      results := FinalizeTurn(pid, pos);
      who, dest := pid, pos;
    }

    /**
      playTurn: nothing happens with an empty queue; otherwise input is switched off
      for the duration of the turn and the turn is executed with the rolled value.
     */
    method PlayTurn(val: int, green: bool) returns (results: Option<seq<int>>, ghost who: int, ghost dest: int)
      requires Valid() && !Finished() && 1 <= val <= 6
      modifies this, playerScores, highScores
      ensures Valid()
      ensures old(turnQueue) == [] ==> results == None && unchanged(this, highScores) && unchanged(old(playerScores))
      ensures old(turnQueue) != [] ==> TurnTaken(val, green, results, who, dest)
    {
      who, dest := 0, 0;
      if |turnQueue| == 0 {
        return None, who, dest;
      }
      inputEnabled := false;
      results, who, dest := ExecLogic(val, green);
    }

    /**
      The dice click and the Enter key: a turn is played only while input is enabled, so
      a request during a turn (the dice roll or the walk still under way, where only
      Between holds), before the first game or after the game is over changes nothing.
     */
    method RequestTurn(val: int, green: bool) returns (results: Option<seq<int>>, ghost who: int, ghost dest: int)
      requires Between() && (inputEnabled ==> Valid()) && 1 <= val <= 6
      modifies this, playerScores, highScores
      ensures old(Valid()) ==> Valid()
      ensures !old(inputEnabled) ==> results == None && unchanged(this, highScores) && unchanged(old(playerScores))
      ensures old(inputEnabled) ==> TurnTaken(val, green, results, who, dest)
    {
      results, who, dest := None, 0, 0;
      if inputEnabled {
        FullQueue(|stacks|, turnQueue);
        results, who, dest := PlayTurn(val, green);
      }
    }
  }
}
