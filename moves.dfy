/**
  Move resolution of one turn: the primality gate (isPrime), the unit-step walk
  (genPath), the link scan of execLogic and the cell the player ends on.
 */
module Moves {
  import opened Wrappers
  import opened Board

  /** `d` is a positive divisor of `n`. */
  predicate Divides(d: int, n: int)
  {
    d > 0 && n % d == 0
  }

  /** The textbook definition: above 1 and no divisor strictly between 1 and itself. */
  ghost predicate Prime(n: int)
  {
    n > 1 && forall d :: 2 <= d < n ==> !Divides(d, n)
  }

  /** Multiplying by a non-negative factor keeps the order. */
  lemma MulMonotone(a: int, b: int, k: int)
    requires a <= b && 0 <= k
    ensures a * k <= b * k
  {
    assert b * k - a * k == (b - a) * k;
  }

  /** A multiple of a positive number leaves no remainder. */
  lemma MultipleDivides(e: int, q: int)
    requires e > 0 && q >= 0
    ensures Divides(e, e * q)
  {
    var n := e * q;
    var r := n % e;
    var k := n / e;
    assert n == e * k + r && 0 <= r < e;
    assert e * (q - k) == r;
    if q - k >= 1 {
      MulMonotone(1, q - k, e);
    } else if q - k <= -1 {
      MulMonotone(q - k, -1, e);
    }
  }

  /** A divisor of `n` between 2 and n-1 gives one below any `i` with i * i > n. */
  lemma DivisorBelowRoot(n: int, d: int, i: int)
    requires 2 <= d < n && Divides(d, n)
    requires 2 <= i && n < i * i
    ensures exists e :: 2 <= e < i && Divides(e, n)
  {
    var e := n / d;
    assert n == d * e;
    assert e >= 2 by {
      if e <= 1 {
        MulMonotone(e, 1, d);
      }
    }
    if d < i {
      assert Divides(d, n);
    } else {
      if e >= i {
        MulMonotone(i, e, d);
        MulMonotone(i, d, i);
        assert false;
      }
      assert d * e == e * d;
      MultipleDivides(e, d);
      assert Divides(e, n);
    }
  }

  /**
    isPrime: trial division by 2, 3, ... while i * i <= n; numbers up to 1 are not prime.
    It agrees with the definition by all divisors.
   */
  method IsPrime(n: int) returns (b: bool)
    ensures b <==> Prime(n)
  {
    if n <= 1 {
      return false;
    }
    var i := 2;
    while i * i <= n
      invariant 2 <= i
      invariant forall d :: 2 <= d < i ==> !Divides(d, n)
      decreases n - i
    {
      assert i < n by {
        assert i * i >= 2 * i;
      }
      if n % i == 0 {
        assert Divides(i, n);
        return false;
      }
      i := i + 1;
    }
    forall d | 2 <= d < n
      ensures !Divides(d, n)
    {
      if Divides(d, n) {
        DivisorBelowRoot(n, d, i);
        assert false;
      }
    }
    return true;
  }

  /** Math.abs of the signed step count. */
  function Abs(x: int): nat
  {
    if x < 0 then -x else x
  }

  /** The walking direction genPath uses: +1 for a positive count, -1 otherwise (also for 0). */
  function Dir(st: int): int
  {
    if st > 0 then 1 else -1
  }

  /**
    The cells genPath records when it takes up to `m` unit steps in direction `d` from
    cell `c`: the walk stops as soon as the current cell is LAST, and a step back from
    cell 1 stays on 1 but is still recorded.
   */
  function Path(c: int, m: nat, d: int): seq<int>
    decreases m
  {
    if m == 0 || c == LAST then []
    else
      var next := if c == 1 && d == -1 then c else c + d;
      [next] + Path(next, m - 1, d)
  }

  /**
    genPath: the imperative walk. It returns Path(s, |st|, direction of st), so at
    most |st| cells.
   */
  method GenPath(s: int, st: int) returns (p: seq<int>)
    ensures p == Path(s, Abs(st), Dir(st))
    ensures |p| <= Abs(st)
  {
    p := [];
    var c, m, d := s, Abs(st), Dir(st);
    for i := 0 to m
      invariant |p| == i
      invariant p + Path(c, m - i, d) == Path(s, m, d)
    {
      if c == LAST {
        break;
      }
      ghost var prev := c;
      if c == 1 && d == -1 {
      } else {
        c := c + d;
      }
      assert Path(prev, m - i, d) == [c] + Path(c, m - i - 1, d);
      p := p + [c];
    }
  }

  /** One recorded step: exactly one cell in direction `d`, except that a step back from cell 1 stays on 1. */
  predicate Step(prev: int, next: int, d: int)
  {
    next == prev + d || (d == -1 && prev == 1 && next == 1)
  }

  /**
    From a cell of the board, a walk of `m` steps records at most `m` cells, all on the
    board, each one step from the one before (the first one step from `c`), and LAST
    can only be the final cell recorded.
   */
  lemma {:induction false} PathShape(c: int, m: nat, d: int)
    requires 1 <= c <= LAST && (d == 1 || d == -1)
    decreases m
    ensures var p := Path(c, m, d);
      && |p| <= m
      && (forall i :: 0 <= i < |p| ==> 1 <= p[i] <= LAST)
      && (|p| > 0 ==> Step(c, p[0], d))
      && (forall i :: 0 < i < |p| ==> Step(p[i - 1], p[i], d))
      && (forall i :: 0 <= i < |p| - 1 ==> p[i] != LAST)
  {
    if m > 0 && c != LAST {
      var next := if c == 1 && d == -1 then c else c + d;
      PathShape(next, m - 1, d);
      var rest := Path(next, m - 1, d);
      assert Path(c, m, d) == [next] + rest;
      assert rest != [] ==> next != LAST;
    }
  }

  /** A forward walk from `c` records exactly c+1, c+2, ..., min(c+m, LAST). */
  lemma {:induction false} ForwardPath(c: int, m: nat)
    requires 1 <= c <= LAST
    ensures Path(c, m, 1) == seq(Min(m, LAST - c), i => c + i + 1)
    decreases m
  {
    if m > 0 && c != LAST {
      ForwardPath(c + 1, m - 1);
      var tail := seq(Min(m - 1, LAST - c - 1), i => c + 1 + i + 1);
      assert Path(c, m, 1) == [c + 1] + tail;
      assert [c + 1] + tail == seq(Min(m, LAST - c), i => c + i + 1);
    }
  }

  /**
    A backward walk from a cell below LAST records all `m` steps, the i-th at
    max(c - i - 1, 1): it never goes below cell 1 and keeps recording 1 there.
   */
  lemma {:induction false} BackwardPath(c: int, m: nat)
    requires 1 <= c < LAST
    ensures Path(c, m, -1) == seq(m, i => Max(c - i - 1, 1))
    decreases m
  {
    if m > 0 {
      var next := if c == 1 then c else c - 1;
      BackwardPath(next, m - 1);
      var tail := seq(m - 1, i => Max(next - i - 1, 1));
      assert Path(c, m, -1) == [next] + tail;
      assert [next] + tail == seq(m, i => Max(c - i - 1, 1));
    }
  }

  /** From the winning cell the walk is empty in either direction, and so it is for zero steps. */
  lemma EmptyWalks(c: int, m: nat, d: int)
    ensures Path(LAST, m, d) == []
    ensures Path(c, 0, d) == []
  {
  }

  /**
    The link test at line 563 for a cell `n` of the walk: `n` is a link source, the
    start cell `cur` was prime, and `n` lies fewer than `val` cells beyond `cur`.
   */
  predicate Fires(n: int, cur: int, val: int, prime: bool, shortcuts: map<int, int>)
  {
    n in shortcuts && prime && val > n - cur
  }

  /** Index of the first cell of `path` at which a link fires; |path| when none does. */
  function FirstLink(path: seq<int>, cur: int, val: int, prime: bool, shortcuts: map<int, int>): (k: nat)
    ensures k <= |path|
    ensures forall i :: 0 <= i < k ==> !Fires(path[i], cur, val, prime, shortcuts)
    ensures k < |path| ==> Fires(path[k], cur, val, prime, shortcuts)
    decreases |path|
  {
    if path == [] || Fires(path[0], cur, val, prime, shortcuts) then 0
    else 1 + FirstLink(path[1..], cur, val, prime, shortcuts)
  }

  /**
    The scan loop of execLogic (run for forward rolls only): the first cell at which a
    link fires cuts the walk after that cell and yields the link target; when no cell
    fires the walk is kept whole and there is no target (the source's -1).
   */
  method ScanForLink(path: seq<int>, cur: int, val: int, prime: bool, shortcuts: map<int, int>)
    returns (cut: seq<int>, link: Option<int>)
    ensures var k := FirstLink(path, cur, val, prime, shortcuts);
      if k < |path| then cut == path[..k + 1] && link == Some(shortcuts[path[k]])
      else cut == path && link == None
  {
    cut, link := path, None;
    for i := 0 to |path|
      invariant cut == path && link == None
      invariant forall j :: 0 <= j < i ==> !Fires(path[j], cur, val, prime, shortcuts)
    {
      var n := path[i];
      if n in shortcuts && prime && val > n - cur {
        link := Some(shortcuts[n]);
        cut := path[..i + 1];
        assert Fires(path[i], cur, val, prime, shortcuts);
        return;
      }
    }
  }

  /** The walk execLogic generates for a roll of `val`: forward on green, backward otherwise. */
  function RollPath(cur: int, val: nat, green: bool): seq<int>
  {
    Path(cur, val, if green then 1 else -1)
  }

  /** A link is taken on this roll. */
  ghost predicate Linked(cur: int, val: nat, green: bool, shortcuts: map<int, int>)
  {
    green && FirstLink(RollPath(cur, val, green), cur, val, Prime(cur), shortcuts) < |RollPath(cur, val, green)|
  }

  /**
    The cell a turn ends on (execLogic, line 573 and the link jump at 582): the link
    target when a link was taken, otherwise the last cell walked, or the start cell
    when nothing was walked.
   */
  ghost function FinalCell(cur: int, val: nat, green: bool, shortcuts: map<int, int>): int
  {
    var path := RollPath(cur, val, green);
    if Linked(cur, val, green, shortcuts) then
      shortcuts[path[FirstLink(path, cur, val, Prime(cur), shortcuts)]]
    else if path == [] then cur
    else path[|path| - 1]
  }

  /**
    The link rule in the board's terms, for a start cell below LAST. A link is taken
    exactly when the roll is green, the start cell is prime and some link source lies
    strictly less than `val` cells ahead (so a source reached by the roll's last step
    never fires); then the turn ends on the target of the nearest such source.
    Otherwise the turn ends min(cur + val, LAST) forward or max(cur - val, 1) backward.
   */
  lemma LinkRule(cur: int, val: nat, green: bool, shortcuts: map<int, int>)
    requires 1 <= cur < LAST
    ensures Linked(cur, val, green, shortcuts) <==>
      green && Prime(cur) && exists n :: cur < n < cur + val && n <= LAST && n in shortcuts
    ensures Linked(cur, val, green, shortcuts) ==>
      exists n :: cur < n < cur + val && n <= LAST && n in shortcuts &&
        FinalCell(cur, val, green, shortcuts) == shortcuts[n] &&
        forall n' :: cur < n' < n ==> n' !in shortcuts
    ensures !Linked(cur, val, green, shortcuts) ==>
      FinalCell(cur, val, green, shortcuts) == if green then Min(cur + val, LAST) else Max(cur - val, 1)
  {
    var path := RollPath(cur, val, green);
    var prime := Prime(cur);
    var k := FirstLink(path, cur, val, prime, shortcuts);
    if green {
      ForwardPath(cur, val);
      var len := Min(val, LAST - cur);
      assert |path| == len;
      assert forall i :: 0 <= i < len ==> path[i] == cur + i + 1;
      if k < |path| {
        var n := path[k];
        assert cur < n < cur + val && n <= LAST && n in shortcuts;
        forall n' | cur < n' < n
          ensures n' !in shortcuts
        {
          var i := n' - cur - 1;
          assert path[i] == n' && !Fires(path[i], cur, val, prime, shortcuts);
        }
      } else {
        forall n | cur < n < cur + val && n <= LAST && prime
          ensures n !in shortcuts
        {
          var i := n - cur - 1;
          assert path[i] == n && !Fires(path[i], cur, val, prime, shortcuts);
        }
      }
    } else {
      BackwardPath(cur, val);
    }
  }

  /** Every link target lies on the board. */
  ghost predicate TargetsOnBoard(shortcuts: map<int, int>)
  {
    forall n :: n in shortcuts ==> 1 <= shortcuts[n] <= LAST
  }

  /** A turn started on the board ends on the board. */
  lemma FinalCellOnBoard(cur: int, val: nat, green: bool, shortcuts: map<int, int>)
    requires 1 <= cur <= LAST && TargetsOnBoard(shortcuts)
    ensures 1 <= FinalCell(cur, val, green, shortcuts) <= LAST
  {
    PathShape(cur, val, if green then 1 else -1);
  }

  /**
    The move part of execLogic (lines 546-573 and the jump at 582): the primality of
    the start cell, the walk of `val` cells (backward when the roll is red), the link
    scan on forward rolls, and the cell the turn ends on, which is FinalCell.
   */
  method ResolveMove(cur: int, val: nat, green: bool, shortcuts: map<int, int>) returns (pos: int)
    ensures pos == FinalCell(cur, val, green, shortcuts)
    ensures 1 <= cur <= LAST && TargetsOnBoard(shortcuts) ==> 1 <= pos <= LAST
  {
    var prime := IsPrime(cur);
    var step := if green then val as int else -(val as int);
    var path := GenPath(cur, step);
    assert path == RollPath(cur, val, green);
    var link: Option<int> := None;
    if green {
      path, link := ScanForLink(path, cur, val, prime, shortcuts);
    }
    var end := if path == [] then cur else path[|path| - 1];
    pos := if link.Some? then link.value else end;
    if 1 <= cur <= LAST && TargetsOnBoard(shortcuts) {
      FinalCellOnBoard(cur, val, green, shortcuts);
    }
  }

  /** Sample walks: a plain forward roll, the floor at cell 1, the stop at LAST. */
  lemma WalkScenarios()
    ensures Path(1, 3, 1) == [2, 3, 4]
    ensures Path(1, 3, -1) == [1, 1, 1]
    ensures Path(LAST, 2, 1) == []
  {
  }

  /**
    Sample links, with the table {5 -> 20}: from prime cell 3 a roll of 5 passes 5 and
    jumps to 20; from 4 (not prime) the same roll walks on to 9; from 3 a roll of 2
    lands on 5 with its last step and stays there.
   */
  lemma LinkScenarios()
    ensures FinalCell(3, 5, true, map[5 := 20]) == 20
    ensures FinalCell(4, 5, true, map[5 := 20]) == 9
    ensures FinalCell(3, 2, true, map[5 := 20]) == 5
  {
    var table := map[5 := 20];
    assert !Divides(2, 3);
    assert Prime(3);
    assert Divides(2, 4);
    assert 5 in table;
    LinkRule(3, 5, true, table);
    LinkRule(4, 5, true, table);
    LinkRule(3, 2, true, table);
  }
}
