/**
  The shortcut table that genShortcuts builds by rejection sampling: candidate pairs
  (a, b) are drawn from [2, 63] and min(a, b) -> max(a, b) is inserted when it passes
  the checks, until the table holds five links.
 */
module Links {
  import opened Wrappers

  const LINKS: nat := 5
  const LOW: int := 2
  const HIGH: int := 63

  /** A drawn candidate pair: `random.nextInt(62) + 2` twice. */
  predicate InDrawRange(pair: (int, int))
  {
    LOW <= pair.0 <= HIGH && LOW <= pair.1 <= HIGH
  }

  predicate AllInDrawRange(draws: seq<(int, int)>)
  {
    forall i :: 0 <= i < |draws| ==> InDrawRange(draws[i])
  }

  /** Every link goes upwards from a source to a target, both within [2, 63]. */
  ghost predicate WellFormed(table: map<int, int>)
  {
    forall n :: n in table ==> LOW <= n < table[n] <= HIGH
  }

  /**
    The acceptance test at line 498: the two draws differ and their minimum is neither
    a source nor a target already. The maximum is not checked, so a new target may be
    an existing source.
   */
  predicate Accepts(table: map<int, int>, a: int, b: int)
  {
    a != b && Min(a, b) !in table && Min(a, b) !in table.Values
  }

  /**
    One round of the sampling loop. An accepted pair adds exactly the link
    min -> max and leaves every existing link as it was; a rejected pair changes
    nothing; a well-formed table stays well-formed.
   */
  function Offer(table: map<int, int>, a: int, b: int): (r: map<int, int>)
    ensures forall n :: n in table ==> n in r && r[n] == table[n]
    ensures Accepts(table, a, b) ==> r.Keys == table.Keys + {Min(a, b)} && r[Min(a, b)] == Max(a, b)
    ensures !Accepts(table, a, b) ==> r == table
    ensures |r| == if Accepts(table, a, b) then |table| + 1 else |table|
    ensures WellFormed(table) && InDrawRange((a, b)) ==> WellFormed(r)
  {
    if Accepts(table, a, b) then table[Min(a, b) := Max(a, b)] else table
  }

  /**
    The table the sampling loop ends with when it is fed the candidate stream `draws`
    starting from `table`; None when the stream runs out before five links exist
    (the source would keep drawing).
   */
  function Fill(table: map<int, int>, draws: seq<(int, int)>): Option<map<int, int>>
    decreases |draws|
  {
    if |table| >= LINKS then Some(table)
    else if draws == [] then None
    else Fill(Offer(table, draws[0].0, draws[0].1), draws[1..])
  }

  /**
    Whatever the loop ends with holds exactly five links, all well-formed, and keeps
    every link it started with.
   */
  lemma {:induction false} FillResult(table: map<int, int>, draws: seq<(int, int)>)
    requires WellFormed(table) && |table| <= LINKS && AllInDrawRange(draws)
    ensures Fill(table, draws).Some? ==>
      var t := Fill(table, draws).value;
      |t| == LINKS && WellFormed(t) && forall n :: n in table ==> n in t && t[n] == table[n]
    decreases |draws|
  {
    if |table| < LINKS && draws != [] {
      var next := Offer(table, draws[0].0, draws[0].1);
      assert InDrawRange(draws[0]);
      FillResult(next, draws[1..]);
    }
  }

  /**
    genShortcuts: starting from an empty table, consumes candidate pairs until five
    links exist. The stream must contain enough acceptable pairs, which is exactly
    when the source's loop terminates.
   */
  method GenShortcuts(draws: seq<(int, int)>) returns (table: map<int, int>)
    requires AllInDrawRange(draws)
    requires Fill(map[], draws).Some?
    ensures Fill(map[], draws) == Some(table)
    ensures |table| == LINKS && WellFormed(table)
  {
    table := map[];
    var i := 0;
    while |table| < LINKS
      invariant 0 <= i <= |draws|
      invariant Fill(table, draws[i..]) == Fill(map[], draws)
      decreases |draws| - i
    {
      var a, b := draws[i].0, draws[i].1;
      if a != b && Min(a, b) !in table && Min(a, b) !in table.Values {
        table := table[Min(a, b) := Max(a, b)];
      }
      assert draws[i..][1..] == draws[i + 1..];
      i := i + 1;
    }
    FillResult(map[], draws);
  }

  /** Chained links can arise: after 10 -> 20, the pair (5, 10) is accepted and gives 5 -> 10. */
  lemma ChainedTableArises()
    ensures Accepts(map[10 := 20], 5, 10)
    ensures Offer(map[10 := 20], 5, 10) == map[10 := 20, 5 := 10]
  {
  }
}
