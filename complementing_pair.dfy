/** Two clauses with a complementary pair of literals between them, fixed once built. */
module ComplementingPair {
  import opened Clauses

  datatype ComplementingPair = ComplementingPair(first: Clause, second: Clause)

  function GetFirst(p: ComplementingPair): Clause
  {
    p.first
  }

  function GetSecond(p: ComplementingPair): Clause
  {
    p.second
  }

  /** The accessors give back the clauses the pair was built from. */
  lemma Accessors(c1: Clause, c2: Clause)
    ensures GetFirst(ComplementingPair(c1, c2)) == c1
    ensures GetSecond(ComplementingPair(c1, c2)) == c2
  {
  }

  /** The first clause's rendering, ", ", then the second's. */
  function ToString(p: ComplementingPair, render: Clause -> string): (s: string)
    ensures |s| == |render(p.first)| + 2 + |render(p.second)|
    ensures s[..|render(p.first)|] == render(p.first)
    ensures s[|render(p.first)|..|render(p.first)| + 2] == ", "
    ensures s[|render(p.first)| + 2..] == render(p.second)
  {
    render(p.first) + ", " + render(p.second)
  }
}
