/**
 * A line of a binary-package proof (reasoning2 ProofLine): a clause and the
 * operation that produced it, rendered with the operation starting in
 * column 20 when the clause's rendering is shorter than that.
 */
module BinaryProofLine {
  import opened Text
  import opened Clauses

  datatype ProofLine = ProofLine(main: Clause, operation: string)

  /** The column the operation starts in when the clause's rendering leaves room. */
  const Column: int := 20

  function GetMain(line: ProofLine): (r: Clause)
    ensures r == line.main
  {
    line.main
  }

  /** The spaces after a clause rendered with `n` characters: 20 - n of them, none when n >= 20. */
  method Spaces(n: nat) returns (spaces: string)
    ensures |spaces| == if n < Column then Column - n else 0
    ensures forall k :: 0 <= k < |spaces| ==> spaces[k] == ' '
  {
    var j := Column - n;
    spaces := "";
    var i := 0;
    while i < j
      invariant 0 <= i && (j <= 0 ==> i == 0) && (j > 0 ==> i <= j)
      invariant |spaces| == i
      invariant forall k :: 0 <= k < i ==> spaces[k] == ' '
    {
      spaces := spaces + " ";
      i := i + 1;
    }
  }

  /**
   * The line's text: the clause as `render` writes it, padding, then the
   * operation. `render` stands for HashSet.toString, whose order is the
   * hash table's.
   */
  method ToString(line: ProofLine, render: Clause -> string) returns (s: string)
    ensures var text := render(line.main); var pad := if |text| < Column then Column - |text| else 0;
      |s| == |text| + pad + |line.operation| &&
      s[..|text|] == text &&
      (forall k :: |text| <= k < |text| + pad ==> s[k] == ' ') &&
      s[|text| + pad..] == line.operation
  {
    var text := render(line.main);
    var spaces := Spaces(|text|);
    s := text + spaces + line.operation;
    assert s[..|text|] == text;
    assert s[|text| + |spaces|..] == line.operation;
  }
}
