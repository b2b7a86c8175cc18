/** The record of a resolution proof: numbered lines and a verdict. */
module ResolutionProof {
  import opened Wrappers
  import opened Text
  import opened Clauses

  /** A proof line: the clause it derives and where it came from ("" for an input clause). */
  datatype ProofLine = ProofLine(main: Clause, provenance: string)

  /** The two verdicts a finished resolution proof records. */
  datatype Verdict = Satisfiable | Unsatisfiable

  const Header := "======= RESOLUTION PROOF ========"
  const Footer := "\n======== PROOF CONCLUDES ========"

  /** The lines numbered from `first`, each on its own line as "n: line". */
  function NumberedLines(lines: seq<ProofLine>, first: nat, render: ProofLine -> string): string
    decreases |lines|
  {
    if |lines| == 0 then ""
    else NumberedLines(lines[..|lines| - 1], first, render) + "\n" + NatToString(first + |lines| - 1) + ": " + render(lines[|lines| - 1])
  }

  /** The closing message of each verdict; none while the proof is unfinished. */
  function VerdictText(result: Option<Verdict>): string
  {
    match result
    case Some(Satisfiable) => "\nNo more clauses to resolve\nNegation satisfiable"
    case Some(Unsatisfiable) => "\nContradiction found!\nNegation unsatisfiable"
    case None => ""
  }

  /** The whole rendering: header, the lines numbered from 1, the verdict message, footer. */
  function ProofText(lines: seq<ProofLine>, result: Option<Verdict>, render: ProofLine -> string): string
  {
    Header + NumberedLines(lines, 1, render) + VerdictText(result) + Footer
  }

  /** Numbering one more line appends it under the next number. */
  lemma {:induction false} NumberedLinesSnoc(lines: seq<ProofLine>, i: nat, render: ProofLine -> string)
    requires i < |lines|
    ensures NumberedLines(lines[..i + 1], 1, render) == NumberedLines(lines[..i], 1, render) + ("\n" + NatToString(i + 1) + ": " + render(lines[i]))
  {
    assert lines[..i + 1][..i] == lines[..i];
  }

  class ResolutionProof {
    var lines: seq<ProofLine>
    var result: Option<Verdict>

    /** An empty proof with no verdict. */
    constructor()
      ensures lines == [] && result == None
    {
      lines := [];
      result := None;
    }

    /** A proof with the given lines and verdict. */
    constructor WithLines(lines: seq<ProofLine>, result: Option<Verdict>)
      ensures this.lines == lines && this.result == result
    {
      this.lines := lines;
      this.result := result;
    }

    /**
     * The 1-based number of the first line deriving `query`, or -1 when no
     * line derives it.
     */
    method GetLine(query: Clause) returns (n: int)
      ensures n == -1 <==> forall k :: 0 <= k < |lines| ==> lines[k].main != query
      ensures n != -1 ==> 1 <= n <= |lines| && lines[n - 1].main == query
      ensures n != -1 ==> forall k :: 0 <= k < n - 1 ==> lines[k].main != query
    {
      var i := 1;
      while i <= |lines|
        invariant 1 <= i <= |lines| + 1
        invariant forall k :: 0 <= k < i - 1 ==> lines[k].main != query
      {
        if lines[i - 1].main == query {
          return i;
        }
        i := i + 1;
      }
      return -1;
    }

    /** Appends a line. */
    method AddLine(newLine: ProofLine)
      modifies this
      ensures lines == old(lines) + [newLine] && result == old(result)
    {
      lines := lines + [newLine];
    }

    /** Records the verdict. */
    method SetResult(r: Verdict)
      modifies this
      ensures result == Some(r) && lines == old(lines)
    {
      result := Some(r);
    }

    function GetResult(): (r: Option<Verdict>)
      reads this
      ensures r == result
    {
      result
    }

    /** Renders the proof as ProofText describes, numbering the lines from 1. */
    method ToString(render: ProofLine -> string) returns (s: string)
      ensures s == ProofText(lines, result, render)
    {
      s := Header;
      var lineNo := 1;
      for i := 0 to |lines|
        invariant lineNo == i + 1
        invariant s == Header + NumberedLines(lines[..i], 1, render)
      {
        ghost var prefix := NumberedLines(lines[..i], 1, render);
        var line := "\n" + NatToString(lineNo) + ": " + render(lines[i]);
        NumberedLinesSnoc(lines, i, render);
        s := s + line;
        assert s == Header + (prefix + line);
        lineNo := lineNo + 1;
      }
      assert lines[..|lines|] == lines;
      s := s + VerdictText(result);
      s := s + Footer;
    }
  }
}
