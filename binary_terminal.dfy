/**
 * The connectives of the binary package (reasoning2) and their textual
 * tokens. The connectives are the same five as in the n-ary package; the
 * tokens differ, and reading a token back is not the inverse of writing it
 * for AND and OR.
 */
module BinaryTerminal {
  import opened Wrappers
  import opened Terminal

  /** The token a connective is written as. */
  function ToString(t: Terminal): (s: string)
    ensures |s| > 0 && (s[0] == '¬' <==> t == Not)
    ensures |s| == 2 && s[0] == s[1] <==> t == And || t == Or
  {
    match t
    case Not => "¬"
    case And => "&&"
    case Or => "||"
    case Implication => "->"
    case Equivalence => "<->"
  }

  /**
   * The connective a token names; None (Java's null) for any other string.
   * Conjunction and disjunction are read from the single characters "&" and
   * "|", which is how the parser's connective pattern finds them.
   */
  function FromString(s: string): (r: Option<Terminal>)
    ensures r.Some? ==> (r.value == And || r.value == Or <==> |s| == 1 && s != "¬")
  {
    if s == "¬" then Some(Not)
    else if s == "&" then Some(And)
    else if s == "|" then Some(Or)
    else if s == "->" then Some(Implication)
    else if s == "<->" then Some(Equivalence)
    else None
  }

  /** Reading back a written connective gives it back for NOT and the arrows. */
  lemma FromStringToString(t: Terminal)
    ensures t != And && t != Or ==> FromString(ToString(t)) == Some(t)
    ensures t == And || t == Or ==> FromString(ToString(t)) == None
  {
  }

  /** FromString returns null exactly for strings other than the five accepted tokens. */
  lemma FromStringNull(s: string)
    ensures FromString(s).None? <==> s !in ["¬", "&", "|", "->", "<->"]
  {
  }

  /** The five tokens are distinct. */
  lemma ToStringInjective(t1: Terminal, t2: Terminal)
    ensures ToString(t1) == ToString(t2) ==> t1 == t2
  {
    if ToString(t1) == ToString(t2) {
      if t1 == And || t1 == Or {
        assert ToString(t1)[0] == ToString(t2)[0];
      } else {
        FromStringToString(t1);
        FromStringToString(t2);
      }
    }
  }
}
