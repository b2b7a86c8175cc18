/** The connectives of the n-ary package and their textual tokens. */
module Terminal {
  import opened Wrappers

  datatype Terminal = Not | And | Or | Implication | Equivalence

  /** The token a connective is written as. */
  function ToString(t: Terminal): (s: string)
    ensures |s| > 0 && (s[0] == '-' <==> t == Not || t == Implication)
  {
    match t
    case Not => "-"
    case And => "&"
    case Or => "|"
    case Implication => "->"
    case Equivalence => "<->"
  }

  /** The connective a token names; None (Java's null) for any other string. */
  function FromString(s: string): (r: Option<Terminal>)
    ensures r.Some? ==> ToString(r.value) == s
  {
    if s == "-" then Some(Not)
    else if s == "&" then Some(And)
    else if s == "|" then Some(Or)
    else if s == "->" then Some(Implication)
    else if s == "<->" then Some(Equivalence)
    else None
  }

  /** Reading back a written connective gives the connective. */
  lemma FromStringToString(t: Terminal)
    ensures FromString(ToString(t)) == Some(t)
  {
  }

  /** FromString returns null exactly for strings that are no connective's token. */
  lemma FromStringNull(s: string)
    ensures FromString(s).None? <==> forall t: Terminal :: ToString(t) != s
  {
    if FromString(s).None? {
      forall t: Terminal ensures ToString(t) != s {
        FromStringToString(t);
      }
    }
  }

  /** The five tokens are distinct. */
  lemma ToStringInjective(t1: Terminal, t2: Terminal)
    ensures ToString(t1) == ToString(t2) ==> t1 == t2
  {
    FromStringToString(t1);
    FromStringToString(t2);
  }
}
