/** The interpretation the Davis-Putnam procedure builds: a truth value per atom name. */
module LogicModel {
  import opened Text
  import opened Clauses

  /** The key under which an atom is stored: its name with no negation. */
  function Key(name: string): Literal
  {
    Literal(name, 0)
  }

  /** Every key of `m` is an un-negated atom, as addAtom stores them. */
  ghost predicate KeysAreAtoms(m: map<Literal, bool>)
  {
    forall k :: k in m ==> k.negs == 0
  }

  /** `v` gives every atom of `m` the value `m` gives it. */
  ghost predicate Agrees(v: string -> bool, m: map<Literal, bool>)
  {
    forall k :: k in m ==> v(k.name) == m[k]
  }

  /** The assignment read off a model, with names it does not mention set to true. */
  function Valuation(m: map<Literal, bool>): (v: string -> bool)
    ensures KeysAreAtoms(m) ==> Agrees(v, m)
  {
    n => if Key(n) in m then m[Key(n)] else true
  }

  /** One entry as toString writes it: "I(name) = T" or "I(name) = F". */
  function EntryText(name: string, value: bool): string
  {
    "I(" + name + ") = " + (if value then "T" else "F")
  }

  /** The entries of `m` written in the order `order` lists their atoms. */
  function EntryTexts(order: seq<Literal>, m: map<Literal, bool>): (r: seq<string>)
    ensures |r| == |order|
    ensures forall k :: 0 <= k < |order| && order[k] in m ==> r[k] == EntryText(order[k].name, m[order[k]])
  {
    seq(|order|, k requires 0 <= k < |order| => if order[k] in m then EntryText(order[k].name, m[order[k]]) else "")
  }

  class LogicModel {
    var model: map<Literal, bool>

    ghost predicate Valid()
      reads this
    {
      KeysAreAtoms(model)
    }

    /** An empty model. */
    constructor()
      ensures model == map[] && Valid()
    {
      model := map[];
    }

    /** Gives the atom named like `exp` the value `polarity`, whatever negations `exp` carries. */
    method AddAtom(exp: Literal, polarity: bool)
      modifies this
      ensures model == old(model)[Key(exp.name) := polarity]
      ensures old(Valid()) ==> Valid()
    {
      model := model[Key(exp.name) := polarity];
    }

    function GetModel(): (r: map<Literal, bool>)
      reads this
      ensures r == model
      ensures Valid() ==> KeysAreAtoms(r)
    {
      model
    }

    function GetSize(): (r: nat)
      reads this
      ensures r == |model|
      ensures r == 0 <==> model == map[]
    {
      |model|
    }

    /** Whether `atom` itself is a key: a negated literal never is. */
    function Contains(atom: Literal): (b: bool)
      reads this
      ensures b <==> atom in model
      ensures b ==> atom.negs == 0 || !Valid()
    {
      atom in model
    }

    /**
     * Copies every entry of `other` into this model, overwriting on the same
     * atom; `other` may be this model itself.
     */
    method MergeModel(other: LogicModel)
      requires other.Valid()
      modifies this
      ensures model == old(model) + old(other.model)
      ensures old(Valid()) ==> Valid()
    {
      var entries := other.model;
      var keys := Elements(entries.Keys);
      for i := 0 to |keys|
        invariant forall k :: k in model <==> k in old(model) || k in keys[..i]
        invariant forall k :: k in keys[..i] ==> model[k] == entries[k]
        invariant forall k :: k in model && k !in keys[..i] ==> model[k] == old(model)[k]
      {
        assert keys[..i + 1] == keys[..i] + [keys[i]];
        AddAtom(keys[i], entries[keys[i]]);
      }
      assert keys[..|keys|] == keys;
      assert model == old(model) + entries;
    }

    /**
     * "I(name) = T/F" for every entry, joined by ", ", in hash-map order;
     * "none" for an empty model.
     */
    method ToString() returns (s: string, ghost order: seq<Literal>)
      ensures |model| == 0 ==> s == "none"
      ensures |model| != 0 ==> Enumerates(order, model.Keys)
      ensures |model| != 0 ==> s == JoinComma(EntryTexts(order, model))
    {
      var result := "";
      var keys := Elements(model.Keys);
      order := keys;
      ghost var texts: seq<string> := [];
      for i := 0 to |keys|
        invariant |texts| == i
        invariant forall k :: 0 <= k < i ==> texts[k] == EntryText(keys[k].name, model[keys[k]])
        invariant result == Trailing(texts)
      {
        var letter := "T";
        if !model[keys[i]] {
          letter := "F";
        }
        ghost var prefix := Trailing(texts);
        var entry := "I(" + keys[i].name + ") = " + letter;
        assert entry == EntryText(keys[i].name, model[keys[i]]);
        result := result + entry + ", ";
        TrailingSnoc(texts, entry);
        texts := texts + [entry];
      }
      assert |model| == 0 ==> result == "" by {
        if |keys| > 0 {
          assert keys[0] in model;
        }
      }
      if |model| != 0 {
        assert keys[0] in model;
        assert texts == EntryTexts(order, model);
        TrailingTrim(texts);
        return result[..|result| - 2], order;
      }
      if result == "" {
        return "none", order;
      }
      return result, order;
    }
  }
}
