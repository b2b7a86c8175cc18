/**
 * The interpretation the binary package's Davis-Putnam procedure builds
 * (reasoning2 LogicModel). Unlike the n-ary package's model it is keyed by
 * the literal itself, negations included, so A and ¬A are separate entries.
 */
module BinaryLogicModel {
  import opened Wrappers
  import opened Text
  import opened Clauses
  import Entries = LogicModel

  class LogicModel {
    var model: map<Literal, bool>

    /** An empty model. */
    constructor()
      ensures model == map[]
    {
      model := map[];
    }

    /** Maps `exp` itself, negations included, to `polarity`; other entries stay. */
    method AddAtom(exp: Literal, polarity: bool)
      modifies this
      ensures model == old(model)[exp := polarity]
    {
      model := model[exp := polarity];
    }

    /**
     * "I(name) = T/F" for every entry, joined by ", ", in hash-map order.
     * The trailing ", " is cut with substring(0, length - 2), which throws
     * on an empty model.
     */
    method ToString() returns (r: Result<string>, ghost order: seq<Literal>)
      ensures |model| == 0 <==> r == Err(IndexOutOfBounds)
      ensures |model| != 0 ==> Enumerates(order, model.Keys)
      ensures |model| != 0 ==> r == Ok(JoinComma(Entries.EntryTexts(order, model)))
    {
      var result := "";
      var keys := Elements(model.Keys);
      order := keys;
      ghost var texts: seq<string> := [];
      for i := 0 to |keys|
        invariant |texts| == i
        invariant forall k :: 0 <= k < i ==> texts[k] == Entries.EntryText(keys[k].name, model[keys[k]])
        invariant result == Trailing(texts)
      {
        var letter := "T";
        if !model[keys[i]] {
          letter := "F";
        }
        var entry := "I(" + keys[i].name + ") = " + letter;
        assert entry == Entries.EntryText(keys[i].name, model[keys[i]]);
        result := result + entry + ", ";
        TrailingSnoc(texts, entry);
        texts := texts + [entry];
      }
      if |keys| > 0 {
        TrailingTrim(texts);
        assert keys[0] in model;
        assert |result| >= 2;
      } else {
        assert result == "";
        assert model.Keys == {};
        assert model == map[];
      }
      if |result| < 2 {
        return Err(IndexOutOfBounds), order;
      }
      assert texts == Entries.EntryTexts(order, model);
      return Ok(result[..|result| - 2]), order;
    }
  }
}
