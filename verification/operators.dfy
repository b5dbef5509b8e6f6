/**
 * The shape shared by every filter catalog: an operator pairs a code that is
 * unique within its catalog with a display title (the source's label) and a row predicate. The
 * generic engine that looks operators up by code is not part of this model.
 */
module Operators {

  datatype Operator<-R, -F> = Operator(code: string, title: string, filter: (R, F) -> bool)

  /** The codes of a catalog, in catalog order. */
  function Codes<R, F>(ops: seq<Operator<R, F>>): (cs: seq<string>)
    ensures |cs| == |ops|
    ensures forall i :: 0 <= i < |ops| ==> cs[i] == ops[i].code
  {
    if ops == [] then [] else [ops[0].code] + Codes(ops[1..])
  }

  /** No two operators of the catalog share a code. */
  predicate DistinctCodes<R, F>(ops: seq<Operator<R, F>>)
  {
    forall i, j :: 0 <= i < j < |ops| ==> ops[i].code != ops[j].code
  }

  /** No code occurs twice in a list of codes. */
  predicate Distinct(cs: seq<string>)
  {
    forall i, j :: 0 <= i < j < |cs| ==> cs[i] != cs[j]
  }

  /** A catalog has distinct codes exactly when its list of codes has no repeats,
      so distinctness can be checked on the codes alone. */
  lemma DistinctCodesIff<R, F>(ops: seq<Operator<R, F>>)
    ensures DistinctCodes(ops) <==> Distinct(Codes(ops))
  {
    var cs := Codes(ops);
    if DistinctCodes(ops) {
      forall i, j | 0 <= i < j < |cs| ensures cs[i] != cs[j] {
        assert cs[i] == ops[i].code && cs[j] == ops[j].code;
      }
    }
    if Distinct(cs) {
      forall i, j | 0 <= i < j < |ops| ensures ops[i].code != ops[j].code {
        assert cs[i] == ops[i].code && cs[j] == ops[j].code;
      }
    }
  }

  /** A catalog whose operators carry the given codes, position by position,
      has exactly that list of codes, and distinct codes when the list has no repeats. */
  lemma CatalogCodes<R, F>(ops: seq<Operator<R, F>>, codes: seq<string>)
    requires |ops| == |codes|
    requires forall i :: 0 <= i < |ops| ==> ops[i].code == codes[i]
    ensures Codes(ops) == codes
    ensures Distinct(codes) ==> DistinctCodes(ops)
  {
    DistinctCodesIff(ops);
  }
}
