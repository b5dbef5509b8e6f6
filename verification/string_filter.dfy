/**
 * The string catalog: six case-insensitive operators over a row string and a
 * filter string, the value initialiser run on an operator switch, and the
 * default operator list.
 */
module StringFilter {
  import opened Wrappers
  import Text
  import Operators

  predicate IsUpper(c: char)
  {
    'A' <= c <= 'Z'
  }

  /** Lower-casing of one character; only ASCII letters change. */
  function LowerChar(c: char): (r: char)
    ensures !IsUpper(r)
    ensures !IsUpper(c) ==> r == c
    ensures IsUpper(c) ==> r != c && r as int - c as int == 'a' as int - 'A' as int
  {
    if IsUpper(c) then (c as int - 'A' as int + 'a' as int) as char else c
  }

  /** `format`: the case-folded form both operands are compared in. */
  function Format(v: string): (r: string)
    ensures |r| == |v|
    ensures forall i :: 0 <= i < |v| ==> r[i] == LowerChar(v[i])
  {
    if v == [] then [] else [LowerChar(v[0])] + Format(v[1..])
  }

  /** A string with no upper-case letter is its own case-folded form. */
  lemma {:induction false} FormatFixesLower(v: string)
    requires forall i :: 0 <= i < |v| ==> !IsUpper(v[i])
    ensures Format(v) == v
  {
    var r := Format(v);
    forall i | 0 <= i < |v| ensures r[i] == v[i] {
      assert r[i] == LowerChar(v[i]);
    }
  }

  /** Case folding is idempotent. */
  lemma FormatIdempotent(v: string)
    ensures Format(Format(v)) == Format(v)
  {
    FormatFixesLower(Format(v));
  }

  /** `includes`: the folded filter occurs somewhere in the folded row. */
  function Includes(row: string, filter: string): (b: bool)
    ensures b <==> exists i :: Text.OccursAt(Format(row), Format(filter), i)
  {
    var r, f := Format(row), Format(filter);
    var found := Text.Includes(r, f);
    assert found ==> exists i :: Text.OccursAt(Format(row), Format(filter), i) by {
      if found {
        var i :| Text.OccursAt(r, f, i);
        assert Text.OccursAt(Format(row), Format(filter), i);
      }
    }
    found
  }

  /** `notIncludes`: the folded filter occurs nowhere in the folded row. */
  function NotIncludes(row: string, filter: string): (b: bool)
    ensures b ==> forall i :: !Text.OccursAt(Format(row), Format(filter), i)
    ensures (forall i :: !Text.OccursAt(Format(row), Format(filter), i)) ==> b
  {
    !Includes(row, filter)
  }

  /** `equals`: the strings have the same length and agree at every position up to case. */
  function Equals(row: string, filter: string): (b: bool)
    ensures b <==> |row| == |filter| && forall i :: 0 <= i < |row| ==> LowerChar(row[i]) == LowerChar(filter[i])
  {
    var r, f := Format(row), Format(filter);
    assert |row| == |filter| && (forall i :: 0 <= i < |row| ==> LowerChar(row[i]) == LowerChar(filter[i])) ==> r == f by {
      if |row| == |filter| && (forall i :: 0 <= i < |row| ==> LowerChar(row[i]) == LowerChar(filter[i])) {
        assert forall i :: 0 <= i < |r| ==> r[i] == f[i];
      }
    }
    r == f
  }

  /** `notEquals`: the strings differ in length or at some position, even up to case. */
  function NotEquals(row: string, filter: string): (b: bool)
    ensures b <==> |row| != |filter| || exists i :: 0 <= i < |row| && LowerChar(row[i]) != LowerChar(filter[i])
  {
    !Equals(row, filter)
  }

  /** `startsWith`: the filter's characters match the row's first characters up to case. */
  function StartsWith(row: string, filter: string): (b: bool)
    ensures b <==> |filter| <= |row| && forall i :: 0 <= i < |filter| ==> LowerChar(row[i]) == LowerChar(filter[i])
  {
    Text.StartsWith(Format(row), Format(filter))
  }

  /** `endsWith`: the filter's characters match the row's last characters up to case. */
  function EndsWith(row: string, filter: string): (b: bool)
    ensures b <==> (|filter| <= |row| &&
      forall i :: 0 <= i < |filter| ==> LowerChar(row[|row| - |filter| + i]) == LowerChar(filter[i]))
  {
    Text.EndsWith(Format(row), Format(filter))
  }

  /** Every operator gives the same answer when either operand is replaced by its folded form. */
  lemma CaseInsensitive(row: string, filter: string)
    ensures Includes(Format(row), filter) == Includes(row, filter) == Includes(row, Format(filter))
    ensures NotIncludes(Format(row), filter) == NotIncludes(row, filter) == NotIncludes(row, Format(filter))
    ensures Equals(Format(row), filter) == Equals(row, filter) == Equals(row, Format(filter))
    ensures NotEquals(Format(row), filter) == NotEquals(row, filter) == NotEquals(row, Format(filter))
    ensures StartsWith(Format(row), filter) == StartsWith(row, filter) == StartsWith(row, Format(filter))
    ensures EndsWith(Format(row), filter) == EndsWith(row, filter) == EndsWith(row, Format(filter))
  {
    FormatIdempotent(row);
    FormatIdempotent(filter);
  }

  /** The negated operators are the exact complements of their positive partners. */
  lemma NegatedOperators(row: string, filter: string)
    ensures NotIncludes(row, filter) <==> !Includes(row, filter)
    ensures NotEquals(row, filter) <==> !Equals(row, filter)
  {
  }

  /** `equals` is the strongest test: it implies the prefix, suffix and substring tests,
      and each of prefix and suffix implies substring. */
  lemma OperatorStrength(row: string, filter: string)
    ensures Equals(row, filter) ==> StartsWith(row, filter) && EndsWith(row, filter) && Includes(row, filter)
    ensures StartsWith(row, filter) ==> Includes(row, filter)
    ensures EndsWith(row, filter) ==> Includes(row, filter)
  {
    if StartsWith(row, filter) {
      assert Text.OccursAt(Format(row), Format(filter), 0);
    }
    if EndsWith(row, filter) {
      Text.EndsWithIncludes(Format(row), Format(filter));
    }
  }

  /** An empty filter value matches every row under `includes`, `startsWith` and
      `endsWith`, and no row under `notIncludes`. */
  lemma EmptyFilter(row: string)
    ensures Includes(row, "") && StartsWith(row, "") && EndsWith(row, "")
    ensures !NotIncludes(row, "")
  {
    Text.EmptyMatchesAll(Format(row));
  }

  /** A `startsWith` filter of "Al" keeps "Alice" and "alice" but not "Balice". */
  lemma StartsWithExample()
    ensures StartsWith("Alice", "Al")
    ensures StartsWith("alice", "Al")
    ensures !StartsWith("Balice", "Al")
  {
    assert Format("Al") == "al";
    assert Format("Alice") == "alice";
    assert Format("alice") == "alice";
    assert Format("Balice") == "balice";
  }

  /** The value the string filter starts from when its operator changes: the
      previous string, kept as it is (even when empty), or "" when there was none. */
  function InitStringFilterValue(op: string, last: Option<string>): (r: string)
    ensures last.Some? ==> r == last.value
    ensures last.None? ==> r == ""
  {
    last.GetOr("")
  }

  /** Initialisation ignores the operator, and re-initialising its own result changes nothing. */
  lemma InitStringStable(op: string, op': string, last: Option<string>)
    ensures InitStringFilterValue(op, last) == InitStringFilterValue(op', last)
    ensures InitStringFilterValue(op', Some(InitStringFilterValue(op, last))) == InitStringFilterValue(op, last)
  {
  }

  /** The default operator list: includes, not includes, equals, not equals, starts with, ends with. */
  function StringCatalog(): (ops: seq<Operators.Operator<string, string>>)
    ensures Operators.Codes(ops) == ["in", "nin", "eq", "neq", "start", "end"]
    ensures Operators.DistinctCodes(ops)
    ensures forall row, filter ::
      && ops[0].filter(row, filter) == Includes(row, filter)
      && ops[1].filter(row, filter) == NotIncludes(row, filter)
      && ops[2].filter(row, filter) == Equals(row, filter)
      && ops[3].filter(row, filter) == NotEquals(row, filter)
      && ops[4].filter(row, filter) == StartsWith(row, filter)
      && ops[5].filter(row, filter) == EndsWith(row, filter)
  {
    var codes := ["in", "nin", "eq", "neq", "start", "end"];
    var ops := [
      Operators.Operator("in", "includes", (row, filter) => Includes(row, filter)),
      Operators.Operator("nin", "not includes", (row, filter) => NotIncludes(row, filter)),
      Operators.Operator("eq", "equals", (row, filter) => Equals(row, filter)),
      Operators.Operator("neq", "not equals", (row, filter) => NotEquals(row, filter)),
      Operators.Operator("start", "starts with", (row, filter) => StartsWith(row, filter)),
      Operators.Operator("end", "ends with", (row, filter) => EndsWith(row, filter))
    ];
    assert Operators.Distinct(codes);
    Operators.CatalogCodes(ops, codes);
    ops
  }
}
