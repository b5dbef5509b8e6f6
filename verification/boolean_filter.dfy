/**
 * The boolean catalog: the filter value is a real boolean, and the widgets,
 * which only exchange strings, convert at their boundary.
 */
module BooleanFilter {
  import opened Wrappers
  import Operators

  /** The option values both widget variants (segmented control and radio group) offer. */
  const WidgetOptions: seq<string> := ["true", "false"]

  /** `toValue`: the widget string for a boolean. */
  function ToValue(b: bool): (s: string)
    ensures s in WidgetOptions
    ensures s == WidgetOptions[0] <==> b
  {
    if b then "true" else "false"
  }

  /** `toState`: the boolean for a widget string; only "true" is true. */
  function ToState(s: string): (b: bool)
    ensures b <==> s == WidgetOptions[0]
  {
    s == "true"
  }

  /** Converting a boolean to its widget string and back gives the boolean. */
  lemma StateRoundTrip(b: bool)
    ensures ToState(ToValue(b)) == b
  {
  }

  /** Converting either widget option to a boolean and back gives the option;
      every other string reads as false. */
  lemma ValueRoundTrip(s: string)
    ensures s in WidgetOptions ==> ToValue(ToState(s)) == s
    ensures s != "true" ==> !ToState(s)
  {
  }

  /** `equals`: strict equality of the row and filter booleans, which is the
      same as equality of the widget strings they are shown as. */
  function Equals(row: bool, filter: bool): (b: bool)
    ensures b <==> ToValue(row) == ToValue(filter)
    ensures b ==> ToState(ToValue(row)) == filter
  {
    row == filter
  }

  /** The boolean filter starts from `true`, whatever the operator and previous value. */
  function InitBooleanFilterValue(op: string, last: Option<bool>): (r: bool)
    ensures r
  {
    true
  }

  /** The catalog holds one operator, `eq`, keeping rows equal to the filter value. */
  function BooleanCatalog(): (ops: seq<Operators.Operator<bool, bool>>)
    ensures Operators.Codes(ops) == ["eq"]
    ensures forall row, filter :: ops[0].filter(row, filter) <==> row == filter
  {
    [Operators.Operator("eq", "equals", (row, filter) => Equals(row, filter))]
  }
}
