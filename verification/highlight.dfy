/**
 * The terms a cell highlights: the column's filter value, then the table's
 * global search term, each only when JavaScript counts it as truthy.
 */
module Highlight {
  import opened Wrappers
  import DateFilter

  /** A column filter value, as stored by the string, boolean or date filter. */
  datatype FilterValue = Text(text: string) | Flag(flag: bool) | Dates(dates: DateFilter.DateValue)

  /** JavaScript truthiness of a filter value. */
  predicate Truthy(v: FilterValue)
  {
    match v
    case Text(s) => s != ""
    case Flag(b) => b
    case Dates(d) => DateFilter.Truthy(d)
  }

  /** `filter?.value` is truthy; `None` is an absent filter state or an undefined value. */
  predicate FilterContributes(filter: Option<FilterValue>)
  {
    filter.Some? && Truthy(filter.value)
  }

  /** The global filter is a non-empty string. */
  predicate GlobalContributes(globalFilter: Option<string>)
  {
    globalFilter.Some? && globalFilter.value != ""
  }

  /** The highlight list: the filter value first and the global term second, each only when truthy. */
  function HighlightTerms(filter: Option<FilterValue>, globalFilter: Option<string>): (r: seq<FilterValue>)
    ensures |r| == (if FilterContributes(filter) then 1 else 0) + (if GlobalContributes(globalFilter) then 1 else 0)
    ensures FilterContributes(filter) ==> r[0] == filter.value
    ensures GlobalContributes(globalFilter) ==> r[|r| - 1] == Text(globalFilter.value)
  {
    (if FilterContributes(filter) then [filter.value] else [])
    + (if GlobalContributes(globalFilter) then [Text(globalFilter.value)] else [])
  }

  /** At most two terms, and none when neither source contributes. */
  lemma HighlightBounds(filter: Option<FilterValue>, globalFilter: Option<string>)
    ensures |HighlightTerms(filter, globalFilter)| <= 2
    ensures HighlightTerms(None, None) == []
    ensures !FilterContributes(filter) && !GlobalContributes(globalFilter) ==> HighlightTerms(filter, globalFilter) == []
  {
  }

  /** Both present and non-empty: exactly the filter text, then the global term. */
  lemma HighlightBoth(f: string, g: string)
    requires f != "" && g != ""
    ensures HighlightTerms(Some(Text(f)), Some(g)) == [Text(f), Text(g)]
  {
  }

  /** Only one source contributes: the list is that single term. */
  lemma HighlightSingle(filter: Option<FilterValue>, globalFilter: Option<string>)
    ensures FilterContributes(filter) && !GlobalContributes(globalFilter) ==>
      HighlightTerms(filter, globalFilter) == [filter.value]
    ensures !FilterContributes(filter) && GlobalContributes(globalFilter) ==>
      HighlightTerms(filter, globalFilter) == [Text(globalFilter.value)]
  {
  }

  /** Empty strings contribute nothing, and no check is made that the filter
      value is text: a date range or a `true` flag is pushed as it is. */
  lemma HighlightTruthiness(g: Option<string>, lo: Option<string>, hi: Option<string>)
    ensures HighlightTerms(Some(Text("")), Some("")) == []
    ensures HighlightTerms(Some(Text("")), g) == HighlightTerms(None, g)
    ensures HighlightTerms(Some(Dates(DateFilter.Range(lo, hi))), None) == [Dates(DateFilter.Range(lo, hi))]
    ensures HighlightTerms(Some(Flag(true)), None) == [Flag(true)]
    ensures HighlightTerms(Some(Flag(false)), g) == HighlightTerms(None, g)
  {
  }
}
