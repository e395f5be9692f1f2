/** The `App` component of `src/App.tsx`: its built-in data, its columns, its initial state
    and its local copy of the filter widget. */
module App {
  import opened Wrappers
  import opened Types
  import Strings
  import Header
  import Filter

  /** The two rows the app displays. The app's own record type has only name, homepage, code
      and engine, so status and os are always absent here. */
  const DefaultData: seq<Browser> := [
    Browser("Chrome", Some("https://www.google.com/chrome"), Some("Chrome"), None, None, None),
    Browser("Firefox", Some("https://www.mozilla.org/firefox"), None, Some("Gecko"), None, None)
  ]

  /** The app's four columns, none carrying filter metadata. */
  const Columns: seq<Filter.ColumnDef> := [
    Filter.ColumnDef("name", None),
    Filter.ColumnDef("homepage", None),
    Filter.ColumnDef("code", None),
    Filter.ColumnDef("engine", None)
  ]

  const InitialSorting: seq<Header.SortKey> := []
  const InitialFilters: seq<Filter.ColumnFilter> := []

  /** The data is two distinctly named records, each with a name and an absolute homepage. */
  lemma DefaultDataShape()
    ensures |DefaultData| == 2
    ensures forall r :: r in DefaultData ==> |r.name| > 0
    ensures DefaultData[0].name != DefaultData[1].name
    ensures forall r :: r in DefaultData ==>
      r.homepage.Some? && Strings.IsPrefix("https://", r.homepage.value)
  {
  }

  /** The app starts with no sort and no filter: no header shows an arrow, every column's
      filter is unset, and with no filter metadata every column gets the text filter. */
  lemma InitialAppState()
    ensures forall c :: c in Columns ==>
      Header.Indicator(Header.SortedDirection(InitialSorting, c.id)).None?
    ensures forall c :: c in Columns ==> Filter.FilterOf(InitialFilters, c.id).None?
    ensures forall c :: c in Columns ==> Filter.WidgetFor(c.meta) == Filter.TextInput
  {
  }

  /** The local widget's "Min" update, `[value, old?.[1]]`. */
  function LocalSetMin(prev: Option<Filter.RangePair>, v: Filter.Scalar): (r: Filter.RangePair)
    ensures r.min == Some(v)
    ensures r.max == Filter.UpperOf(prev)
  {
    Filter.RangePair(Some(v), match prev case None => None case Some(p) => p.max)
  }

  /** The local widget's "Max" update, `[old?.[0], value]`. */
  function LocalSetMax(prev: Option<Filter.RangePair>, v: Filter.Scalar): (r: Filter.RangePair)
    ensures r.max == Some(v)
    ensures r.min == Filter.LowerOf(prev)
  {
    Filter.RangePair(match prev case None => None case Some(p) => p.min, Some(v))
  }

  /** The app's copy of the range updaters behaves exactly as the shared component's. */
  lemma LocalUpdatersMatchComponent(prev: Option<Filter.RangePair>, v: Filter.Scalar)
    ensures LocalSetMin(prev, v) == Filter.SetMin(prev, v)
    ensures LocalSetMax(prev, v) == Filter.SetMax(prev, v)
  {
  }
}
