/** The per-column filter widget of `src/components/Filter.tsx`: which input a column gets,
    what each input shows, and how each input's value becomes the column's filter value. */
module Filter {
  import opened Wrappers
  import Types

  /** A column's optional metadata; only its `filterVariant` is read. */
  datatype ColumnMeta = ColumnMeta(filterVariant: Option<string>)

  /** A column definition as far as the widgets care: its id and its metadata. */
  datatype ColumnDef = ColumnDef(id: string, meta: Option<ColumnMeta>)

  datatype Widget = RangeInputs | SelectBox | TextInput

  /** The widget a column gets: the number pair for "range", the dropdown for "select", and
      the text box for anything else, missing metadata included. */
  function WidgetFor(meta: Option<ColumnMeta>): (w: Widget)
    ensures w == RangeInputs <==> meta.Some? && meta.value.filterVariant == Some("range")
    ensures w == SelectBox <==> meta.Some? && meta.value.filterVariant == Some("select")
    ensures w == TextInput <==> !(meta.Some? && meta.value.filterVariant in {Some("range"), Some("select")})
  {
    var variant := match meta case None => None case Some(m) => m.filterVariant;
    if variant == Some("range") then RangeInputs
    else if variant == Some("select") then SelectBox
    else TextInput
  }

  /** A value an input hands back: the source's `string | number`. Numbers are modelled as
      exact reals. */
  datatype Scalar = Str(s: string) | Num(n: real)

  const Blank := Str("")

  /** The filter value of a range column: a pair whose components may each be undefined. */
  datatype RangePair = RangePair(min: Option<Scalar>, max: Option<Scalar>)

  /** `old?.[0]`: the lower bound of the current pair, undefined when there is no pair. */
  function LowerOf(cur: Option<RangePair>): Option<Scalar> {
    match cur case None => None case Some(p) => p.min
  }

  /** `old?.[1]`: the upper bound of the current pair, undefined when there is no pair. */
  function UpperOf(cur: Option<RangePair>): Option<Scalar> {
    match cur case None => None case Some(p) => p.max
  }

  /** The "Min" input's update: the new value becomes the lower bound and the upper bound is
      carried over untouched. */
  function SetMin(prev: Option<RangePair>, v: Scalar): (r: RangePair)
    ensures LowerOf(Some(r)) == Some(v)
    ensures UpperOf(Some(r)) == UpperOf(prev)
    ensures prev.None? ==> r == RangePair(Some(v), None)
  {
    RangePair(Some(v), UpperOf(prev))
  }

  /** The "Max" input's update: the new value becomes the upper bound and the lower bound is
      carried over untouched. */
  function SetMax(prev: Option<RangePair>, v: Scalar): (r: RangePair)
    ensures UpperOf(Some(r)) == Some(v)
    ensures LowerOf(Some(r)) == LowerOf(prev)
    ensures prev.None? ==> r == RangePair(None, Some(v))
  {
    RangePair(LowerOf(prev), Some(v))
  }

  /** Setting both bounds gives the pair of the two values, whichever input settles first
      and whatever pair was there before. */
  lemma MinMaxCommute(prev: Option<RangePair>, lo: Scalar, hi: Scalar)
    ensures SetMax(Some(SetMin(prev, lo)), hi) == RangePair(Some(lo), Some(hi))
    ensures SetMin(Some(SetMax(prev, hi)), lo) == RangePair(Some(lo), Some(hi))
  {
  }

  /** Only the last value typed into one input matters. */
  lemma LastUpdateWins(prev: Option<RangePair>, a: Scalar, b: Scalar)
    ensures SetMin(Some(SetMin(prev, a)), b) == SetMin(prev, b)
    ensures SetMax(Some(SetMax(prev, a)), b) == SetMax(prev, b)
  {
  }

  /** What the "Min" input shows: the lower bound, or the empty string when there is none. */
  function MinShown(cur: Option<RangePair>): (r: Scalar)
    ensures LowerOf(cur).Some? ==> r == LowerOf(cur).value
    ensures LowerOf(cur).None? ==> r == Blank
  {
    LowerOf(cur).GetOr(Blank)
  }

  /** What the "Max" input shows: the upper bound, or the empty string when there is none. */
  function MaxShown(cur: Option<RangePair>): (r: Scalar)
    ensures UpperOf(cur).Some? ==> r == UpperOf(cur).value
    ensures UpperOf(cur).None? ==> r == Blank
  {
    UpperOf(cur).GetOr(Blank)
  }

  /** After a "Min" update the Min input shows the value just entered and the Max input is
      unchanged; symmetrically for "Max". */
  lemma RangeEchoAfterUpdate(prev: Option<RangePair>, v: Scalar)
    ensures MinShown(Some(SetMin(prev, v))) == v && MaxShown(Some(SetMin(prev, v))) == MaxShown(prev)
    ensures MaxShown(Some(SetMax(prev, v))) == v && MinShown(Some(SetMax(prev, v))) == MinShown(prev)
  {
  }

  /** One `<option>` of the dropdown. */
  datatype SelectOption = SelectOption(value: string, caption: string)

  /** The dropdown's fixed choices, in display order. */
  const SelectOptions: seq<SelectOption> := [
    SelectOption("", "All"),
    SelectOption("complicated", "complicated"),
    SelectOption("relationship", "relationship"),
    SelectOption("single", "single")
  ]

  /** The filter value choosing an option sets: the option's value verbatim. */
  function Choose(o: SelectOption): (r: Option<string>)
    ensures r.Some? && r.value == o.value
  {
    Some(o.value)
  }

  /** The dropdown's `value`: the filter value itself when set, undefined when unset (the
      element is then uncontrolled and shows its first option, "All"). */
  function SelectShown(cur: Option<string>): (r: Option<string>)
    ensures r.None? <==> cur.None?
    ensures cur.Some? ==> r == cur
  {
    cur
  }

  /** The dropdown offers exactly "" (labelled "All") and three placeholder values, none of
      which names a browser status; choosing any of them selects that same option again. */
  lemma SelectOffersFixedChoices()
    ensures (set o | o in SelectOptions :: o.value) == {"", "complicated", "relationship", "single"}
    ensures forall i, j :: 0 <= i < j < |SelectOptions| ==> SelectOptions[i].value != SelectOptions[j].value
    ensures forall o, s :: o in SelectOptions ==> o.value != Types.StatusName(s)
    ensures forall o :: o in SelectOptions ==> SelectShown(Choose(o)) == Some(o.value)
  {
  }

  /** What the text input shows: the filter value, or the empty string when unset. */
  function TextShown(cur: Option<Scalar>): (r: Scalar)
    ensures cur.Some? ==> r == cur.value
    ensures cur.None? ==> r == Blank
  {
    cur.GetOr(Blank)
  }

  /** The filter value the text input sets once typing settles: the typed value verbatim. */
  function SetText(v: Scalar): (r: Option<Scalar>)
    ensures r.Some? && r.value == v
  {
    Some(v)
  }

  /** The text input shows back exactly the value it set. */
  lemma TextEchoRoundTrip(v: Scalar)
    ensures TextShown(SetText(v)) == v
  {
  }

  /** One entry of a column-filter state: a column id and its filter value. */
  datatype FilterValue = ScalarValue(scalar: Scalar) | PairValue(pair: RangePair)
  datatype ColumnFilter = ColumnFilter(id: string, value: FilterValue)

  /** The filter value of column `id`: the first entry for it, undefined when there is none. */
  function FilterOf(filters: seq<ColumnFilter>, id: string): (r: Option<FilterValue>)
    ensures r.None? <==> forall k :: 0 <= k < |filters| ==> filters[k].id != id
    ensures r.Some? ==>
      exists k :: (0 <= k < |filters| && filters[k] == ColumnFilter(id, r.value)
        && (forall j :: 0 <= j < k ==> filters[j].id != id))
  {
    if |filters| == 0 then None
    else if filters[0].id == id then Some(filters[0].value)
    else
      var r := FilterOf(filters[1..], id);
      assert forall k :: 1 <= k < |filters| ==> filters[k] == filters[1..][k - 1];
      r
  }
}
