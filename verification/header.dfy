/** The decorations drawn in a sortable column header: the tooltip naming what the next
    click does and the arrow showing the current sort direction. */
module Header {
  import opened Wrappers
  import Encoding

  /** One entry of the table's sorting state: a column id and whether it sorts descending. */
  datatype SortKey = SortKey(id: string, desc: bool)

  datatype SortDirection = Asc | Desc

  /** What clicking the header would change the column's sort to; the table library
      answers `"asc"`, `"desc"` or `false` (clear the sort). */
  datatype NextOrder = NextAsc | NextDesc | NextClear

  /** The header tooltip: present exactly for sortable columns, worded after the next order. */
  function Title(canSort: bool, next: NextOrder): (r: Option<string>)
    ensures r.None? <==> !canSort
    ensures canSort && next == NextAsc ==> r == Some("Sort ascending")
    ensures canSort && next == NextDesc ==> r == Some("Sort descending")
    ensures canSort && next == NextClear ==> r == Some("Clear sort")
  {
    if !canSort then None
    else match next
      case NextAsc => Some("Sort ascending")
      case NextDesc => Some("Sort descending")
      case NextClear => Some("Clear sort")
  }

  /** The three tooltips differ, so the tooltip tells the user which transition a click makes. */
  lemma TitleDistinguishesOrders(a: NextOrder, b: NextOrder)
    ensures Title(true, a) == Title(true, b) ==> a == b
  {
  }

  /** The column's current direction as the library's `getIsSorted` reports it: taken from the
      first sorting entry for the column, and absent when the column is not sorted. */
  function SortedDirection(sorting: seq<SortKey>, id: string): (r: Option<SortDirection>)
    ensures r.None? <==> forall k :: 0 <= k < |sorting| ==> sorting[k].id != id
    ensures r.Some? ==>
      exists k :: (0 <= k < |sorting| && sorting[k].id == id
        && (forall j :: 0 <= j < k ==> sorting[j].id != id)
        && r.value == (if sorting[k].desc then Desc else Asc))
  {
    if |sorting| == 0 then None
    else if sorting[0].id == id then Some(if sorting[0].desc then Desc else Asc)
    else
      var r := SortedDirection(sorting[1..], id);
      assert forall k :: 1 <= k < |sorting| ==> sorting[k] == sorting[1..][k - 1];
      r
  }

  const UpArrow: string := "\U{1F53C}"
  const DownArrow: string := "\U{1F53D}"

  /** The arrow appended to the header label: an up arrow when ascending, a down arrow when
      descending, nothing when the column is unsorted. */
  function Indicator(d: Option<SortDirection>): (r: Option<string>)
    ensures r.None? <==> d.None?
    ensures d == Some(Asc) ==> r == Some(" " + UpArrow)
    ensures d == Some(Desc) ==> r == Some(" " + DownArrow)
  {
    match d
    case None => None
    case Some(Asc) => Some(" " + UpArrow)
    case Some(Desc) => Some(" " + DownArrow)
  }

  /** The two arrows differ, so the indicator reveals the direction. */
  lemma IndicatorDistinguishesDirections(a: Option<SortDirection>, b: Option<SortDirection>)
    ensures Indicator(a) == Indicator(b) ==> a == b
  {
    assert (" " + UpArrow)[1] != (" " + DownArrow)[1];
  }

  /** The indicator of the `Table` component's header, whose literals are not the arrows but
      the four characters each arrow's UTF-8 bytes read as in windows-1252. */
  function TableIndicatorAsWritten(d: Option<SortDirection>): (r: Option<string>)
    ensures r.None? <==> d.None?
    ensures r.Some? ==> |r.value| == 5 && r.value[0] == ' '
  {
    match d
    case None => None
    case Some(Asc) => Some(" ðŸ”¼")
    case Some(Desc) => Some(" ðŸ”½")
  }

  /** For every sorted column the `Table` header shows the mis-decoded bytes of the arrow the
      `App` header shows, never the arrow itself. */
  lemma TableIndicatorIsMisdecoded(d: SortDirection)
    ensures TableIndicatorAsWritten(Some(d)).value
      == " " + Encoding.Cp1252Decode(Encoding.Utf8Encode(Indicator(Some(d)).value[1]))
    ensures TableIndicatorAsWritten(Some(d)) != Indicator(Some(d))
  {
    var bytes := Encoding.Utf8Encode(Indicator(Some(d)).value[1]);
    if d == Asc {
      assert bytes == [0xF0, 0x9F, 0x94, 0xBC];
    } else {
      assert bytes == [0xF0, 0x9F, 0x94, 0xBD];
    }
    assert TableIndicatorAsWritten(Some(d)).value[1] != Indicator(Some(d)).value[1];
  }
}
