/** The `Table` component of `src/components/Table.tsx`: the custom status order, the cell
    renderers of the homepage, code, status and os columns, and the initial state. */
module Table {
  import opened Wrappers
  import opened Types
  import Strings
  import Header
  import Filter

  /** The intended status order, first to last: the four statuses, then no status. */
  const StatusOrder: seq<Option<Status>> :=
    [Some(Active), Some(UnderDevelopment), Some(Dormant), Some(Dead), None]

  /** The number a status sorts by; a missing status gets 5 and so sorts after all others. */
  function Rank(s: Option<Status>): (r: int)
    ensures 1 <= r <= 5
    ensures StatusOrder[r - 1] == s
  {
    match s
    case Some(Active) => 1
    case Some(UnderDevelopment) => 2
    case Some(Dormant) => 3
    case Some(Dead) => 4
    case None => 5
  }

  /** The status column's `sortingFn`: the difference of the two ranks. */
  function CompareStatus(a: Option<Status>, b: Option<Status>): (r: int)
    ensures -4 <= r <= 4
    ensures r < 0 <==> Rank(a) < Rank(b)
    ensures r == 0 <==> a == b
    ensures r > 0 <==> Rank(b) < Rank(a)
  {
    Rank(a) - Rank(b)
  }

  /** The comparator follows the intended order: earlier in `StatusOrder` means negative. */
  lemma CompareFollowsStatusOrder(i: int, j: int)
    requires 0 <= i < |StatusOrder| && 0 <= j < |StatusOrder|
    ensures CompareStatus(StatusOrder[i], StatusOrder[j]) < 0 <==> i < j
    ensures CompareStatus(StatusOrder[i], StatusOrder[j]) == 0 <==> i == j
  {
  }

  /** Swapping the arguments negates the result, and a status compares equal to itself. */
  lemma CompareAntisymmetric(a: Option<Status>, b: Option<Status>)
    ensures CompareStatus(a, b) == -CompareStatus(b, a)
    ensures CompareStatus(a, a) == 0
  {
  }

  /** "Sorts no later than" under the comparator. */
  predicate StatusLe(a: Option<Status>, b: Option<Status>) {
    CompareStatus(a, b) <= 0
  }

  ghost predicate TotalPreorder<T(!new)>(le: (T, T) -> bool) {
    && (forall x :: le(x, x))
    && (forall x, y, z :: le(x, y) && le(y, z) ==> le(x, z))
    && (forall x, y :: le(x, y) || le(y, x))
  }

  /** The comparator is a total preorder (indeed a total order, since equal ranks mean equal
      statuses), which is what a sort needs of it. */
  lemma StatusLeIsTotalPreorder()
    ensures TotalPreorder(StatusLe)
    ensures forall a, b :: StatusLe(a, b) && StatusLe(b, a) ==> a == b
  {
  }

  /** Rows in ascending status order, judged pair by pair as a comparator sort leaves them. */
  ghost predicate NeighboursAscending(rows: seq<Browser>) {
    forall i :: 0 < i < |rows| ==> StatusLe(rows[i - 1].status, rows[i].status)
  }

  /** Rows in ascending status order, judged over every pair. */
  ghost predicate Ascending(rows: seq<Browser>) {
    forall i, j :: 0 <= i < j < |rows| ==> StatusLe(rows[i].status, rows[j].status)
  }

  /** Ordering each neighbouring pair orders every pair. */
  lemma {:induction false} NeighboursAscendingIsAscending(rows: seq<Browser>)
    requires NeighboursAscending(rows)
    ensures Ascending(rows)
    decreases |rows|
  {
    if |rows| > 1 {
      var front := rows[..|rows| - 1];
      assert NeighboursAscending(front) by {
        forall i | 0 < i < |front| ensures StatusLe(front[i - 1].status, front[i].status) {
          assert front[i - 1] == rows[i - 1] && front[i] == rows[i];
        }
      }
      NeighboursAscendingIsAscending(front);
      forall i, j | 0 <= i < j < |rows| ensures StatusLe(rows[i].status, rows[j].status) {
        if j < |rows| - 1 {
          assert front[i] == rows[i] && front[j] == rows[j];
        } else if i < j - 1 {
          assert front[i] == rows[i] && front[j - 1] == rows[j - 1];
          assert StatusLe(rows[i].status, rows[j - 1].status);
        }
      }
    }
  }

  /** In ascending status order every row with a status precedes every row without one, and
      the statuses come in the blocks active, under development, dormant, dead. */
  lemma AscendingPutsMissingStatusLast(rows: seq<Browser>)
    requires NeighboursAscending(rows)
    ensures forall i, j ::
      (0 <= i < |rows| && 0 <= j < |rows| && rows[i].status.Some? && rows[j].status.None?) ==> i < j
    ensures forall i, j :: 0 <= i < j < |rows| ==> Rank(rows[i].status) <= Rank(rows[j].status)
  {
    NeighboursAscendingIsAscending(rows);
  }

  /** What a homepage or code cell renders: a link to the value, or the raw value as is. */
  datatype UrlCell = Anchor(href: string, text: string) | Raw(value: Option<string>)

  /** The homepage and code columns' `cell`: a link exactly when the value starts with "http". */
  function RenderUrl(v: Option<string>): (r: UrlCell)
    ensures r.Anchor? <==> v.Some? && Strings.IsPrefix("http", v.value)
    ensures r.Anchor? ==> r.href == v.value && r.text == v.value
    ensures r.Raw? ==> r.value == v
  {
    match v
    case Some(s) => if Strings.StartsWith(s, "http") then Anchor(s, s) else Raw(v)
    case None => Raw(None)
  }

  /** The text a rendered URL cell displays. */
  function UrlCellText(c: UrlCell): Option<string> {
    match c
    case Anchor(_, text) => Some(text)
    case Raw(v) => v
  }

  /** Rendering never changes the text: a link shows its own address, a raw cell its value. */
  lemma RenderUrlKeepsText(v: Option<string>)
    ensures UrlCellText(RenderUrl(v)) == v
  {
  }

  /** An absolute address becomes a link; "n/a" stays plain text. */
  lemma RenderUrlExamples()
    ensures RenderUrl(Some("https://example.com")) == Anchor("https://example.com", "https://example.com")
    ensures RenderUrl(Some("n/a")) == Raw(Some("n/a"))
  {
  }

  /** The background class of a status badge: one fixed class per status, none without one. */
  function StatusColor(s: Option<Status>): (r: string)
    ensures r == "" <==> s.None?
  {
    match s
    case Some(Active) => "bg-green-200"
    case Some(UnderDevelopment) => "bg-yellow-200"
    case Some(Dormant) => "bg-gray-200"
    case Some(Dead) => "bg-red-200"
    case None => ""
  }

  /** No two statuses share a colour. */
  lemma StatusColorInjective(a: Option<Status>, b: Option<Status>)
    ensures StatusColor(a) == StatusColor(b) ==> a == b
  {
  }

  /** The status badge: its class and the text inside it. */
  datatype StatusBadge = StatusBadge(color: string, text: string)

  /** The status column's `cell`: the status's colour around its name; both are empty when
      the row has no status. */
  function RenderStatus(s: Option<Status>): (r: StatusBadge)
    ensures r.color == StatusColor(s)
    ensures r.text == "" <==> s.None?
    ensures s.Some? ==> r.text == StatusName(s.value)
  {
    match s
    case Some(st) => StatusBadge(StatusColor(s), StatusName(st))
    case None => StatusBadge("", "")
  }

  /** A badge identifies its status. */
  lemma RenderStatusInjective(a: Option<Status>, b: Option<Status>)
    ensures RenderStatus(a) == RenderStatus(b) ==> a == b
  {
  }

  datatype OsIcon = Apple | Windows | Linux

  /** The fixed icon order, and the substring each icon is triggered by. */
  const IconOrder: seq<OsIcon> := [Apple, Windows, Linux]

  function IconIndex(i: OsIcon): nat {
    match i case Apple => 0 case Windows => 1 case Linux => 2
  }

  function IconToken(i: OsIcon): string {
    match i case Apple => "macos" case Windows => "windows" case Linux => "linux"
  }

  /** `icons` lists icons in `IconOrder`, each at most once. */
  predicate InIconOrder(icons: seq<OsIcon>) {
    forall i, j :: 0 <= i < j < |icons| ==> IconIndex(icons[i]) < IconIndex(icons[j])
  }

  /** The os column's `cell`: the icons whose token occurs anywhere in the value (a plain
      substring test, so "notlinux" also yields the Linux icon), in the fixed order. */
  function RenderOs(v: Option<string>): (r: seq<OsIcon>)
    ensures forall i :: i in r <==> v.Some? && Strings.Occurs(IconToken(i), v.value)
    ensures InIconOrder(r)
    ensures |r| <= |IconOrder|
    ensures v.None? ==> r == []
  {
    match v
    case None => []
    case Some(s) =>
      (if Strings.Includes(s, "macos") then [Apple] else [])
      + (if Strings.Includes(s, "windows") then [Windows] else [])
      + (if Strings.Includes(s, "linux") then [Linux] else [])
  }

  /** "macos,linux" shows the Apple icon then the Linux icon, and no Windows icon. */
  lemma RenderOsExample(s: string)
    requires s == "macos,linux"
    ensures RenderOs(Some(s)) == [Apple, Linux]
  {
    assert Strings.Includes(s, "macos") by {
      assert s[0..5] == "macos";
      assert Strings.OccursAt("macos", s, 0);
    }
    assert Strings.Includes(s, "linux") by {
      assert s[6..11] == "linux";
      assert Strings.OccursAt("linux", s, 6);
    }
    assert !Strings.Includes(s, "windows") by {
      Strings.NoFirstCharNoOccurrence("windows", s);
    }
  }

  /** The columns, in order; none carries filter metadata. */
  const Columns: seq<Filter.ColumnDef> := [
    Filter.ColumnDef("name", None),
    Filter.ColumnDef("homepage", None),
    Filter.ColumnDef("code", None),
    Filter.ColumnDef("engine", None),
    Filter.ColumnDef("status", None),
    Filter.ColumnDef("os", None)
  ]

  /** The sorting state the table starts with. */
  const InitialSorting: seq<Header.SortKey> := [Header.SortKey("name", false)]

  /** The column-filter state the table starts with. */
  const InitialFilters: seq<Filter.ColumnFilter> := []

  /** The table starts sorted by one key, the required name column, ascending: that header
      alone carries an indicator, which is the Table header's literal as written (see
      `Header.TableIndicatorAsWritten`). Every column filters by text and starts unfiltered. */
  lemma InitialTableState()
    ensures |InitialSorting| == 1
    ensures exists c :: c in Columns && c.id == InitialSorting[0].id
    ensures forall c :: c in Columns ==>
      Header.SortedDirection(InitialSorting, c.id)
        == (if c.id == "name" then Some(Header.Asc) else None)
    ensures forall c :: c in Columns ==>
      Header.TableIndicatorAsWritten(Header.SortedDirection(InitialSorting, c.id))
        == (if c.id == "name" then Some(" ðŸ”¼") else None)
    ensures forall c :: c in Columns ==> Filter.WidgetFor(c.meta) == Filter.TextInput
    ensures forall c :: c in Columns ==> Filter.FilterOf(InitialFilters, c.id).None?
  {
  }
}
