/** Menu row bookkeeping of the navigator (src/main.rs): `show_items` puts
    control rows around the content rows and maps the chosen row back to a
    content index; `configure_list` adds its own control rows after the list
    items. Each piece of the source's index arithmetic is paired with the
    rendered row sequence it is meant to match. */
module Menu {

  /** What `show_items` resolves a chosen row to. */
  datatype Selection = ChooseExit | ChooseBack | ChoosePlugin | ChooseContent(index: nat)

  /** A rendered row, as the operator sees it. */
  datatype Row = BackRow | ExitRow | ContentRow(index: nat) | PluginRow

  /** Control rows before the content: `[exit]` at the root, `[back, exit]` below it. */
  function Offset(atRoot: bool): nat {
    if atRoot then 1 else 2
  }

  /** `items.len()` after `show_items` has added its rows. */
  function RowCount(atRoot: bool, contentRows: nat, plugin: bool): nat {
    Offset(atRoot) + contentRows + (if plugin then 1 else 0)
  }

  /** The rendered menu: `[back?] ++ [exit] ++ content ++ [plugin?]`. */
  function Rows(atRoot: bool, contentRows: nat, plugin: bool): (r: seq<Row>)
    ensures |r| == RowCount(atRoot, contentRows, plugin)
  {
    (if atRoot then [] else [BackRow])
      + [ExitRow]
      + seq(contentRows, i requires 0 <= i < contentRows => ContentRow(i))
      + (if plugin then [PluginRow] else [])
  }

  /** `show_items`' resolution of the chosen `index`, as written: row 0 is
      exit at the root and back below it, row 1 below the root is exit, the
      trailing plugin row runs the plugin, and any other row is a content
      index, found by subtracting the control rows before the content. */
  function Resolve(atRoot: bool, contentRows: nat, plugin: bool, index: nat): (r: Selection)
    requires index < RowCount(atRoot, contentRows, plugin)
    ensures r.ChooseContent? ==> r.index < contentRows
    ensures r.ChoosePlugin? ==> plugin
  {
    var lastIndex := RowCount(atRoot, contentRows, plugin);
    var activePlugins := if plugin then 1 else 0;
    if index == 0 then (if atRoot then ChooseExit else ChooseBack)
    else if !atRoot && index == 1 then ChooseExit
    else if index >= lastIndex - activePlugins then ChoosePlugin
    else ChooseContent(if atRoot then index - 1 else index - 2)
  }

  function RowOf(sel: Selection): Row {
    match sel
    case ChooseExit => ExitRow
    case ChooseBack => BackRow
    case ChoosePlugin => PluginRow
    case ChooseContent(i) => ContentRow(i)
  }

  /** The index arithmetic selects exactly the row that is rendered at the
      chosen position. */
  lemma ResolveMatchesRows(atRoot: bool, contentRows: nat, plugin: bool, index: nat)
    requires index < RowCount(atRoot, contentRows, plugin)
    ensures RowOf(Resolve(atRoot, contentRows, plugin, index)) == Rows(atRoot, contentRows, plugin)[index]
  {
  }

  /** Content entry `k` sits `Offset` rows down and resolves back to `k`. */
  lemma ResolveContent(atRoot: bool, contentRows: nat, plugin: bool, k: nat)
    requires k < contentRows
    ensures Offset(atRoot) + k < RowCount(atRoot, contentRows, plugin)
    ensures Resolve(atRoot, contentRows, plugin, Offset(atRoot) + k) == ChooseContent(k)
  {
  }

  /** The last row is the plugin's, when one is offered. */
  lemma ResolvePlugin(atRoot: bool, contentRows: nat)
    ensures Resolve(atRoot, contentRows, true, RowCount(atRoot, contentRows, true) - 1) == ChoosePlugin
  {
  }

  /** The row `Select` highlights first: at the root `show_items` first
      lowers a positive remembered index by one, because there is no back row. */
  function Highlight(atRoot: bool, lastSelectedIndex: nat): nat {
    if atRoot && lastSelectedIndex > 0 then lastSelectedIndex - 1 else lastSelectedIndex
  }

  /** `path_pop` remembers `row + 2`; on the parent's menu that highlights
      the very row that opened the child, at the root and below it. */
  lemma RestoredRow(atRoot: bool, contentRows: nat, plugin: bool, row: nat)
    requires row < contentRows
    ensures Highlight(atRoot, row + 2) < RowCount(atRoot, contentRows, plugin)
    ensures Rows(atRoot, contentRows, plugin)[Highlight(atRoot, row + 2)] == ContentRow(row)
  {
  }

  /** What a content row of a list menu does. */
  datatype ListEntry = OpenItem(i: nat) | RemoveItem(i: nat) | EnterDeleteMode | AddItem

  /** The content rows of a list menu: one per item, then, outside delete
      mode, `[delete]` when the list is not empty and `[add]`. In delete mode
      every item row removes its item. */
  function ListEntries(n: nat, deleteMode: bool): (r: seq<ListEntry>)
  {
    if deleteMode then seq(n, i requires 0 <= i < n => RemoveItem(i))
    else seq(n, i requires 0 <= i < n => OpenItem(i)) + (if n > 0 then [EnterDeleteMode] else []) + [AddItem]
  }

  /** Number of content rows `configure_list` hands to `show_items`. */
  function ListRows(n: nat, deleteMode: bool): (m: nat)
    ensures m == |ListEntries(n, deleteMode)|
  {
    if deleteMode then n else n + (if n > 0 then 1 else 0) + 1
  }

  /** `configure_list`'s decision on a content index, as written: compared
      against `last_index = items.len() - 1`, taken before `show_items`. */
  function ListAction(n: nat, deleteMode: bool, index: nat): (r: ListEntry)
    requires index < ListRows(n, deleteMode)
    ensures r.OpenItem? ==> r.i < n && !deleteMode
    ensures r.RemoveItem? <==> deleteMode
    ensures r.RemoveItem? ==> r.i == index
    ensures r.EnterDeleteMode? ==> n > 0 && !deleteMode
  {
    var lastIndex := ListRows(n, deleteMode) - 1;
    if deleteMode then RemoveItem(index)
    else if n > 0 && index == lastIndex - 1 then EnterDeleteMode
    else if index == lastIndex then AddItem
    else OpenItem(index)
  }

  /** The comparisons pick exactly the entry rendered at that content index. */
  lemma ListActionMatchesEntries(n: nat, deleteMode: bool, index: nat)
    requires index < ListRows(n, deleteMode)
    ensures ListAction(n, deleteMode, index) == ListEntries(n, deleteMode)[index]
  {
  }

  /** A delete row is offered exactly outside delete mode on a non-empty list. */
  lemma DeleteRowOffered(n: nat, deleteMode: bool)
    ensures EnterDeleteMode in ListEntries(n, deleteMode) <==> !deleteMode && n > 0
  {
    var es := ListEntries(n, deleteMode);
    if deleteMode || n == 0 {
      assert forall k :: 0 <= k < |es| ==> es[k] != EnterDeleteMode;
    } else {
      assert es[n] == EnterDeleteMode;
    }
  }
}
