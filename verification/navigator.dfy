/** The tree navigator (`Configuration` in src/main.rs) as a pure state
    machine: one call of `Step` is one iteration of the `configure` loop, with
    the operator's answer to that iteration's prompt given as `Input`. The
    scheme and the plugin registry are fixed for the session and passed
    alongside the state. */
module Navigator {
  import opened Wrappers
  import opened Text
  import opened Decimal
  import opened JsonValue
  import opened Schemes
  import opened Validator
  import opened Cursor
  import opened Menu

  /** A registered plugin: offered where `key` is a suffix of the path
      string; `action` is what it does to the value at the cursor. */
  datatype Plugin = Plugin(key: string, title: string, action: Json -> Json)

  /** The mutable part of `Configuration`. `path_string` is recomputed from
      `path` at the top of every iteration (`PathString`). */
  datatype Configuration = Configuration(
    config: Json,
    path: seq<Segment>,
    lastSelectedIndex: nat,
    exit: bool,
    deleteMode: bool)

  /** The operator's answer: a menu row, a new integer, or a new text. */
  datatype Input = Select(row: nat) | EnterInt(n: int) | EnterText(text: string)

  /** `Configuration::new` after loading: empty path, nothing selected. */
  function Start(config: Json): Configuration {
    Configuration(config, [], 0, false, false)
  }

  /** `"[" + keys.join("][") + "]"`. */
  function PathString(path: seq<Segment>): (r: string)
    ensures |path| == 0 ==> r == "[]"
    ensures |r| >= 2 && r[0] == '[' && r[|r| - 1] == ']'
  {
    "[" + Join(PathKeys(path), "][") + "]"
  }

  /** Pushing a segment appends `[key]` to the path string. */
  lemma PathStringPush(path: seq<Segment>, seg: Segment)
    ensures PathString(path + [seg]) == if |path| == 0 then "[" + seg.key + "]" else PathString(path) + "[" + seg.key + "]"
    ensures EndsWith(PathString(path + [seg]), "[" + seg.key + "]")
  {
    var ks := PathKeys(path);
    assert PathKeys(path + [seg]) == ks + [seg.key];
    var tail := "[" + seg.key + "]";
    if |path| > 0 {
      var j := Join(ks, "][");
      JoinAppend(ks, "][", seg.key);
      assert PathString(path + [seg]) == "[" + (j + "][" + seg.key) + "]";
      Regroup(j, seg.key);
      EndsWithAppend(PathString(path), tail);
    } else {
      EndsWithAppend("", tail);
    }
  }

  lemma Regroup(j: string, k: string)
    ensures "[" + (j + "][" + k) + "]" == ("[" + j + "]") + ("[" + k + "]")
  {
  }

  /** A path string ends with `[key]` for the key of the path's last
      segment. */
  lemma PathStringEnds(path: seq<Segment>)
    requires |path| > 0
    ensures EndsWith(PathString(path), "[" + path[|path| - 1].key + "]")
  {
    var init, last := path[..|path| - 1], path[|path| - 1];
    assert path == init + [last];
    PathStringPush(init, last);
  }

  /** The first registered plugin whose key is a suffix of `ps`. */
  function FindPlugin(plugins: seq<Plugin>, ps: string): (r: Option<nat>)
    ensures r.Some? ==> r.value < |plugins| && EndsWith(ps, plugins[r.value].key)
    ensures r.Some? ==> forall j :: 0 <= j < r.value ==> !EndsWith(ps, plugins[j].key)
    ensures r.None? <==> forall i :: 0 <= i < |plugins| ==> !EndsWith(ps, plugins[i].key)
  {
    if |plugins| == 0 then None
    else if EndsWith(ps, plugins[0].key) then Some(0)
    else
      var rest := FindPlugin(plugins[1..], ps);
      assert forall i :: 1 <= i < |plugins| ==> plugins[i] == plugins[1..][i - 1];
      if rest.None? then None else Some(rest.value + 1)
  }

  /** The plugin row `show_items` adds, if any: never in delete mode. */
  function ActivePlugin(plugins: seq<Plugin>, c: Configuration): (r: Option<nat>)
    ensures r.Some? ==> r.value < |plugins|
  {
    if c.deleteMode then None else FindPlugin(plugins, PathString(c.path))
  }

  /** A plugin row is offered exactly outside delete mode and where some
      registered key is a suffix of the path string; the plugin run is the
      first such one in the registry. */
  lemma PluginOffered(plugins: seq<Plugin>, c: Configuration)
    ensures ActivePlugin(plugins, c).Some? <==>
      !c.deleteMode && exists i :: 0 <= i < |plugins| && EndsWith(PathString(c.path), plugins[i].key)
    ensures ActivePlugin(plugins, c).Some? ==>
      && EndsWith(PathString(c.path), plugins[ActivePlugin(plugins, c).value].key)
      && forall j :: 0 <= j < ActivePlugin(plugins, c).value ==> !EndsWith(PathString(c.path), plugins[j].key)
  {
  }

  /** A plugin registered under `[name]` is offered, outside delete mode,
      on every node reached through a segment named `name`. */
  lemma KeyedPluginOffered(plugins: seq<Plugin>, c: Configuration, i: nat)
    requires !c.deleteMode && |c.path| > 0
    requires i < |plugins| && plugins[i].key == "[" + c.path[|c.path| - 1].key + "]"
    ensures ActivePlugin(plugins, c).Some?
    ensures ActivePlugin(plugins, c).value <= i
  {
    PathStringEnds(c.path);
    PluginOffered(plugins, c);
  }

  /** `path_push`. */
  function Push(c: Configuration, seg: Segment): Configuration {
    c.(path := c.path + [seg], deleteMode := false, lastSelectedIndex := 0)
  }

  /** `path_pop`: the parent's remembered row is the popped segment's row + 2;
      popping at the root only resets the remembered row. */
  function Pop(c: Configuration): Configuration {
    if |c.path| == 0 then c.(deleteMode := false, lastSelectedIndex := 0)
    else c.(path := c.path[..|c.path| - 1], deleteMode := false,
            lastSelectedIndex := c.path[|c.path| - 1].row + 2)
  }

  /** The number of content rows the menu at the cursor shows, when the
      cursor is on an `Object` or `List` whose value has the matching kind. */
  function ContentRows(s: Scheme, c: Configuration): Option<nat> {
    var node := SchemeAt(s, c.path);
    var v := ValueAt(c.config, c.path);
    if node.None? || v.None? then None
    else
      match node.value
      case Object(fs) => if v.value.JObj? then Some(|fs|) else None
      case List(_, _) => if v.value.JArr? then Some(ListRows(|v.value.items|, c.deleteMode)) else None
      case _ => None
  }

  /** The answers the terminal can give at the cursor: an `i64` at an `Int`
      node, any text at a `Str` node, and a row of the rendered menu at an
      `Object` or `List` node. */
  predicate Admissible(s: Scheme, plugins: seq<Plugin>, c: Configuration, input: Input) {
    match SchemeAt(s, c.path)
    case None => true
    case Some(Int(_)) => input.EnterInt? && InI64(input.n)
    case Some(Str(_)) => input.EnterText?
    case Some(_) =>
      && input.Select?
      && (ContentRows(s, c).Some? ==>
            input.row < RowCount(|c.path| == 0, ContentRows(s, c).value, ActivePlugin(plugins, c).Some?))
  }

  /** `d` is `c` after an edit returned the cursor to the parent: the last
      segment is dropped and the parent highlights the row that opened it;
      delete mode is off and the session goes on. */
  predicate Returned(c: Configuration, d: Configuration) {
    && d.path == (if |c.path| == 0 then [] else c.path[..|c.path| - 1])
    && d.lastSelectedIndex == (if |c.path| == 0 then 0 else c.path[|c.path| - 1].row + 2)
    && !d.deleteMode && d.exit == c.exit
  }

  /** `configure_int`: the current value must be an `i64` (`as_i64().unwrap()`);
      the new number replaces it and the cursor goes back to the parent. */
  function EditInt(c: Configuration, n: int): (r: Option<Configuration>)
    ensures r.Some? <==>
      && ValueAt(c.config, c.path).Some? && ValueAt(c.config, c.path).value.JNum?
      && InI64(ValueAt(c.config, c.path).value.n)
    ensures r.Some? ==> r.value.config == SetAt(c.config, c.path, JNum(n))
    ensures r.Some? ==> Returned(c, r.value)
  {
    var v := ValueAt(c.config, c.path);
    if v.None? || !v.value.JNum? || !InI64(v.value.n) then None
    else Some(Pop(c.(config := SetAt(c.config, c.path, JNum(n)))))
  }

  /** `configure_str`: the current value must be a string; the trimmed input
      replaces it and the cursor goes back to the parent. */
  function EditStr(c: Configuration, text: string): (r: Option<Configuration>)
    ensures r.Some? <==> ValueAt(c.config, c.path).Some? && ValueAt(c.config, c.path).value.JStr?
    ensures r.Some? ==> r.value.config == SetAt(c.config, c.path, JStr(Trim(text)))
    ensures r.Some? ==> Returned(c, r.value)
  {
    var v := ValueAt(c.config, c.path);
    if v.None? || !v.value.JStr? then None
    else Some(Pop(c.(config := SetAt(c.config, c.path, JStr(Trim(text))))))
  }

  /** The state after `show_items` has prepared the menu: at the root a
      positive remembered row is lowered by one. */
  function Shown(c: Configuration): (r: Configuration)
    ensures r == c.(lastSelectedIndex := Highlight(|c.path| == 0, c.lastSelectedIndex))
  {
    if |c.path| == 0 && c.lastSelectedIndex > 0 then c.(lastSelectedIndex := c.lastSelectedIndex - 1) else c
  }

  /** The control rows of `show_items`: exit, back, or the plugin, which runs
      on the value at the cursor and leaves the cursor where it is. */
  function Control(plugins: seq<Plugin>, c: Configuration, sel: Selection): Option<Configuration>
    requires !sel.ChooseContent?
  {
    match sel
    case ChooseExit => Some(c.(exit := true))
    case ChooseBack => Some(Pop(c))
    case ChoosePlugin =>
      var p := ActivePlugin(plugins, c);
      var v := ValueAt(c.config, c.path);
      if p.None? || v.None? then None
      else Some(c.(config := SetAt(c.config, c.path, plugins[p.value].action(v.value))))
  }

  /** `configure_object`: every field key must be in the value (the labels
      `unwrap` it); a content row pushes that field with its row. */
  function ConfigureObject(fs: seq<(string, Scheme)>, plugins: seq<Plugin>, c: Configuration, row: nat): Option<Configuration>
  {
    var v := ValueAt(c.config, c.path);
    if v.None? || !v.value.JObj? || exists i :: 0 <= i < |fs| && Get(v.value.entries, fs[i].0).None? then None
    else
      var plugin := ActivePlugin(plugins, c).Some?;
      if row >= RowCount(|c.path| == 0, |fs|, plugin) then None
      else
        var sel := Resolve(|c.path| == 0, |fs|, plugin, row);
        var c1 := Shown(c);
        if !sel.ChooseContent? then Control(plugins, c1, sel)
        else if sel.index < |fs| then Some(Push(c1, Segment(fs[sel.index].0, sel.index)))
        else None
  }

  /** The label of a list item before it is shortened: the item as JSON
      text (`render` stands for serde_json's `Display`), behind an arrow in
      delete mode. */
  function ItemLabel(render: Json -> string, item: Json, deleteMode: bool): string {
    (if deleteMode then "-> " else "") + render(item)
  }

  /** A label longer than 100 bytes is cut at byte 100 (`s[..100]`), which
      panics unless byte 100 starts a character. */
  predicate Cuttable(t: string) {
    Utf8Length(t) <= 100 || OnBoundary(t, 100)
  }

  predicate LabelsCuttable(render: Json -> string, items: seq<Json>, deleteMode: bool) {
    forall i :: 0 <= i < |items| ==> Cuttable(ItemLabel(render, items[i], deleteMode))
  }

  /** Where the cursor is on an array, every item's label can be cut. */
  predicate LabelsFit(render: Json -> string, c: Configuration) {
    var v := ValueAt(c.config, c.path);
    v.Some? && v.value.JArr? ==> LabelsCuttable(render, v.value.items, c.deleteMode)
  }

  /** Text of one-byte characters can always be cut. */
  lemma AsciiLabelsCuttable(render: Json -> string, items: seq<Json>, deleteMode: bool)
    requires forall i :: 0 <= i < |items| ==> IsAscii(render(items[i]))
    ensures LabelsCuttable(render, items, deleteMode)
  {
    forall i | 0 <= i < |items| ensures Cuttable(ItemLabel(render, items[i], deleteMode)) {
      var t := ItemLabel(render, items[i], deleteMode);
      var pre := if deleteMode then "-> " else "";
      assert t == pre + render(items[i]);
      assert IsAscii(t) by {
        forall k | 0 <= k < |t| ensures t[k] as int < 0x80 {
          if k >= |pre| {
            assert t[k] == render(items[i])[k - |pre|];
          }
        }
      }
      AsciiBytes(t, 100);
    }
  }

  /** A two-byte character at bytes 99 and 100 cannot be cut: 99 one-byte
      characters followed by `é` is such a label. */
  lemma SplitCharUncuttable(a: string, b: string)
    requires IsAscii(a) && |a| == 99
    ensures !Cuttable(a + "é" + b)
  {
    var t := "é" + b;
    assert a + "é" + b == a + t;
    AsciiPrefixShift(a, t, 100);
    assert t[0] == 'é' && t[1..] == b;
    assert Utf8Width('é') == 2;
  }

  /** `configure_list`. The labels are cut before the menu is shown (a label
      that cannot be cut panics), and `last_index = items.len() - 1` is
      computed before it too, so an empty menu (delete mode on an empty list)
      panics. */
  function ConfigureList(elem: Scheme, plugins: seq<Plugin>, render: Json -> string, c: Configuration, row: nat): Option<Configuration>
  {
    var v := ValueAt(c.config, c.path);
    if v.None? || !v.value.JArr? then None
    else if !LabelsCuttable(render, v.value.items, c.deleteMode) then None
    else
      var n := |v.value.items|;
      var m := ListRows(n, c.deleteMode);
      var plugin := ActivePlugin(plugins, c).Some?;
      if m == 0 || row >= RowCount(|c.path| == 0, m, plugin) then None
      else
        var sel := Resolve(|c.path| == 0, m, plugin, row);
        if !sel.ChooseContent? then Control(plugins, Shown(c), sel)
        else Some(ListEdit(elem, Shown(c), v.value.items, ListAction(n, c.deleteMode, sel.index)))
  }

  /** The list rows' effects on the state after `show_items`: remove an item
      and leave delete mode, enter delete mode, append the element default
      and open it, or open an item. */
  function ListEdit(elem: Scheme, c: Configuration, items: seq<Json>, entry: ListEntry): Configuration
    requires entry.OpenItem? || entry.RemoveItem? ==> entry.i < |items|
  {
    match entry
    case RemoveItem(i) =>
      c.(config := SetAt(c.config, c.path, JArr(items[..i] + items[i + 1..])), deleteMode := false)
    case EnterDeleteMode =>
      c.(lastSelectedIndex := 0, deleteMode := true)
    case AddItem =>
      Push(Appended(elem, c, items), Segment(NatToString(|items|), |items|))
    case OpenItem(i) =>
      Push(c, Segment(NatToString(i), i))
  }

  /** The `[add]` row before the new item is opened: the element default is
      appended to the array at the cursor, and the remembered row is set past
      the new item's row (`last_index + 2` on an empty list, `+ 1` otherwise). */
  function Appended(elem: Scheme, c: Configuration, items: seq<Json>): (r: Configuration)
    ensures r.path == c.path && r.exit == c.exit && r.deleteMode == c.deleteMode
    ensures r.config == SetAt(c.config, c.path, JArr(items + [Default(elem)]))
  {
    var n := |items|;
    var lastIndex := ListRows(n, false) - 1;
    c.(config := SetAt(c.config, c.path, JArr(items + [Default(elem)])),
       lastSelectedIndex := if n == 0 then lastIndex + 2 else lastIndex + 1)
  }

  /** One iteration of `configure`: dispatch on the scheme node at the
      cursor. `None` is an abort (a panic or `exit(-1)`). */
  function Step(s: Scheme, plugins: seq<Plugin>, render: Json -> string, c: Configuration, input: Input): Option<Configuration>
    requires !c.exit && Admissible(s, plugins, c, input)
  {
    match SchemeAt(s, c.path)
    case None => None
    case Some(Int(_)) => EditInt(c, input.n)
    case Some(Str(_)) => EditStr(c, input.text)
    case Some(Object(fs)) => ConfigureObject(fs, plugins, c, input.row)
    case Some(List(e, _)) => ConfigureList(e, plugins, render, c, input.row)
  }

  /** Delete mode is only ever on a non-empty list. */
  predicate DeleteModeOnNonEmptyList(s: Scheme, c: Configuration) {
    c.deleteMode ==>
      && SchemeAt(s, c.path).Some? && SchemeAt(s, c.path).value.List?
      && ValueAt(c.config, c.path).Some? && ValueAt(c.config, c.path).value.JArr?
      && |ValueAt(c.config, c.path).value.items| > 0
  }

  /** The navigator's invariant: the value conforms to the scheme, the cursor
      is a legal path in both trees, and delete mode is on a non-empty list. */
  predicate Inv(s: Scheme, c: Configuration) {
    && Conforms(c.config, s, I64Number)
    && Tracks(c.config, s, c.path)
    && DeleteModeOnNonEmptyList(s, c)
  }

  /** A plugin action keeps a value conforming to `node`. */
  ghost predicate Preserves(action: Json -> Json, node: Scheme) {
    forall v :: Conforms(v, node, I64Number) ==> Conforms(action(v), node, I64Number)
  }

  /** Every plugin keeps the node at the cursor conforming. */
  ghost predicate PluginsSafe(s: Scheme, plugins: seq<Plugin>, c: Configuration) {
    SchemeAt(s, c.path).Some? ==>
      forall i :: 0 <= i < |plugins| ==> Preserves(plugins[i].action, SchemeAt(s, c.path).value)
  }

  /** Facts the invariant gives about the node under the cursor. */
  lemma AtCursor(s: Scheme, c: Configuration)
    requires WellFormed(s) && Inv(s, c)
    ensures SchemeAt(s, c.path).Some? && ValueAt(c.config, c.path).Some?
    ensures Conforms(ValueAt(c.config, c.path).value, SchemeAt(s, c.path).value, I64Number)
    ensures WellFormed(SchemeAt(s, c.path).value)
  {
    TracksResolves(c.config, s, c.path, I64Number);
  }

  /** Replacing the node under the cursor by a conforming node keeps the
      value conforming and the cursor tracked, and the cursor then reaches
      the new node. */
  lemma ReplaceAtCursor(s: Scheme, c: Configuration, n: Json)
    requires WellFormed(s) && Inv(s, c)
    requires SchemeAt(s, c.path).Some? && Conforms(n, SchemeAt(s, c.path).value, I64Number)
    ensures Conforms(SetAt(c.config, c.path, n), s, I64Number)
    ensures Tracks(SetAt(c.config, c.path, n), s, c.path)
    ensures ValueAt(SetAt(c.config, c.path, n), c.path) == Some(n)
  {
    SetAtTracks(c.config, s, c.path, n);
    SetAtConforms(c.config, s, c.path, n, I64Number);
  }

  /** `path_pop` keeps a conforming, tracked state within the invariant. */
  lemma PopKeepsInv(s: Scheme, c: Configuration)
    requires Conforms(c.config, s, I64Number) && Tracks(c.config, s, c.path)
    ensures Inv(s, Pop(c))
  {
    if |c.path| > 0 {
      TracksPrefix(c.config, s, c.path);
    }
  }

  /** `path_push` of a legal step keeps the invariant. */
  lemma PushKeepsInv(s: Scheme, c: Configuration, seg: Segment)
    requires Conforms(c.config, s, I64Number) && Tracks(c.config, s, c.path)
    requires ValueAt(c.config, c.path).Some? && SchemeAt(s, c.path).Some?
    requires StepOk(ValueAt(c.config, c.path).value, SchemeAt(s, c.path).value, seg)
    ensures Inv(s, Push(c, seg))
  {
    TracksExtend(c.config, s, c.path, seg);
  }

  /** The exit, back and plugin rows keep the invariant, and none aborts. */
  lemma ControlKeepsInv(s: Scheme, plugins: seq<Plugin>, c: Configuration, sel: Selection)
    requires WellFormed(s) && Inv(s, c) && PluginsSafe(s, plugins, c)
    requires !sel.ChooseContent? && (sel.ChoosePlugin? ==> ActivePlugin(plugins, c).Some?)
    ensures Control(plugins, c, sel).Some? && Inv(s, Control(plugins, c, sel).value)
  {
    AtCursor(s, c);
    match sel
    case ChooseExit =>
    case ChooseBack => PopKeepsInv(s, c);
    case ChoosePlugin =>
      var p := ActivePlugin(plugins, c).value;
      var node := SchemeAt(s, c.path).value;
      var v := ValueAt(c.config, c.path).value;
      assert Preserves(plugins[p].action, node);
      ReplaceAtCursor(s, c, plugins[p].action(v));
  }

  lemma EditIntKeepsInv(s: Scheme, c: Configuration, n: int)
    requires WellFormed(s) && Inv(s, c) && InI64(n)
    requires SchemeAt(s, c.path).Some? && SchemeAt(s, c.path).value.Int?
    ensures EditInt(c, n).Some? && Inv(s, EditInt(c, n).value)
  {
    AtCursor(s, c);
    ReplaceAtCursor(s, c, JNum(n));
    PopKeepsInv(s, c.(config := SetAt(c.config, c.path, JNum(n))));
  }

  lemma EditStrKeepsInv(s: Scheme, c: Configuration, text: string)
    requires WellFormed(s) && Inv(s, c)
    requires SchemeAt(s, c.path).Some? && SchemeAt(s, c.path).value.Str?
    ensures EditStr(c, text).Some? && Inv(s, EditStr(c, text).value)
  {
    AtCursor(s, c);
    ReplaceAtCursor(s, c, JStr(Trim(text)));
    PopKeepsInv(s, c.(config := SetAt(c.config, c.path, JStr(Trim(text)))));
  }

  /** What `configure_object` does once its value is an object holding
      every field: the chosen row either pushes a field or is a control row. */
  lemma ObjectResult(fs: seq<(string, Scheme)>, plugins: seq<Plugin>, c: Configuration, row: nat)
    requires ValueAt(c.config, c.path).Some? && ValueAt(c.config, c.path).value.JObj?
    requires forall i :: 0 <= i < |fs| ==> Get(ValueAt(c.config, c.path).value.entries, fs[i].0).Some?
    requires row < RowCount(|c.path| == 0, |fs|, ActivePlugin(plugins, c).Some?)
    ensures var sel := Resolve(|c.path| == 0, |fs|, ActivePlugin(plugins, c).Some?, row);
      ConfigureObject(fs, plugins, c, row) ==
        if sel.ChooseContent? then Some(Push(Shown(c), Segment(fs[sel.index].0, sel.index)))
        else Control(plugins, Shown(c), sel)
  {
  }

  lemma ObjectKeepsInv(s: Scheme, plugins: seq<Plugin>, c: Configuration, row: nat)
    requires WellFormed(s) && Inv(s, c) && PluginsSafe(s, plugins, c)
    requires SchemeAt(s, c.path).Some? && SchemeAt(s, c.path).value.Object?
    requires row < RowCount(|c.path| == 0, |SchemeAt(s, c.path).value.fields|, ActivePlugin(plugins, c).Some?)
    ensures ConfigureObject(SchemeAt(s, c.path).value.fields, plugins, c, row).Some?
    ensures Inv(s, ConfigureObject(SchemeAt(s, c.path).value.fields, plugins, c, row).value)
  {
    AtCursor(s, c);
    var fs := SchemeAt(s, c.path).value.fields;
    var v := ValueAt(c.config, c.path).value;
    assert forall i :: 0 <= i < |fs| ==> Get(v.entries, fs[i].0).Some?;
    ObjectResult(fs, plugins, c, row);
    var sel := Resolve(|c.path| == 0, |fs|, ActivePlugin(plugins, c).Some?, row);
    var c1 := Shown(c);
    if sel.ChooseContent? {
      var i := sel.index;
      PushKeepsInv(s, c1, Segment(fs[i].0, i));
    } else {
      ControlKeepsInv(s, plugins, c1, sel);
    }
  }

  /** One list row keeps the invariant. */
  lemma ListEditKeepsInv(s: Scheme, c: Configuration, e: Scheme, d: Json, items: seq<Json>, entry: ListEntry)
    requires WellFormed(s) && Inv(s, c)
    requires SchemeAt(s, c.path) == Some(List(e, d)) && ValueAt(c.config, c.path) == Some(JArr(items))
    requires entry.OpenItem? || entry.RemoveItem? ==> entry.i < |items|
    requires entry.EnterDeleteMode? ==> |items| > 0
    ensures Inv(s, ListEdit(e, c, items, entry))
  {
    match entry
    case RemoveItem(i) => RemoveKeepsInv(s, c, e, d, items, i);
    case EnterDeleteMode =>
    case AddItem => AddKeepsInv(s, c, e, d, items);
    case OpenItem(i) =>
      PushKeepsInv(s, c, Segment(NatToString(i), i));
  }

  lemma RemoveKeepsInv(s: Scheme, c: Configuration, e: Scheme, d: Json, items: seq<Json>, i: nat)
    requires WellFormed(s) && Inv(s, c)
    requires SchemeAt(s, c.path) == Some(List(e, d)) && ValueAt(c.config, c.path) == Some(JArr(items))
    requires i < |items|
    ensures Inv(s, ListEdit(e, c, items, RemoveItem(i)))
  {
    var rest := items[..i] + items[i + 1..];
    AtCursor(s, c);
    RemoveConforms(items, i, e, d);
    ReplaceAtCursor(s, c, JArr(rest));
    var r := ListEdit(e, c, items, RemoveItem(i));
    assert r.config == SetAt(c.config, c.path, JArr(rest)) && r.path == c.path && !r.deleteMode;
  }

  /** Removing one item of a conforming array keeps it conforming. */
  lemma RemoveConforms(items: seq<Json>, i: nat, e: Scheme, d: Json)
    requires Conforms(JArr(items), List(e, d), I64Number) && i < |items|
    ensures Conforms(JArr(items[..i] + items[i + 1..]), List(e, d), I64Number)
  {
    var rest := items[..i] + items[i + 1..];
    forall j | 0 <= j < |rest| ensures Conforms(rest[j], e, I64Number) {
      assert rest[j] == if j < i then items[j] else items[j + 1];
    }
  }

  lemma AddKeepsInv(s: Scheme, c: Configuration, e: Scheme, d: Json, items: seq<Json>)
    requires WellFormed(s) && Inv(s, c)
    requires SchemeAt(s, c.path) == Some(List(e, d)) && ValueAt(c.config, c.path) == Some(JArr(items))
    ensures Inv(s, ListEdit(e, c, items, AddItem))
  {
    var n := |items|;
    var grown := items + [Default(e)];
    AtCursor(s, c);
    AddConforms(items, e, d);
    ReplaceAtCursor(s, c, JArr(grown));
    var c2 := Appended(e, c, items);
    assert Conforms(c2.config, s, I64Number) && Tracks(c2.config, s, c2.path);
    assert ValueAt(c2.config, c2.path) == Some(JArr(grown));
    var seg := Segment(NatToString(n), n);
    assert StepOk(JArr(grown), List(e, d), seg);
    PushKeepsInv(s, c2, seg);
    assert ListEdit(e, c, items, AddItem) == Push(c2, seg);
  }

  /** Appending the element default to a conforming array keeps it
      conforming. */
  lemma AddConforms(items: seq<Json>, e: Scheme, d: Json)
    requires Conforms(JArr(items), List(e, d), I64Number) && WellFormed(List(e, d))
    ensures Conforms(JArr(items + [Default(e)]), List(e, d), I64Number)
  {
    var grown := items + [Default(e)];
    DefaultConforms(e);
    forall j | 0 <= j < |grown| ensures Conforms(grown[j], e, I64Number) {
      assert grown[j] == if j < |items| then items[j] else Default(e);
    }
  }

  /** What `configure_list` does once its value is an array and the menu is
      not empty. */
  lemma ListResult(e: Scheme, plugins: seq<Plugin>, render: Json -> string, c: Configuration, items: seq<Json>, row: nat)
    requires LabelsFit(render, c)
    requires ValueAt(c.config, c.path) == Some(JArr(items)) && ListRows(|items|, c.deleteMode) > 0
    requires row < RowCount(|c.path| == 0, ListRows(|items|, c.deleteMode), ActivePlugin(plugins, c).Some?)
    ensures var sel := Resolve(|c.path| == 0, ListRows(|items|, c.deleteMode), ActivePlugin(plugins, c).Some?, row);
      ConfigureList(e, plugins, render, c, row) ==
        if sel.ChooseContent? then Some(ListEdit(e, Shown(c), items, ListAction(|items|, c.deleteMode, sel.index)))
        else Control(plugins, Shown(c), sel)
  {
  }

  lemma ListKeepsInv(s: Scheme, plugins: seq<Plugin>, render: Json -> string, c: Configuration, row: nat)
    requires LabelsFit(render, c)
    requires WellFormed(s) && Inv(s, c) && PluginsSafe(s, plugins, c)
    requires SchemeAt(s, c.path).Some? && SchemeAt(s, c.path).value.List?
    requires ValueAt(c.config, c.path).Some? && ValueAt(c.config, c.path).value.JArr?
    requires row < RowCount(|c.path| == 0, ListRows(|ValueAt(c.config, c.path).value.items|, c.deleteMode),
                            ActivePlugin(plugins, c).Some?)
    ensures ConfigureList(SchemeAt(s, c.path).value.elem, plugins, render, c, row).Some?
    ensures Inv(s, ConfigureList(SchemeAt(s, c.path).value.elem, plugins, render, c, row).value)
  {
    var e := SchemeAt(s, c.path).value.elem;
    var d := SchemeAt(s, c.path).value.listDefault;
    var items := ValueAt(c.config, c.path).value.items;
    var m := ListRows(|items|, c.deleteMode);
    assert m > 0;
    ListResult(e, plugins, render, c, items, row);
    var sel := Resolve(|c.path| == 0, m, ActivePlugin(plugins, c).Some?, row);
    if !sel.ChooseContent? {
      ControlKeepsInv(s, plugins, Shown(c), sel);
    } else {
      ListEditKeepsInv(s, Shown(c), e, d, items, ListAction(|items|, c.deleteMode, sel.index));
    }
  }

  /** A list with an item whose label cannot be cut aborts, whatever row is
      chosen: the labels are made before the menu is shown. */
  lemma ListLabelAborts(s: Scheme, plugins: seq<Plugin>, render: Json -> string, c: Configuration,
                        e: Scheme, d: Json, items: seq<Json>, i: nat, row: nat)
    requires !c.exit
    requires SchemeAt(s, c.path) == Some(List(e, d)) && ValueAt(c.config, c.path) == Some(JArr(items))
    requires i < |items| && !Cuttable(ItemLabel(render, items[i], c.deleteMode))
    requires Admissible(s, plugins, c, Select(row))
    ensures !LabelsFit(render, c)
    ensures Step(s, plugins, render, c, Select(row)).None?
  {
  }

  /** Every admissible answer on a state satisfying the invariant, with
      plugins that keep their node conforming, neither aborts nor breaks the
      invariant: the value keeps conforming to the scheme, the cursor stays
      a legal path, and delete mode stays on a non-empty list. */
  lemma StepPreservesInv(s: Scheme, plugins: seq<Plugin>, render: Json -> string, c: Configuration, input: Input)
    requires LabelsFit(render, c)
    requires WellFormed(s) && Inv(s, c) && !c.exit
    requires Admissible(s, plugins, c, input) && PluginsSafe(s, plugins, c)
    ensures Step(s, plugins, render, c, input).Some?
    ensures Inv(s, Step(s, plugins, render, c, input).value)
  {
    AtCursor(s, c);
    match SchemeAt(s, c.path).value
    case Int(_) => EditIntKeepsInv(s, c, input.n);
    case Str(_) => EditStrKeepsInv(s, c, input.text);
    case Object(fs) => ObjectKeepsInv(s, plugins, c, input.row);
    case List(e, _) => ListKeepsInv(s, plugins, render, c, input.row);
  }

  /** A document accepted by the corrected loader starts a session in the
      invariant. */
  lemma StartInv(loaded: Result<Json, string>, s: Scheme)
    requires LoadConfigStrict(loaded, s).Success?
    ensures Inv(s, Start(LoadConfigStrict(loaded, s).value))
  {
  }

  /** `path_pop` undoes `path_push`, remembering the row that opened the child. */
  lemma PopAfterPush(c: Configuration, seg: Segment)
    ensures Pop(Push(c, seg)).path == c.path
    ensures Pop(Push(c, seg)).config == c.config
    ensures Pop(Push(c, seg)).lastSelectedIndex == seg.row + 2
    ensures !Pop(Push(c, seg)).deleteMode
  {
    assert (c.path + [seg])[..|c.path|] == c.path;
  }

  /** The menu row showing content entry `k` at the cursor. */
  function ItemRow(c: Configuration, k: nat): nat {
    Offset(|c.path| == 0) + k
  }

  /** Any row of the rendered menu is an admissible answer at a menu node. */
  lemma MenuAdmissible(s: Scheme, plugins: seq<Plugin>, c: Configuration, row: nat)
    requires SchemeAt(s, c.path).Some? && (SchemeAt(s, c.path).value.Object? || SchemeAt(s, c.path).value.List?)
    requires ContentRows(s, c).Some?
    requires row < RowCount(|c.path| == 0, ContentRows(s, c).value, ActivePlugin(plugins, c).Some?)
    ensures Admissible(s, plugins, c, Select(row))
  {
  }

  /** At an `Object` node a step is `configure_object`. */
  lemma StepOnObject(s: Scheme, plugins: seq<Plugin>, render: Json -> string, c: Configuration, row: nat)
    requires !c.exit && SchemeAt(s, c.path).Some? && SchemeAt(s, c.path).value.Object?
    requires Admissible(s, plugins, c, Select(row))
    ensures Step(s, plugins, render, c, Select(row)) == ConfigureObject(SchemeAt(s, c.path).value.fields, plugins, c, row)
  {
  }

  /** At a `List` node a step is `configure_list`. */
  lemma StepOnList(s: Scheme, plugins: seq<Plugin>, render: Json -> string, c: Configuration, row: nat)
    requires !c.exit && SchemeAt(s, c.path).Some? && SchemeAt(s, c.path).value.List?
    requires Admissible(s, plugins, c, Select(row))
    ensures Step(s, plugins, render, c, Select(row)) == ConfigureList(SchemeAt(s, c.path).value.elem, plugins, render, c, row)
  {
  }

  /** Choosing content row `k` of a list menu performs the list entry
      rendered there. */
  lemma ListRow(s: Scheme, plugins: seq<Plugin>, render: Json -> string, c: Configuration, e: Scheme, d: Json, items: seq<Json>, k: nat)
    requires LabelsFit(render, c)
    requires !c.exit
    requires SchemeAt(s, c.path) == Some(List(e, d)) && ValueAt(c.config, c.path) == Some(JArr(items))
    requires k < ListRows(|items|, c.deleteMode)
    ensures Admissible(s, plugins, c, Select(ItemRow(c, k)))
    ensures Step(s, plugins, render, c, Select(ItemRow(c, k))) ==
      Some(ListEdit(e, Shown(c), items, ListEntries(|items|, c.deleteMode)[k]))
  {
    var m := ListRows(|items|, c.deleteMode);
    var plugin := ActivePlugin(plugins, c).Some?;
    assert ContentRows(s, c) == Some(m);
    ResolveContent(|c.path| == 0, m, plugin, k);
    MenuAdmissible(s, plugins, c, ItemRow(c, k));
    StepOnList(s, plugins, render, c, ItemRow(c, k));
    ListResult(e, plugins, render, c, items, ItemRow(c, k));
    ListActionMatchesEntries(|items|, c.deleteMode, k);
  }

  /** The add row, the last content row outside delete mode, appends the
      element scheme's default to the list and opens the new element: the
      cursor moves to `(len - 1, len - 1)` with nothing remembered, and
      coming back from it highlights the new item. */
  lemma ListAdd(s: Scheme, plugins: seq<Plugin>, render: Json -> string, c: Configuration, e: Scheme, d: Json, items: seq<Json>,
                r: Option<Configuration>)
    requires LabelsFit(render, c)
    requires WellFormed(s) && Inv(s, c) && !c.exit && !c.deleteMode
    requires SchemeAt(s, c.path) == Some(List(e, d)) && ValueAt(c.config, c.path) == Some(JArr(items))
    requires Admissible(s, plugins, c, Select(ItemRow(c, ListRows(|items|, false) - 1)))
    requires r == Step(s, plugins, render, c, Select(ItemRow(c, ListRows(|items|, false) - 1)))
    ensures r.Some?
    ensures SameOutside(c.config, r.value.config, c.path)
    ensures r.value.path == c.path + [Segment(NatToString(|items|), |items|)]
    ensures ValueAt(r.value.config, c.path) == Some(JArr(items + [Default(e)]))
    ensures ValueAt(r.value.config, r.value.path) == Some(Default(e))
    ensures r.value.lastSelectedIndex == 0 && !r.value.deleteMode
    ensures Pop(r.value).path == c.path && Pop(r.value).lastSelectedIndex == |items| + 2
  {
    SetAtFrame(c.config, s, c.path, JArr(items + [Default(e)]));
    var n := |items|;
    var m := ListRows(n, false);
    ListRow(s, plugins, render, c, e, d, items, m - 1);
    assert ListEntries(n, false)[m - 1] == AddItem;
    var grown := items + [Default(e)];
    var c1 := Shown(c);
    SetAtTracks(c.config, s, c.path, JArr(grown));
    var seg := Segment(NatToString(n), n);
    var c2 := Appended(e, c1, items);
    assert r == Some(Push(c2, seg));
    assert ValueAt(c2.config, c.path) == Some(JArr(grown));
    ParseIndexRoundTrip(n);
    assert StepOk(JArr(grown), List(e, d), seg);
    TracksExtend(c2.config, s, c.path, seg);
    assert ValueChild(JArr(grown), List(e, d), seg) == Default(e);
    PopAfterPush(c2, seg);
  }

  /** In delete mode, item row `i` removes exactly item `i` and leaves delete
      mode; the cursor stays on the list. */
  lemma ListDelete(s: Scheme, plugins: seq<Plugin>, render: Json -> string, c: Configuration, e: Scheme, d: Json, items: seq<Json>,
                   i: nat, r: Option<Configuration>)
    requires LabelsFit(render, c)
    requires Inv(s, c) && !c.exit && c.deleteMode
    requires SchemeAt(s, c.path) == Some(List(e, d)) && ValueAt(c.config, c.path) == Some(JArr(items))
    requires i < |items|
    requires Admissible(s, plugins, c, Select(ItemRow(c, i)))
    requires r == Step(s, plugins, render, c, Select(ItemRow(c, i)))
    ensures r.Some?
    ensures SameOutside(c.config, r.value.config, c.path)
    ensures r.value.path == c.path
    ensures ValueAt(r.value.config, c.path) == Some(JArr(items[..i] + items[i + 1..]))
    ensures !r.value.deleteMode && !r.value.exit
  {
    SetAtFrame(c.config, s, c.path, JArr(items[..i] + items[i + 1..]));
    ListRow(s, plugins, render, c, e, d, items, i);
    SetAtTracks(c.config, s, c.path, JArr(items[..i] + items[i + 1..]));
  }

  /** The delete row, offered below the items of a non-empty list, switches
      delete mode on without touching the value or the cursor. */
  lemma ListEnterDelete(s: Scheme, plugins: seq<Plugin>, render: Json -> string, c: Configuration, e: Scheme, d: Json, items: seq<Json>)
    requires LabelsFit(render, c)
    requires !c.exit && !c.deleteMode && |items| > 0
    requires SchemeAt(s, c.path) == Some(List(e, d)) && ValueAt(c.config, c.path) == Some(JArr(items))
    ensures Admissible(s, plugins, c, Select(ItemRow(c, |items|)))
    ensures Step(s, plugins, render, c, Select(ItemRow(c, |items|))) == Some(c.(lastSelectedIndex := 0, deleteMode := true))
  {
    ListRow(s, plugins, render, c, e, d, items, |items|);
    assert ListEntries(|items|, false)[|items|] == EnterDeleteMode;
  }

  /** Outside delete mode, item row `i` opens item `i` without touching the
      value. */
  lemma ListOpen(s: Scheme, plugins: seq<Plugin>, render: Json -> string, c: Configuration, e: Scheme, d: Json, items: seq<Json>,
                 i: nat, r: Option<Configuration>)
    requires LabelsFit(render, c)
    requires Inv(s, c) && !c.exit && !c.deleteMode
    requires SchemeAt(s, c.path) == Some(List(e, d)) && ValueAt(c.config, c.path) == Some(JArr(items))
    requires i < |items|
    requires Admissible(s, plugins, c, Select(ItemRow(c, i)))
    requires r == Step(s, plugins, render, c, Select(ItemRow(c, i)))
    ensures r.Some?
    ensures r.value.path == c.path + [Segment(NatToString(i), i)]
    ensures r.value.config == c.config
    ensures SchemeAt(s, r.value.path) == Some(e)
    ensures ValueAt(r.value.config, r.value.path) == Some(items[i])
  {
    ListRow(s, plugins, render, c, e, d, items, i);
    assert ListEntries(|items|, false)[i] == OpenItem(i);
    TracksExtend(c.config, s, c.path, Segment(NatToString(i), i));
  }

  /** Choosing content row `k` of an object menu pushes field `k`. */
  lemma ObjectRow(s: Scheme, plugins: seq<Plugin>, render: Json -> string, c: Configuration, k: nat)
    requires !c.exit && SchemeAt(s, c.path).Some? && SchemeAt(s, c.path).value.Object?
    requires ValueAt(c.config, c.path).Some? && ValueAt(c.config, c.path).value.JObj?
    requires forall j :: 0 <= j < |SchemeAt(s, c.path).value.fields| ==>
      Get(ValueAt(c.config, c.path).value.entries, SchemeAt(s, c.path).value.fields[j].0).Some?
    requires k < |SchemeAt(s, c.path).value.fields|
    ensures Admissible(s, plugins, c, Select(ItemRow(c, k)))
    ensures Step(s, plugins, render, c, Select(ItemRow(c, k))) ==
      Some(Push(Shown(c), Segment(SchemeAt(s, c.path).value.fields[k].0, k)))
  {
    var fs := SchemeAt(s, c.path).value.fields;
    var row := ItemRow(c, k);
    var plugin := ActivePlugin(plugins, c).Some?;
    assert ContentRows(s, c) == Some(|fs|);
    ResolveContent(|c.path| == 0, |fs|, plugin, k);
    MenuAdmissible(s, plugins, c, row);
    StepOnObject(s, plugins, render, c, row);
    ObjectResult(fs, plugins, c, row);
  }

  /** Field row `i` of an object menu opens field `i`, remembering `i` as
      its row; the scheme cursor then stands on field `i`'s scheme. */
  lemma ObjectOpen(s: Scheme, plugins: seq<Plugin>, render: Json -> string, c: Configuration, i: nat)
    requires WellFormed(s) && Inv(s, c) && !c.exit
    requires SchemeAt(s, c.path).Some? && SchemeAt(s, c.path).value.Object?
    requires i < |SchemeAt(s, c.path).value.fields|
    ensures Admissible(s, plugins, c, Select(ItemRow(c, i)))
    ensures Step(s, plugins, render, c, Select(ItemRow(c, i))) ==
      Some(Push(Shown(c), Segment(SchemeAt(s, c.path).value.fields[i].0, i)))
    ensures SchemeAt(s, c.path + [Segment(SchemeAt(s, c.path).value.fields[i].0, i)]) ==
      Some(SchemeAt(s, c.path).value.fields[i].1)
  {
    AtCursor(s, c);
    ObjectRow(s, plugins, render, c, i);
    FieldBelow(s, c, i);
  }

  /** The field pushed for row `i` leads the scheme cursor to field `i`'s
      scheme. */
  lemma FieldBelow(s: Scheme, c: Configuration, i: nat)
    requires WellFormed(s) && Inv(s, c)
    requires SchemeAt(s, c.path).Some? && SchemeAt(s, c.path).value.Object?
    requires i < |SchemeAt(s, c.path).value.fields|
    ensures SchemeAt(s, c.path + [Segment(SchemeAt(s, c.path).value.fields[i].0, i)]) ==
      Some(SchemeAt(s, c.path).value.fields[i].1)
  {
    AtCursor(s, c);
    var fs := SchemeAt(s, c.path).value.fields;
    var seg := Segment(fs[i].0, i);
    TracksExtend(c.config, s, c.path, seg);
    GetDistinct(fs, i);
  }

  /** At an `Int` node an entered `i64` replaces the number and the cursor
      returns to the parent. */
  lemma IntEdit(s: Scheme, plugins: seq<Plugin>, render: Json -> string, c: Configuration, n: int, r: Option<Configuration>)
    requires WellFormed(s) && Inv(s, c) && !c.exit && InI64(n)
    requires SchemeAt(s, c.path).Some? && SchemeAt(s, c.path).value.Int?
    requires r == Step(s, plugins, render, c, EnterInt(n))
    ensures r.Some?
    ensures SameOutside(c.config, r.value.config, c.path)
    ensures ValueAt(r.value.config, c.path) == Some(JNum(n))
    ensures r.value.path == if |c.path| == 0 then [] else c.path[..|c.path| - 1]
  {
    SetAtFrame(c.config, s, c.path, JNum(n));
    AtCursor(s, c);
    SetAtTracks(c.config, s, c.path, JNum(n));
  }

  /** At a `Str` node the entered text, trimmed, replaces the string and the
      cursor returns to the parent. */
  lemma StrEdit(s: Scheme, plugins: seq<Plugin>, render: Json -> string, c: Configuration, text: string, r: Option<Configuration>)
    requires Inv(s, c) && !c.exit
    requires SchemeAt(s, c.path).Some? && SchemeAt(s, c.path).value.Str?
    requires ValueAt(c.config, c.path).Some? && ValueAt(c.config, c.path).value.JStr?
    requires r == Step(s, plugins, render, c, EnterText(text))
    ensures r.Some?
    ensures SameOutside(c.config, r.value.config, c.path)
    ensures ValueAt(r.value.config, c.path) == Some(JStr(Trim(text)))
    ensures r.value.path == if |c.path| == 0 then [] else c.path[..|c.path| - 1]
  {
    SetAtFrame(c.config, s, c.path, JStr(Trim(text)));
    SetAtTracks(c.config, s, c.path, JStr(Trim(text)));
  }

  /** At a menu node whose value has the matching kind, a row that is not
      content is handled by `Control`. */
  lemma ControlRow(s: Scheme, plugins: seq<Plugin>, render: Json -> string, c: Configuration, row: nat)
    requires LabelsFit(render, c)
    requires !c.exit && SchemeAt(s, c.path).Some? && ContentRows(s, c).Some?
    requires SchemeAt(s, c.path).value.List? ==> ContentRows(s, c).value > 0
    requires row < RowCount(|c.path| == 0, ContentRows(s, c).value, ActivePlugin(plugins, c).Some?)
    requires !Resolve(|c.path| == 0, ContentRows(s, c).value, ActivePlugin(plugins, c).Some?, row).ChooseContent?
    requires SchemeAt(s, c.path).value.Object? ==>
      forall j :: 0 <= j < |SchemeAt(s, c.path).value.fields| ==>
        Get(ValueAt(c.config, c.path).value.entries, SchemeAt(s, c.path).value.fields[j].0).Some?
    ensures Admissible(s, plugins, c, Select(row))
    ensures Step(s, plugins, render, c, Select(row)) ==
      Control(plugins, Shown(c), Resolve(|c.path| == 0, ContentRows(s, c).value, ActivePlugin(plugins, c).Some?, row))
  {
    var node := SchemeAt(s, c.path).value;
    MenuAdmissible(s, plugins, c, row);
    if node.Object? {
      StepOnObject(s, plugins, render, c, row);
      ObjectResult(node.fields, plugins, c, row);
    } else {
      StepOnList(s, plugins, render, c, row);
      ListResult(node.elem, plugins, render, c, ValueAt(c.config, c.path).value.items, row);
    }
  }

  /** Under the invariant every menu node has rows, and an object value has
      every field of its scheme. */
  lemma MenuReady(s: Scheme, c: Configuration)
    requires WellFormed(s) && Inv(s, c)
    requires SchemeAt(s, c.path).Some? && (SchemeAt(s, c.path).value.Object? || SchemeAt(s, c.path).value.List?)
    ensures ContentRows(s, c).Some?
    ensures SchemeAt(s, c.path).value.List? ==> ContentRows(s, c).value > 0
    ensures SchemeAt(s, c.path).value.Object? ==>
      forall j :: 0 <= j < |SchemeAt(s, c.path).value.fields| ==>
        Get(ValueAt(c.config, c.path).value.entries, SchemeAt(s, c.path).value.fields[j].0).Some?
  {
    AtCursor(s, c);
  }

  /** The exit row ends the session without touching the value or the
      cursor: row 0 at the root, row 1 below it. */
  lemma Exit(s: Scheme, plugins: seq<Plugin>, render: Json -> string, c: Configuration)
    requires LabelsFit(render, c)
    requires WellFormed(s) && Inv(s, c) && !c.exit
    requires SchemeAt(s, c.path).Some? && (SchemeAt(s, c.path).value.Object? || SchemeAt(s, c.path).value.List?)
    ensures Admissible(s, plugins, c, Select(Offset(|c.path| == 0) - 1))
    ensures Step(s, plugins, render, c, Select(Offset(|c.path| == 0) - 1)) == Some(Shown(c).(exit := true))
  {
    MenuReady(s, c);
    var row := Offset(|c.path| == 0) - 1;
    var sel := Resolve(|c.path| == 0, ContentRows(s, c).value, ActivePlugin(plugins, c).Some?, row);
    assert sel == ChooseExit;
    ControlRow(s, plugins, render, c, row);
    assert Control(plugins, Shown(c), sel) == Some(Shown(c).(exit := true));
  }

  /** Below the root, row 0 goes back to the parent, which highlights the
      row that opened this node. */
  lemma Back(s: Scheme, plugins: seq<Plugin>, render: Json -> string, c: Configuration)
    requires LabelsFit(render, c)
    requires WellFormed(s) && Inv(s, c) && !c.exit && |c.path| > 0
    requires SchemeAt(s, c.path).Some? && (SchemeAt(s, c.path).value.Object? || SchemeAt(s, c.path).value.List?)
    ensures Admissible(s, plugins, c, Select(0))
    ensures Step(s, plugins, render, c, Select(0)) == Some(Pop(c))
    ensures Pop(c).path == c.path[..|c.path| - 1] && Pop(c).lastSelectedIndex == c.path[|c.path| - 1].row + 2
  {
    MenuReady(s, c);
    BackRow(s, plugins, render, c);
  }

  lemma BackRow(s: Scheme, plugins: seq<Plugin>, render: Json -> string, c: Configuration)
    requires LabelsFit(render, c)
    requires !c.exit && |c.path| > 0 && SchemeAt(s, c.path).Some? && ContentRows(s, c).Some?
    requires SchemeAt(s, c.path).value.List? ==> ContentRows(s, c).value > 0
    requires SchemeAt(s, c.path).value.Object? ==>
      forall j :: 0 <= j < |SchemeAt(s, c.path).value.fields| ==>
        Get(ValueAt(c.config, c.path).value.entries, SchemeAt(s, c.path).value.fields[j].0).Some?
    ensures Admissible(s, plugins, c, Select(0))
    ensures Step(s, plugins, render, c, Select(0)) == Some(Pop(c))
  {
    ControlRow(s, plugins, render, c, 0);
  }

  /** The plugin row, last in the menu when a plugin is offered, replaces the
      value at the cursor by what the plugin's action makes of it; the cursor
      stays where it is. */
  lemma RunPlugin(s: Scheme, plugins: seq<Plugin>, render: Json -> string, c: Configuration)
    requires LabelsFit(render, c)
    requires WellFormed(s) && Inv(s, c) && !c.exit && ActivePlugin(plugins, c).Some?
    requires SchemeAt(s, c.path).Some? && (SchemeAt(s, c.path).value.Object? || SchemeAt(s, c.path).value.List?)
    requires ContentRows(s, c).Some? && ValueAt(c.config, c.path).Some?
    ensures Admissible(s, plugins, c, Select(RowCount(|c.path| == 0, ContentRows(s, c).value, true) - 1))
    ensures Step(s, plugins, render, c, Select(RowCount(|c.path| == 0, ContentRows(s, c).value, true) - 1)) ==
      Some(Shown(c).(config := SetAt(c.config, c.path,
                                     plugins[ActivePlugin(plugins, c).value].action(ValueAt(c.config, c.path).value))))
  {
    MenuReady(s, c);
    ResolvePlugin(|c.path| == 0, ContentRows(s, c).value);
    ControlRow(s, plugins, render, c, RowCount(|c.path| == 0, ContentRows(s, c).value, true) - 1);
    PluginControl(plugins, c);
  }

  lemma PluginControl(plugins: seq<Plugin>, c: Configuration)
    requires ActivePlugin(plugins, c).Some? && ValueAt(c.config, c.path).Some?
    ensures Control(plugins, Shown(c), ChoosePlugin) ==
      Some(Shown(c).(config := SetAt(c.config, c.path,
                                     plugins[ActivePlugin(plugins, c).value].action(ValueAt(c.config, c.path).value))))
  {
    assert ActivePlugin(plugins, Shown(c)) == ActivePlugin(plugins, c);
  }
}
