# edit_config in Dafny

A model of the core of `edit_config`, a terminal editor for a JSON
configuration file that is checked against a JSON schema description.
The project covers three parts of the program.

- The schema compiler `value_to_scheme` turns a description such as
  `{"port": "Int 8080", "hosts": ["Str"]}` into a `Scheme` tree
  (`Int`, `Str`, `Object`, `List`).
- `scheme_to_default_value` derives a default document from a scheme.
- The validator `contains_scheme` and the pure part of `load_config`
  decide whether a document may be edited at all.

The menu-driven navigator (`Configuration` in `src/main.rs`) is modelled as
a pure state machine. One `Navigator.Step` is one iteration of the
`configure` loop. The operator's answer to that iteration's prompt is an
`Input`: a menu row, a new integer or a new text. A `None` result stands
for the program aborting: an `unwrap` panic, `exit(-1)`, the byte-slice
panic when a list label is cut, or the `usize` underflow of
`items.len() - 1`. That underflow aborts only in a build with overflow
checks (a debug build), which is the build the model follows; a release
build wraps instead and shows a menu with only its control rows.

The source's functions map to the model as follows.

- `configure` is `Navigator.Step`, and `path_push` / `path_pop` are
  `Navigator.Push` / `Navigator.Pop`.
- `configure_object` and `configure_list` are `Navigator.ConfigureObject`
  and `Navigator.ConfigureList`. The list rows' branches are
  `Navigator.ListEdit`, and the control rows of `show_items` are
  `Navigator.Control`.
- `current_scheme` is `Cursor.SchemeAt`, `current_config_value` is
  `Cursor.ValueAt`, and assigning through it is `Cursor.SetAt`.
- `scheme_to_default_value` is `Schemes.Default`, `value_to_scheme` is
  `Schemes.Compile`, `contains_scheme` is `Validator.Check`, and
  `load_config` is `Validator.LoadConfig`.

The modules follow the program:

- `Text`: the `str` methods used (`trim` with Unicode whitespace, `join`,
  `ends_with`, the UTF-8 boundary check behind `&t[..3]`).
- `Decimal`: Rust's integer formatting and `parse::<i64>` / `parse::<usize>`.
- `JsonValue`: serde's `Value` with integer numbers; `get` and `insert` on
  maps.
- `Schemes`, `Validator`: `src/util.rs`.
- `Cursor`, `Menu`, `Navigator`: `src/main.rs`.
- `Findings`: the two defects below, shown on concrete inputs.

The central result is `Navigator.StepPreservesInv`. Start from a state in
the invariant `Inv`: the value conforms to the scheme with `i64` numbers,
the cursor is a legal path in both trees, and delete mode is only on a
non-empty list. Then every answer the terminal can give is handled
without aborting and keeps the invariant. It assumes four things:

- the scheme is `Schemes.WellFormed`, which `Schemes.CompileChecked`
  guarantees;
- the numbers fit `i64` (part of `Inv`), which `Validator.LoadConfigStrict`
  guarantees;
- plugins keep the node they act on conforming (`Navigator.PluginsSafe`);
- every label of a list at the cursor can be cut at byte 100
  (`Navigator.LabelsFit`). `Navigator.ListLabelAborts` shows that a list
  with a label that cannot be cut aborts, and `Navigator.SplitCharUncuttable`
  gives such a label: 99 one-byte characters followed by `é`. Labels of
  one-byte characters can always be cut (`Navigator.AsciiLabelsCuttable`).

Where the written description of the program and the code disagree, the
model follows the code.

- An invalid non-object is reported as "has to an object", without "be"
  (`Validator.NotObjectReported`).
- A missing field is reported at the path of the object that lacks it
  (`Value [a] doesn't has child b`), not at the field's own path
  (`Validator.MissingChildReported`).
- The `+ 2` that `path_pop` stores does not land "just past" the row that
  opened the child. Together with `show_items`' control rows, it highlights
  exactly that row, at the root and below it (`Menu.RestoredRow`).

## Model

| member | source | states |
|---|---|---|
| Text.Trim | src/util.rs:68 | `trim` cuts only whitespace off the two ends of the text, and none is left at either end of the result; text without edge whitespace comes back unchanged |
| Text.TrimUnique | src/util.rs:68 | exactly one slice fits that description, so it determines `trim`'s result |
| Text.JoinAppend | src/main.rs:272-276 | joining one more part appends the separator and that part |
| Text.AsciiPrefixOnBoundary | src/util.rs:67 | `&t[..3]` cannot panic on a string whose first three characters are ASCII |
| Decimal.ParseI64 | src/util.rs:69-73 | `parse::<i64>` fails on empty text, on a bare sign and on any non-digit after the first character; a success has the sign of its text; plain digits give their value when it fits 64 bits and fail otherwise |
| Decimal.ParseI64RoundTrip | src/util.rs:69-73 | `n.to_string().parse::<i64>()` gives back every 64-bit `n` |
| Decimal.ParseI64Signs | src/util.rs:69-73 | a leading `+` changes nothing, and a leading `-` negates the digits' value, failing below `i64::MIN` |
| Decimal.ParseI64LeadingZero | src/util.rs:69-73 | a leading zero changes nothing |
| Decimal.ParseIndexRoundTrip | src/main.rs:63 | an index written with `to_string` (as `configure_list` does) parses back to the same `usize` in `current_config_value` |
| Decimal.NatToStringInjective | src/main.rs:261-263 | distinct list indices give distinct path keys |
| JsonValue.Get | src/main.rs:62 | `get` finds a value exactly when the key is present |
| JsonValue.GetDistinct | src/util.rs:112-114 | with distinct keys, `get` returns the value stored under that key |
| JsonValue.Put | src/util.rs:89 | after `insert` the key maps to the new value; the key set is unchanged or gains exactly that key; distinct keys stay distinct |
| JsonValue.PutOthers | src/util.rs:89 | `insert` leaves every other key's value unchanged |
| JsonValue.PutEntries | src/util.rs:89 | `insert` adds no entry except the inserted pair |
| JsonValue.PutFresh | src/util.rs:89 | inserting an absent key appends it |
| Schemes.StrictConformsLoose | src/util.rs:105 | a value whose numbers fit `i64` also passes the `is_number` test |
| Schemes.DefaultObject | src/util.rs:53-58 | an object's default has exactly the scheme's keys, each mapped to that field's own default |
| Schemes.DefaultConforms | src/util.rs:49-62 | a scheme's default conforms to it when every list's stored default conforms to its list |
| Schemes.Compile | src/util.rs:64-95 | null, booleans and numbers are rejected; an empty array has no element type; a compiled object has exactly the description's keys; a compiled scheme has `i64` defaults and distinct keys |
| Schemes.CompileFields | src/util.rs:86-92 | the object loop's result has the keys already inserted plus the keys still to come |
| Schemes.CompileObjectFails | src/util.rs:86-92 | an object description fails with the error of its first entry that fails to compile (the `?` in the insert loop) |
| Schemes.CompileStr | src/util.rs:67-68 | any text starting with `Str` compiles to a string node whose default is the trimmed rest |
| Schemes.CompileInt | src/util.rs:69-73 | any text starting with `Int` compiles to the parsed trimmed rest, or to 0 when it does not parse |
| Schemes.CompileOtherString | src/util.rs:67-74 | any other text is a type error, or the slice panic when byte 3 is not a character boundary |
| Schemes.CompileArray | src/util.rs:76-85 | an array compiles to a list of its first element's scheme with the second element, or `[]`, as stored default; the element's error is passed on |
| Schemes.CompileIntRoundTrip | src/util.rs:69-73 | `"Int " + n.to_string()` compiles to `Int(n)` for every 64-bit `n` |
| Schemes.CompileStrRoundTrip | src/util.rs:68 | `"Str " + d` compiles to `Str(d)` when `d` has no edge whitespace |
| Schemes.CompileDescribe | src/util.rs:64-95 | compiling the canonical description of any compiled-shape scheme gives that scheme back |
| Schemes.CompileDescribedObject | src/util.rs:86-92 | an object description compiles back once each field's description does |
| Schemes.CompileFieldsAll | src/util.rs:86-92 | the insert loop over entries with distinct keys rebuilds the fields, in the description's order, which the model uses in place of the `HashMap`'s order |
| Schemes.CompileChecked | src/util.rs:76-85 | the corrected compiler accepts exactly what `value_to_scheme` accepts with conforming list defaults, and its schemes are well formed |
| Validator.Check | src/util.rs:102-140 | every error's path extends the path the check started from |
| Validator.CheckBlames | src/util.rs:102-140 | a reported error names a node that fails: following the reported path from the start reaches a value and scheme node, and the problem holds there (not a number under the rule, not a string, not an object, not an array, or an object lacking the named key) |
| Validator.CheckIffConforms | src/util.rs:102-140 | `contains_scheme` passes exactly the values that conform to the scheme, from any starting path |
| Validator.CheckFieldsIff | src/util.rs:111-126 | the field loop passes exactly when every scheme key is present with a conforming value |
| Validator.CheckItemsIff | src/util.rs:127-138 | the element loop passes exactly when every element conforms |
| Validator.LoadConfigWith | src/util.rs:142-151 | read errors pass through; a loaded document is the file, or the default when the file is missing; it is returned exactly when it conforms |
| Validator.LoadConfig | src/util.rs:101-152 | `load_config` returns only conforming documents and rejects a non-conforming file with "Invalid config file: " |
| Validator.LoadConfigStrict | src/util.rs:105 | the corrected loader returns only documents whose numbers fit `i64` |
| Validator.MissingChildReported | src/util.rs:119 | `{"a": {}}` against `{"a": {"b": Int}}` is reported as `Value [a] doesn't has child b` |
| Validator.NotObjectReported | src/util.rs:124 | a number where an object belongs is reported as `Value [] has to an object` |
| Validator.MissingDocumentLoads | src/util.rs:144-148 | a missing file loads as the scheme's default when list defaults conform |
| Cursor.StepOkDescends | src/main.rs:46-68 | one legal segment moves both descents to the matching child |
| Cursor.TracksResolves | src/main.rs:46-68 | along a tracked path neither descent panics, and the value reached conforms to the scheme node reached |
| Cursor.TracksExtend | src/main.rs:99-103 | pushing a legal segment keeps the path tracked and moves both descents one step down |
| Cursor.SchemeAtAppend | src/main.rs:46-56 | `current_scheme` on a longer path is one more step from the shorter path's node |
| Cursor.ValueAtAppend | src/main.rs:58-68 | `current_config_value` on a longer path is one more step from the shorter path's node |
| Cursor.TracksPrefix | src/main.rs:94-97 | popping a segment keeps the path tracked |
| Cursor.SetAtTracks | src/main.rs:122 | assigning through `current_config_value` keeps the path tracked and the path then reaches the new node |
| Cursor.SetAtConforms | src/main.rs:122 | assigning a conforming node at the cursor keeps the whole value conforming |
| Cursor.SetAtObjectConforms | src/main.rs:122 | replacing one field with a conforming value keeps the object conforming |
| Cursor.SetAtFrame | src/main.rs:122 | assigning at the cursor changes nothing off the cursor's path: every path that leaves it reads the same value as before |
| Menu.Rows | src/main.rs:141-156 | the rendered menu has the row count `show_items` indexes |
| Menu.Resolve | src/main.rs:164-183 | a content choice is below the content row count; a plugin choice needs an offered plugin |
| Menu.ResolveMatchesRows | src/main.rs:140-184 | the index arithmetic picks exactly the row rendered at the chosen position |
| Menu.ResolveContent | src/main.rs:176-181 | content entry `k` sits after the control rows and resolves back to `k` |
| Menu.ResolvePlugin | src/main.rs:173-175 | the last row runs the plugin when one is offered |
| Menu.RestoredRow | src/main.rs:94-97 | the `+ 2` remembered by `path_pop` highlights the row that opened the child, at the root and below it |
| Menu.ListRows | src/main.rs:230-236 | the list menu's content row count equals its number of entries |
| Menu.ListAction | src/main.rs:241-264 | delete mode removes exactly the chosen item; an item row opens an existing item; the delete row exists only for a non-empty list outside delete mode |
| Menu.ListActionMatchesEntries | src/main.rs:232-264 | `configure_list`'s comparisons pick exactly the entry rendered at that row |
| Menu.DeleteRowOffered | src/main.rs:232-236 | a delete row is offered exactly outside delete mode on a non-empty list |
| Navigator.PathString | src/main.rs:272-276 | the path string is bracketed, and `[]` at the root |
| Navigator.PathStringPush | src/main.rs:272-276 | pushing a segment appends `[key]` to the path string |
| Navigator.PathStringEnds | src/main.rs:272-276 | the path string ends with `[key]` for the last segment's key |
| Navigator.FindPlugin | src/main.rs:150-152 | the plugin found is the first whose key is a suffix of the path string; none is found exactly when no key is |
| Navigator.PluginOffered | src/main.rs:148-156 | a plugin row is offered exactly outside delete mode when some key is a suffix of the path string |
| Navigator.KeyedPluginOffered | src/main.rs:148-152 | a plugin registered under `[name]` puts a plugin row, outside delete mode, on every node reached through a segment named `name`; the plugin run is that one or one registered before it |
| Navigator.EditInt | src/main.rs:105-124 | `configure_int` succeeds exactly when the value at the cursor is an `i64`; it writes the new number there, leaves delete mode and returns the cursor to the parent, which highlights the row that opened it |
| Navigator.EditStr | src/main.rs:126-138 | `configure_str` succeeds exactly when the value at the cursor is a string; it writes the trimmed text there, leaves delete mode and returns the cursor to the parent, which highlights the row that opened it |
| Navigator.PopKeepsInv | src/main.rs:94-97 | `path_pop` keeps the invariant |
| Navigator.PushKeepsInv | src/main.rs:99-103 | `path_push` of a legal segment keeps the invariant |
| Navigator.ControlKeepsInv | src/main.rs:165-175 | exit, back and a conformance-preserving plugin never abort and keep the invariant |
| Navigator.EditIntKeepsInv | src/main.rs:105-124 | entering an `i64` at an `Int` node never aborts and keeps the invariant |
| Navigator.EditStrKeepsInv | src/main.rs:126-138 | entering text at a `Str` node never aborts and keeps the invariant |
| Navigator.ObjectKeepsInv | src/main.rs:186-208 | any row of an object menu keeps the invariant without aborting |
| Navigator.ListEditKeepsInv | src/main.rs:242-266 | each list entry's effect keeps the invariant |
| Navigator.RemoveKeepsInv | src/main.rs:243-246 | removing an item keeps the invariant |
| Navigator.RemoveConforms | src/main.rs:245 | removing an item keeps the array conforming |
| Navigator.AddKeepsInv | src/main.rs:251-261 | adding and opening an item keeps the invariant |
| Navigator.AddConforms | src/main.rs:254 | appending the element default keeps the array conforming |
| Navigator.AsciiLabelsCuttable | src/main.rs:214-226 | labels whose JSON text has only one-byte characters can always be cut at byte 100 |
| Navigator.SplitCharUncuttable | src/main.rs:222-224 | a label with `é` on bytes 99 and 100 cannot be cut |
| Navigator.ListLabelAborts | src/main.rs:214-228 | a list with an item whose label cannot be cut aborts whatever row is chosen, because the labels are made before the menu is shown |
| Navigator.ListKeepsInv | src/main.rs:210-267 | any row of a list menu whose labels can be cut keeps the invariant without aborting |
| Navigator.StepPreservesInv | src/main.rs:269-288 | every admissible answer in the invariant, with a well-formed scheme, conformance-preserving plugins and list labels that can be cut, neither aborts nor breaks the invariant |
| Navigator.StartInv | src/main.rs:30-44 | a document the corrected loader accepts starts a session in the invariant |
| Navigator.PopAfterPush | src/main.rs:94-103 | `path_pop` undoes `path_push` and remembers the pushed row plus 2 |
| Navigator.ListRow | src/main.rs:241-266 | on a list whose labels can be cut, choosing content row `k` performs the list entry rendered there |
| Navigator.ListAdd | src/main.rs:251-261 | the add row appends the element default, changes nothing off the list's path, moves the cursor to `(len - 1, len - 1)` on the new item, clears the remembered row and delete mode; going back highlights the new item |
| Navigator.ListDelete | src/main.rs:243-246 | in delete mode item row `i` removes exactly item `i`, changes nothing off the list's path, leaves delete mode and keeps the cursor |
| Navigator.ListEnterDelete | src/main.rs:248-250 | on a list whose labels can be cut, the delete row switches delete mode on and resets the remembered row, touching nothing else |
| Navigator.ListOpen | src/main.rs:262-264 | on a list whose labels can be cut, item row `i` opens item `i` without changing the value; the cursor then reaches the element scheme and item `i` |
| Navigator.ObjectRow | src/main.rs:203-207 | choosing content row `k` of an object menu pushes field `k` with row `k` |
| Navigator.ObjectOpen | src/main.rs:203-207 | field row `i` opens field `i`, and the scheme cursor then stands on that field's scheme |
| Navigator.FieldBelow | src/main.rs:46-56 | the pushed field leads `current_scheme` to that field's scheme |
| Navigator.IntEdit | src/main.rs:105-124 | an entered `i64` replaces the number at the cursor, nothing off the cursor's path changes, and the cursor returns to the parent |
| Navigator.StrEdit | src/main.rs:126-138 | the trimmed entered text replaces the string at the cursor, nothing off the cursor's path changes, and the cursor returns to the parent |
| Navigator.MenuReady | src/main.rs:187-193 | under the invariant the menu's `unwrap`s cannot fail: a list menu has rows and an object has every field |
| Navigator.Exit | src/main.rs:165-172 | where the menu can be shown (list labels can be cut), the exit row ends the session without touching the value or the cursor |
| Navigator.Back | src/main.rs:165-170 | where the menu can be shown, row 0 below the root pops the cursor and highlights the row that opened the node |
| Navigator.BackRow | src/main.rs:165-170 | on any menu that can be shown below the root, whether or not the invariant holds, row 0 pops the cursor |
| Navigator.RunPlugin | src/main.rs:173-175 | where the menu can be shown, the last row replaces the value at the cursor by the offered plugin's result and keeps the cursor |
| Findings.ListDefaultUnchecked | src/util.rs:79-82 | `["Int", 5]` compiles, its default document fails validation, and the checked compiler refuses it |
| Findings.NumberListCompiles | src/util.rs:69-82 | `["Int", 5]` compiles to a list of `Int(0)` whose default is `5` |
| Findings.NumberListDefaultRejected | src/util.rs:144-148 | that list's default, loaded for a missing file, fails validation |
| Findings.CompileCheckedLoads | src/util.rs:144-148 | with the check, a missing config file always loads as the default |
| Findings.HugeNumberAccepted | src/util.rs:105 | `{"count": 2^63}` passes the loader; opening `count` and entering a number aborts; the strict loader rejects it |
| Findings.HugeCounterLoads | src/util.rs:105 | `is_number` accepts `2^63` where the strict rule does not |
| Findings.HugeCounterOpens | src/main.rs:203-207 | row 1 of the root menu opens the `count` field |
| Findings.HugeCounterAborts | src/main.rs:106 | at `count` holding `2^63`, `as_i64().unwrap()` aborts on any entered number |
| Findings.StrictLoadNeverAborts | src/main.rs:106 | from a document the corrected loader accepts, with list labels that can be cut, no admissible answer aborts and the invariant holds |

## Left out

- File access is not modelled. That covers `load_json_file`, `store_json_file`, `save` and the file read in `build_scheme`. The JSON text parser and printer are left out too. The loader takes what the file read returned as a parameter, with `JNull` standing for a missing file.
- Terminal I/O is not modelled: `clear_screen`, prompts, `dialoguer` widgets and the printed messages. The operator's answer is the `Input` parameter. `Admissible` keeps only the answers the widgets can return: a row of the menu, an `i64`, any text.
- Menu labels are not modelled as text, except for what can abort: a list item's label is `-> ` (in delete mode) plus the item's JSON text, and cutting it at byte 100 panics unless byte 100 starts a character. serde_json's printer is the parameter `render`, not a definition. The shortened text itself and the object labels, which cannot abort once every field is present, are left out.
- The Save/Discard dialog of `exit` is not modelled. The exit row only sets the `exit` flag.
- The plugin in `src/plugin.rs` is not part of this model. A plugin is a key, a title and an abstract `Json -> Json` action.
- The registry is a sequence standing for the `HashMap`'s iteration order. A scheme's fields keep the order of the description, as a stand-in: `value_to_scheme` inserts them into a `HashMap`, whose order the source does not fix.
- Floating-point JSON numbers are not modelled. Numbers are integers of any size, so serde's `u64` values above `i64` are included.
- Compile errors are constructors, not the `format!` texts of `value_to_scheme`.
- `usize` parsing has no `2^64` upper bound, because no array reaches that length.
- `Navigator.Step` has one `None` for every kind of abort: a panic, `exit(-1)`, or the `usize` underflow of `items.len() - 1` on an empty delete-mode menu. That underflow panics only with overflow checks on (debug builds); the release build's wrap-around, after which such a menu offers only its control rows, is not modelled. No session from a state in the invariant reaches that menu.
- `&t[..3]` on a scheme string whose byte 3 is inside a character panics in `value_to_scheme`. The model returns the error value `SlicePanic` instead, so a caller sees it as a compile failure rather than an abort.
- Validator.LoadConfig: the contract states only the "Invalid config file: " prefix of the error text. The full wording is shown on two concrete inputs by `Validator.MissingChildReported` and `Validator.NotObjectReported`.
- `main`'s registration of the `[drives]` plugin is not modelled.

## Findings

| source | as written | input that shows it | evidently intended | confidence | as-written member | corrected member |
|---|---|---|---|---|---|---|
| src/util.rs:79-82 | the second element of a list description becomes the list's default unchecked | description `["Int", 5]`: a missing config file defaults to `5`, which fails validation as "has to be an array", and the remedy offered (delete the file) cannot help | reject a description whose list default does not conform to its list | not executed | Findings.ListDefaultUnchecked | Schemes.CompileChecked |
| src/util.rs:105 | an `Int` node accepts any JSON number (`is_number`), while `configure_int` (src/main.rs:106) unwraps `as_i64()` | scheme `{"count": "Int"}`, config `{"count": 9223372036854775808}`: it loads, and opening `count` aborts | accept at `Int` nodes only numbers that fit `i64` | not executed | Findings.HugeNumberAccepted | Validator.LoadConfigStrict |

The navigator's invariant is stated against the corrected definitions.
`Navigator.Inv` uses the `i64` rule of `Validator.LoadConfigStrict`. The
lemmas about the navigator require `Schemes.WellFormed`, which is exactly
what `Schemes.CompileChecked` guarantees (`Findings.CompileCheckedLoads`,
`Findings.StrictLoadNeverAborts`). The list-label panic is modelled as
written and is not among the findings: the model keeps it as an abort
and states the navigator's results for labels that can be cut.
