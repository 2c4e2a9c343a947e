/** The navigator's cursor: a path of `(key, row)` segments, and the descents
    `current_scheme` and `current_config_value` (src/main.rs) that follow it
    through the scheme tree and the value tree. */
module Cursor {
  import opened Wrappers
  import opened Decimal
  import opened JsonValue
  import opened Schemes

  /** One path segment: a field name or a decimal array index, and the content
      row of the parent menu that produced it. */
  datatype Segment = Segment(key: string, row: nat)

  function PathKeys(path: seq<Segment>): (ks: seq<string>)
    ensures |ks| == |path|
    ensures forall i :: 0 <= i < |path| ==> ks[i] == path[i].key
  {
    if |path| == 0 then [] else [path[0].key] + PathKeys(path[1..])
  }

  /** `current_scheme`: an `Object` is followed by key (a missing key is the
      `unwrap` panic), a `List` to its element whatever the key, and a scalar
      with path left is `exit(-1)`. `None` stands for both aborts. */
  function SchemeAt(s: Scheme, path: seq<Segment>): (r: Option<Scheme>)
    decreases |path|
  {
    if |path| == 0 then Some(s)
    else
      match s
      case Object(fs) =>
        var f := Get(fs, path[0].key);
        if f.None? then None else SchemeAt(f.value, path[1..])
      case List(e, _) => SchemeAt(e, path[1..])
      case _ => None
  }

  /** `current_config_value`: an object is followed by key, an array by the
      key parsed as an index (an unparsable or out-of-range index is a panic),
      and any other value ignores the segment and stays where it is. */
  function ValueAt(v: Json, path: seq<Segment>): (r: Option<Json>)
    decreases |path|
  {
    if |path| == 0 then Some(v)
    else
      match v
      case JObj(es) =>
        var c := Get(es, path[0].key);
        if c.None? then None else ValueAt(c.value, path[1..])
      case JArr(items) =>
        var i := ParseIndex(path[0].key);
        if i.None? || i.value >= |items| then None else ValueAt(items[i.value], path[1..])
      case _ => ValueAt(v, path[1..])
  }

  /** `*self.current_config_value() = n`: the value tree with the node the
      path reaches replaced by `n`. Where `ValueAt` would panic the tree is
      returned unchanged; the model only uses it where `ValueAt` succeeds. */
  function SetAt(v: Json, path: seq<Segment>, n: Json): (r: Json)
    decreases |path|
  {
    if |path| == 0 then n
    else
      match v
      case JObj(es) =>
        var c := Get(es, path[0].key);
        if c.None? then v else JObj(Put(es, path[0].key, SetAt(c.value, path[1..], n)))
      case JArr(items) =>
        var i := ParseIndex(path[0].key);
        if i.None? || i.value >= |items| then v
        else JArr(items[i.value := SetAt(items[i.value], path[1..], n)])
      case _ => SetAt(v, path[1..], n)
  }

  /** One segment is a legal step from scheme node `s` and value node `v`: a
      field of the `Object` at its own row, or an index of the array written
      in canonical decimal, with the row equal to the index. */
  predicate StepOk(v: Json, s: Scheme, seg: Segment) {
    match s
    case Object(fs) =>
      && seg.row < |fs| && fs[seg.row].0 == seg.key
      && v.JObj? && Get(v.entries, seg.key).Some?
    case List(_, _) =>
      && v.JArr? && seg.row < |v.items| && seg.key == NatToString(seg.row)
    case _ => false
  }

  /** The scheme node below `s` along a legal segment. */
  function SchemeChild(s: Scheme, seg: Segment): Scheme
    requires s.Object? ==> Get(s.fields, seg.key).Some?
    requires s.Object? || s.List?
  {
    if s.Object? then Get(s.fields, seg.key).value else s.elem
  }

  /** The value node below `v` along a legal segment. */
  function ValueChild(v: Json, s: Scheme, seg: Segment): Json
    requires StepOk(v, s, seg)
  {
    if s.Object? then Get(v.entries, seg.key).value else v.items[seg.row]
  }

  /** Every segment of the path is a legal step in both trees at once. */
  predicate Tracks(v: Json, s: Scheme, path: seq<Segment>)
    decreases |path|
  {
    |path| == 0 ||
      (StepOk(v, s, path[0])
       && (s.Object? ==> Get(s.fields, path[0].key).Some?)
       && Tracks(ValueChild(v, s, path[0]), SchemeChild(s, path[0]), path[1..]))
  }

  lemma StepOkDescends(v: Json, s: Scheme, seg: Segment)
    requires StepOk(v, s, seg)
    ensures s.Object? ==> Get(s.fields, seg.key).Some?
    ensures SchemeAt(s, [seg]) == Some(SchemeChild(s, seg))
    ensures ValueAt(v, [seg]) == Some(ValueChild(v, s, seg))
  {
    if s.Object? {
      assert seg.key in Keys(s.fields) by {
        assert Keys(s.fields)[seg.row] == seg.key;
      }
    } else {
      ParseIndexRoundTrip(seg.row);
    }
  }

  /** A tracked path resolves in both trees, and the value node it reaches
      conforms to the scheme node it reaches. */
  lemma {:induction false} TracksResolves(v: Json, s: Scheme, path: seq<Segment>, rule: NumberRule)
    requires Tracks(v, s, path)
    ensures SchemeAt(s, path).Some? && ValueAt(v, path).Some?
    ensures Conforms(v, s, rule) ==> Conforms(ValueAt(v, path).value, SchemeAt(s, path).value, rule)
    ensures Shaped(s) ==> Shaped(SchemeAt(s, path).value)
    ensures ListDefaultsConform(s) ==> ListDefaultsConform(SchemeAt(s, path).value)
    decreases |path|
  {
    if |path| > 0 {
      var seg := path[0];
      StepOkDescends(v, s, seg);
      if s.Object? {
        var i := IndexOf(s.fields, seg.key).value;
        assert SchemeChild(s, seg) == s.fields[i].1;
      } else {
        ParseIndexRoundTrip(seg.row);
      }
      TracksResolves(ValueChild(v, s, seg), SchemeChild(s, seg), path[1..], rule);
    }
  }

  /** Extending a tracked path by one legal step keeps it tracked, and the
      descents go one step further. */
  lemma {:induction false} TracksExtend(v: Json, s: Scheme, path: seq<Segment>, seg: Segment)
    requires Tracks(v, s, path)
    requires ValueAt(v, path).Some? && SchemeAt(s, path).Some?
    requires StepOk(ValueAt(v, path).value, SchemeAt(s, path).value, seg)
    ensures Tracks(v, s, path + [seg])
    ensures SchemeAt(s, path + [seg]) == Some(SchemeChild(SchemeAt(s, path).value, seg))
    ensures ValueAt(v, path + [seg]) == Some(ValueChild(ValueAt(v, path).value, SchemeAt(s, path).value, seg))
    decreases |path|
  {
    SchemeAtAppend(s, path, seg);
    ValueAtAppend(v, path, seg);
    StepOkDescends(ValueAt(v, path).value, SchemeAt(s, path).value, seg);
    if |path| == 0 {
      assert path + [seg] == [seg];
    } else {
      var head, tail := path[0], path[1..];
      assert (path + [seg])[1..] == tail + [seg];
      StepOkDescends(v, s, head);
      if s.List? {
        ParseIndexRoundTrip(head.row);
      }
      var vc, sc := ValueChild(v, s, head), SchemeChild(s, head);
      assert SchemeAt(s, path) == SchemeAt(sc, tail);
      assert ValueAt(v, path) == ValueAt(vc, tail);
      TracksExtend(vc, sc, tail, seg);
    }
  }

  /** The scheme descent along `path + [seg]` is the descent along `path`
      followed by one more step. */
  lemma {:induction false} SchemeAtAppend(s: Scheme, path: seq<Segment>, seg: Segment)
    requires SchemeAt(s, path).Some?
    ensures SchemeAt(s, path + [seg]) == SchemeAt(SchemeAt(s, path).value, [seg])
    decreases |path|
  {
    if |path| > 0 {
      assert (path + [seg])[0] == path[0];
      assert (path + [seg])[1..] == path[1..] + [seg];
      match s
      case Object(fs) => SchemeAtAppend(Get(fs, path[0].key).value, path[1..], seg);
      case List(e, _) => SchemeAtAppend(e, path[1..], seg);
    }
  }

  /** The value descent along `path + [seg]` is the descent along `path`
      followed by one more step. */
  lemma {:induction false} ValueAtAppend(v: Json, path: seq<Segment>, seg: Segment)
    requires ValueAt(v, path).Some?
    ensures ValueAt(v, path + [seg]) == ValueAt(ValueAt(v, path).value, [seg])
    decreases |path|
  {
    if |path| > 0 {
      assert (path + [seg])[0] == path[0];
      assert (path + [seg])[1..] == path[1..] + [seg];
      match v
      case JObj(es) => ValueAtAppend(Get(es, path[0].key).value, path[1..], seg);
      case JArr(items) => ValueAtAppend(items[ParseIndex(path[0].key).value], path[1..], seg);
      case _ => ValueAtAppend(v, path[1..], seg);
    }
  }

  /** Dropping the last segment of a tracked path keeps it tracked. */
  lemma {:induction false} TracksPrefix(v: Json, s: Scheme, path: seq<Segment>)
    requires |path| > 0 && Tracks(v, s, path)
    ensures Tracks(v, s, path[..|path| - 1])
    decreases |path|
  {
    if |path| > 1 {
      assert path[..|path| - 1][1..] == path[1..][..|path[1..]| - 1];
      TracksPrefix(ValueChild(v, s, path[0]), SchemeChild(s, path[0]), path[1..]);
    }
  }

  /** Replacing the node at a tracked path: the path is still tracked and
      now reaches the new node. */
  lemma {:induction false} SetAtTracks(v: Json, s: Scheme, path: seq<Segment>, n: Json)
    requires Tracks(v, s, path)
    ensures Tracks(SetAt(v, path, n), s, path)
    ensures ValueAt(SetAt(v, path, n), path) == Some(n)
    decreases |path|
  {
    if |path| > 0 {
      var seg := path[0];
      var rest := path[1..];
      var vc := ValueChild(v, s, seg);
      var sc := SchemeChild(s, seg);
      SetAtTracks(vc, sc, rest, n);
      var child' := SetAt(vc, rest, n);
      if s.Object? {
        var es' := Put(v.entries, seg.key, child');
        assert SetAt(v, path, n) == JObj(es');
        assert Get(es', seg.key) == Some(child');
        assert ValueChild(JObj(es'), s, seg) == child';
      } else {
        ParseIndexRoundTrip(seg.row);
        var items' := v.items[seg.row := child'];
        assert SetAt(v, path, n) == JArr(items');
        assert ValueChild(JArr(items'), s, seg) == child';
      }
    }
  }

  /** Replacing the node at a tracked path by a node that conforms to the
      scheme node there keeps the whole value conforming. */
  lemma {:induction false} SetAtConforms(v: Json, s: Scheme, path: seq<Segment>, n: Json, rule: NumberRule)
    requires Tracks(v, s, path) && Shaped(s) && Conforms(v, s, rule)
    requires SchemeAt(s, path).Some? && Conforms(n, SchemeAt(s, path).value, rule)
    ensures Conforms(SetAt(v, path, n), s, rule)
    decreases |path|
  {
    if |path| > 0 {
      var seg := path[0];
      var rest := path[1..];
      StepOkDescends(v, s, seg);
      var vc := ValueChild(v, s, seg);
      var sc := SchemeChild(s, seg);
      assert SchemeAt(s, path) == SchemeAt(sc, rest);
      if s.Object? {
        var i := IndexOf(s.fields, seg.key).value;
        assert i == seg.row;
        assert sc == s.fields[i].1;
        assert Conforms(vc, sc, rule);
        SetAtConforms(vc, sc, rest, n, rule);
        SetAtObjectConforms(v, s, seg, SetAt(vc, rest, n), rule);
      } else {
        ParseIndexRoundTrip(seg.row);
        assert Conforms(vc, sc, rule);
        SetAtConforms(vc, sc, rest, n, rule);
        var items' := v.items[seg.row := SetAt(vc, rest, n)];
        assert SetAt(v, path, n) == JArr(items');
        assert forall j :: 0 <= j < |items'| ==> Conforms(items'[j], sc, rule);
      }
    }
  }

  /** Replacing one field of a conforming object by a value conforming to
      that field's scheme keeps the object conforming. */
  lemma SetAtObjectConforms(v: Json, s: Scheme, seg: Segment, child: Json, rule: NumberRule)
    requires s.Object? && Shaped(s) && StepOk(v, s, seg) && Conforms(v, s, rule)
    requires Conforms(child, s.fields[seg.row].1, rule)
    ensures Conforms(JObj(Put(v.entries, seg.key, child)), s, rule)
  {
    var es' := Put(v.entries, seg.key, child);
    var fs := s.fields;
    forall i | 0 <= i < |fs|
      ensures Get(es', fs[i].0).Some? && Conforms(Get(es', fs[i].0).value, fs[i].1, rule)
    {
      if fs[i].0 == seg.key {
        assert i == seg.row;
      } else {
        PutOthers(v.entries, seg.key, child, fs[i].0);
      }
    }
  }

  /** Two keys lead to the same child: they are equal, or both parse to the
      same array index (`"1"`, `"01"` and `"+1"` all do). */
  predicate SameStep(a: string, b: string) {
    a == b || (ParseIndex(a).Some? && ParseIndex(a) == ParseIndex(b))
  }

  /** Path `q` leaves path `p`: at some depth they take different steps,
      after the same steps before it. */
  predicate Diverge(p: seq<Segment>, q: seq<Segment>)
    decreases |p|
  {
    |p| > 0 && |q| > 0 && (SameStep(p[0].key, q[0].key) ==> Diverge(p[1..], q[1..]))
  }

  /** `w` reads like `v` along every path that leaves `path`. */
  ghost predicate SameOutside(v: Json, w: Json, path: seq<Segment>) {
    forall q :: Diverge(path, q) ==> ValueAt(w, q) == ValueAt(v, q)
  }

  /** Assigning at a tracked path changes nothing off that path: every path
      that leaves it reads the same value as before. */
  lemma SetAtFrame(v: Json, s: Scheme, path: seq<Segment>, n: Json)
    requires Tracks(v, s, path)
    ensures SameOutside(v, SetAt(v, path, n), path)
  {
    forall q | Diverge(path, q) ensures ValueAt(SetAt(v, path, n), q) == ValueAt(v, q) {
      SetAtFrameAt(v, s, path, n, q);
    }
  }

  lemma {:induction false} SetAtFrameAt(v: Json, s: Scheme, path: seq<Segment>, n: Json, q: seq<Segment>)
    requires Tracks(v, s, path) && Diverge(path, q)
    ensures ValueAt(SetAt(v, path, n), q) == ValueAt(v, q)
    decreases |path|
  {
    var seg, rest := path[0], path[1..];
    var vc, sc := ValueChild(v, s, seg), SchemeChild(s, seg);
    var child' := SetAt(vc, rest, n);
    if s.Object? {
      var es' := Put(v.entries, seg.key, child');
      assert SetAt(v, path, n) == JObj(es');
      if q[0].key == seg.key {
        assert Get(es', seg.key) == Some(child');
        if |rest| > 0 {
          SetAtFrameAt(vc, sc, rest, n, q[1..]);
        }
      } else {
        PutOthers(v.entries, seg.key, child', q[0].key);
      }
    } else {
      ParseIndexRoundTrip(seg.row);
      var items' := v.items[seg.row := child'];
      assert SetAt(v, path, n) == JArr(items');
      if ParseIndex(q[0].key) == Some(seg.row) {
        if |rest| > 0 {
          SetAtFrameAt(vc, sc, rest, n, q[1..]);
        }
      }
    }
  }
}
