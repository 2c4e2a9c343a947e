/** The conformance validator `contains_scheme` and the pure part of
    `load_config` (src/util.rs): a missing document becomes the scheme's
    default, then the document is validated. */
module Validator {
  import opened Wrappers
  import opened Text
  import opened Decimal
  import opened JsonValue
  import opened Schemes

  datatype Problem = NotNumber | NotString | NotObject | MissingChild(key: string) | NotArray

  /** A validation error: the path of the offending node and what is wrong there. */
  datatype ValidationError = ValidationError(at: seq<string>, problem: Problem)

  /** `format!("Value [{}]", path.join("]["))`. */
  function Location(path: seq<string>): string {
    "Value [" + Join(path, "][") + "]"
  }

  /** The error text, word for word as the source formats it. */
  function Message(e: ValidationError): string {
    Location(e.at) +
      match e.problem
      case NotNumber => " has to be a number"
      case NotString => " has to be a string"
      case NotObject => " has to an object"
      case MissingChild(k) => " doesn't has child " + k
      case NotArray => " has to be an array"
  }

  predicate IsPrefix(p: seq<string>, q: seq<string>) {
    |p| <= |q| && q[..|p|] == p
  }

  /** `contains_scheme(value, scheme, path)`, with the number test chosen by
      `rule`: the source uses `AnyNumber`. It stops at the first mismatch, and
      the error's path extends the path it was given. */
  function Check(v: Json, s: Scheme, path: seq<string>, rule: NumberRule): (r: Outcome<ValidationError>)
    ensures r.Fail? ==> IsPrefix(path, r.error.at)
    decreases s, 1
  {
    match s
    case Int(_) => if NumberOk(v, rule) then Pass else Fail(ValidationError(path, NotNumber))
    case Str(_) => if v.JStr? then Pass else Fail(ValidationError(path, NotString))
    case Object(fs) => if v.JObj? then CheckFields(v, s, path, rule, 0) else Fail(ValidationError(path, NotObject))
    case List(e, _) => if v.JArr? then CheckItems(v, s, path, rule, 0) else Fail(ValidationError(path, NotArray))
  }

  /** The loop over the scheme's fields, from position `i`. */
  function CheckFields(v: Json, s: Scheme, path: seq<string>, rule: NumberRule, i: nat): (r: Outcome<ValidationError>)
    requires v.JObj? && s.Object? && i <= |s.fields|
    ensures r.Fail? ==> IsPrefix(path, r.error.at)
    decreases s, 0, |s.fields| - i
  {
    if i == |s.fields| then Pass
    else
      var key := s.fields[i].0;
      match Get(v.entries, key)
      case None => Fail(ValidationError(path, MissingChild(key)))
      case Some(child) =>
        var r := Check(child, s.fields[i].1, path + [key], rule);
        if r.Fail? then
          assert (path + [key])[..|path|] == path;
          r
        else CheckFields(v, s, path, rule, i + 1)
  }

  /** The loop over the array's elements, from index `j`; each element's path
      gets its index as a decimal string. */
  function CheckItems(v: Json, s: Scheme, path: seq<string>, rule: NumberRule, j: nat): (r: Outcome<ValidationError>)
    requires v.JArr? && s.List? && j <= |v.items|
    ensures r.Fail? ==> IsPrefix(path, r.error.at)
    decreases s, 0, |v.items| - j
  {
    if j == |v.items| then Pass
    else
      var r := Check(v.items[j], s.elem, path + [NatToString(j)], rule);
      if r.Fail? then
        assert (path + [NatToString(j)])[..|path|] == path;
        r
      else CheckItems(v, s, path, rule, j + 1)
  }

  /** The validator accepts exactly the conforming values, whatever the path. */
  lemma {:induction false} CheckIffConforms(v: Json, s: Scheme, path: seq<string>, rule: NumberRule)
    ensures Check(v, s, path, rule).Pass? <==> Conforms(v, s, rule)
    decreases s, 1
  {
    match s
    case Int(_) =>
    case Str(_) =>
    case Object(fs) =>
      if v.JObj? {
        CheckFieldsIff(v, s, path, rule, 0);
      }
    case List(e, _) =>
      if v.JArr? {
        CheckItemsIff(v, s, path, rule, 0);
      }
  }

  lemma {:induction false} CheckFieldsIff(v: Json, s: Scheme, path: seq<string>, rule: NumberRule, i: nat)
    requires v.JObj? && s.Object? && i <= |s.fields|
    ensures CheckFields(v, s, path, rule, i).Pass? <==>
      forall k :: i <= k < |s.fields| ==>
        Get(v.entries, s.fields[k].0).Some? && Conforms(Get(v.entries, s.fields[k].0).value, s.fields[k].1, rule)
    decreases s, 0, |s.fields| - i
  {
    if i < |s.fields| {
      var key := s.fields[i].0;
      if Get(v.entries, key).Some? {
        CheckIffConforms(Get(v.entries, key).value, s.fields[i].1, path + [key], rule);
        CheckFieldsIff(v, s, path, rule, i + 1);
      }
    }
  }

  lemma {:induction false} CheckItemsIff(v: Json, s: Scheme, path: seq<string>, rule: NumberRule, j: nat)
    requires v.JArr? && s.List? && j <= |v.items|
    ensures CheckItems(v, s, path, rule, j).Pass? <==>
      forall k :: j <= k < |v.items| ==> Conforms(v.items[k], s.elem, rule)
    decreases s, 0, |v.items| - j
  {
    if j < |v.items| {
      CheckIffConforms(v.items[j], s.elem, path + [NatToString(j)], rule);
      CheckItemsIff(v, s, path, rule, j + 1);
    }
  }

  /** The value node and scheme node reached from `(v, s)` along the keys
      `rel`, the way the validator extends its path: by field name in an
      object, by decimal index in an array. */
  function Reach(v: Json, s: Scheme, rel: seq<string>): Option<(Json, Scheme)>
    decreases |rel|
  {
    if |rel| == 0 then Some((v, s))
    else
      match s
      case Object(fs) =>
        var f := Get(fs, rel[0]);
        if !v.JObj? || f.None? || Get(v.entries, rel[0]).None? then None
        else Reach(Get(v.entries, rel[0]).value, f.value, rel[1..])
      case List(e, _) =>
        var i := ParseIndex(rel[0]);
        if !v.JArr? || i.None? || i.value >= |v.items| then None
        else Reach(v.items[i.value], e, rel[1..])
      case _ => None
  }

  /** `p` is what is wrong with value node `w` under scheme node `t`. */
  predicate Explains(w: Json, t: Scheme, p: Problem, rule: NumberRule) {
    match p
    case NotNumber => t.Int? && !NumberOk(w, rule)
    case NotString => t.Str? && !w.JStr?
    case NotObject => t.Object? && !w.JObj?
    case NotArray => t.List? && !w.JArr?
    case MissingChild(k) => t.Object? && w.JObj? && k in Keys(t.fields) && Get(w.entries, k).None?
  }

  /** A reported error names a real culprit: below the starting path, its
      path leads to a node of the value and of the scheme, and its problem is
      what is wrong with that node. */
  lemma {:induction false} CheckBlames(v: Json, s: Scheme, path: seq<string>, rule: NumberRule)
    requires Shaped(s) && Check(v, s, path, rule).Fail?
    ensures var e := Check(v, s, path, rule).error;
      && Reach(v, s, e.at[|path|..]).Some?
      && Explains(Reach(v, s, e.at[|path|..]).value.0, Reach(v, s, e.at[|path|..]).value.1, e.problem, rule)
    decreases s, 1
  {
    match s
    case Int(_) =>
    case Str(_) =>
    case Object(fs) =>
      if v.JObj? {
        CheckFieldsBlames(v, s, path, rule, 0);
      }
    case List(e, _) =>
      if v.JArr? {
        CheckItemsBlames(v, s, path, rule, 0);
      }
  }

  lemma {:induction false} CheckFieldsBlames(v: Json, s: Scheme, path: seq<string>, rule: NumberRule, i: nat)
    requires v.JObj? && s.Object? && i <= |s.fields| && Shaped(s)
    requires CheckFields(v, s, path, rule, i).Fail?
    ensures var e := CheckFields(v, s, path, rule, i).error;
      && Reach(v, s, e.at[|path|..]).Some?
      && Explains(Reach(v, s, e.at[|path|..]).value.0, Reach(v, s, e.at[|path|..]).value.1, e.problem, rule)
    decreases s, 0, |s.fields| - i
  {
    var key := s.fields[i].0;
    var e := CheckFields(v, s, path, rule, i).error;
    if Get(v.entries, key).None? {
      assert e == ValidationError(path, MissingChild(key));
      assert e.at[|path|..] == [];
      assert key in Keys(s.fields) by { assert Keys(s.fields)[i] == key; }
    } else {
      var child := Get(v.entries, key).value;
      var r := Check(child, s.fields[i].1, path + [key], rule);
      if r.Fail? {
        assert e == r.error;
        CheckBlames(child, s.fields[i].1, path + [key], rule);
        GetDistinct(s.fields, i);
        var rel := e.at[|path|..];
        assert |rel| > 0 && rel[0] == key && rel[1..] == e.at[|path + [key]|..] by {
          assert IsPrefix(path + [key], e.at);
          assert e.at[|path|] == (path + [key])[|path|];
        }
        assert Reach(v, s, rel) == Reach(child, s.fields[i].1, rel[1..]);
      } else {
        CheckFieldsBlames(v, s, path, rule, i + 1);
      }
    }
  }

  lemma {:induction false} CheckItemsBlames(v: Json, s: Scheme, path: seq<string>, rule: NumberRule, j: nat)
    requires v.JArr? && s.List? && j <= |v.items| && Shaped(s)
    requires CheckItems(v, s, path, rule, j).Fail?
    ensures var e := CheckItems(v, s, path, rule, j).error;
      && Reach(v, s, e.at[|path|..]).Some?
      && Explains(Reach(v, s, e.at[|path|..]).value.0, Reach(v, s, e.at[|path|..]).value.1, e.problem, rule)
    decreases s, 0, |v.items| - j
  {
    var key := NatToString(j);
    var e := CheckItems(v, s, path, rule, j).error;
    var r := Check(v.items[j], s.elem, path + [key], rule);
    if r.Fail? {
      assert e == r.error;
      CheckBlames(v.items[j], s.elem, path + [key], rule);
      ParseIndexRoundTrip(j);
      var rel := e.at[|path|..];
      assert |rel| > 0 && rel[0] == key && rel[1..] == e.at[|path + [key]|..] by {
        assert IsPrefix(path + [key], e.at);
        assert e.at[|path|] == (path + [key])[|path|];
      }
      assert Reach(v, s, rel) == Reach(v.items[j], s.elem, rel[1..]);
    } else {
      CheckItemsBlames(v, s, path, rule, j + 1);
    }
  }

  const REMEDY: string := "\nIf you delete the config file, a new correct one will be created"

  /** `load_config` after the file read: `loaded` is what `load_json_file`
      returned (`JNull` for a missing file). The source validates with
      `AnyNumber`; `LoadConfigStrict` below is the corrected variant. */
  function LoadConfigWith(loaded: Result<Json, string>, s: Scheme, rule: NumberRule): (r: Result<Json, string>)
    ensures loaded.Failure? ==> r == Failure(loaded.error)
    ensures r.Success? ==> Conforms(r.value, s, rule)
    ensures r.Success? ==> r.value == (if loaded.value.JNull? then Default(s) else loaded.value)
    ensures loaded.Success? && Conforms(if loaded.value.JNull? then Default(s) else loaded.value, s, rule) ==> r.Success?
  {
    if loaded.Failure? then Failure(loaded.error)
    else
      var v := if loaded.value.JNull? then Default(s) else loaded.value;
      var outcome := Check(v, s, [], rule);
      CheckIffConforms(v, s, [], rule);
      if outcome.Pass? then Success(v)
      else Failure("Invalid config file: " + Message(outcome.error) + REMEDY)
  }

  /** `load_config` as written: numbers are checked with `is_number`. */
  function LoadConfig(loaded: Result<Json, string>, s: Scheme): (r: Result<Json, string>)
    ensures r.Success? ==> Conforms(r.value, s, AnyNumber)
    ensures loaded.Success? && !loaded.value.JNull? && !Conforms(loaded.value, s, AnyNumber) ==>
      r.Failure? && |r.error| > 21 && r.error[..21] == "Invalid config file: "
  {
    LoadConfigWith(loaded, s, AnyNumber)
  }

  /** `load_config` with the `Int` check corrected to what the editor's
      `as_i64().unwrap()` needs. */
  function LoadConfigStrict(loaded: Result<Json, string>, s: Scheme): (r: Result<Json, string>)
    ensures r.Success? ==> Conforms(r.value, s, I64Number)
  {
    LoadConfigWith(loaded, s, I64Number)
  }

  /** A missing field is reported at the path of the object that lacks it,
      not at the field's own path: `{"a": {}}` against `{"a": {"b": Int}}`. */
  lemma MissingChildReported()
    ensures Check(JObj([("a", JObj([]))]), Object([("a", Object([("b", Int(0))]))]), [], AnyNumber) ==
      Fail(ValidationError(["a"], MissingChild("b")))
    ensures Message(ValidationError(["a"], MissingChild("b"))) == "Value [a] doesn't has child b"
    ensures LoadConfig(Success(JObj([("a", JObj([]))])), Object([("a", Object([("b", Int(0))]))])) ==
      Failure("Invalid config file: " + "Value [a] doesn't has child b" + REMEDY)
  {
    var inner := Object([("b", Int(0))]);
    var s := Object([("a", inner)]);
    var v := JObj([("a", JObj([]))]);
    var err := Fail(ValidationError(["a"], MissingChild("b")));
    assert Get(v.entries, "a") == Some(JObj([]));
    assert Get(JObj([]).entries, "b") == None;
    assert CheckFields(JObj([]), inner, ["a"], AnyNumber, 0) == err;
    assert [] + ["a"] == ["a"];
    assert Check(JObj([]), inner, ["a"], AnyNumber) == err;
    assert CheckFields(v, s, [], AnyNumber, 0) == err;
    MissingChildText();
  }

  lemma MissingChildText()
    ensures Message(ValidationError(["a"], MissingChild("b"))) == "Value [a] doesn't has child b"
  {
    assert Join(["a"], "][") == "a";
  }

  /** A non-object where an object belongs is reported with the source's
      wording, which lacks the word "be". */
  lemma NotObjectReported()
    ensures Check(JNum(1), Object([]), [], AnyNumber) == Fail(ValidationError([], NotObject))
    ensures Message(ValidationError([], NotObject)) == "Value [] has to an object"
    ensures LoadConfig(Success(JNum(1)), Object([])) ==
      Failure("Invalid config file: " + "Value [] has to an object" + REMEDY)
  {
    assert Check(JNum(1), Object([]), [], AnyNumber) == Fail(ValidationError([], NotObject));
    NotObjectText();
  }

  lemma NotObjectText()
    ensures Message(ValidationError([], NotObject)) == "Value [] has to an object"
  {
    assert Join([], "][") == "";
  }

  /** A missing document always loads, as the scheme's default, when the
      scheme's list defaults conform. */
  lemma MissingDocumentLoads(s: Scheme)
    requires WellFormed(s)
    ensures LoadConfigStrict(Success(JNull), s) == Success(Default(s))
    ensures LoadConfig(Success(JNull), s) == Success(Default(s))
  {
    DefaultConforms(s);
    StrictConformsLoose(Default(s), s);
  }
}
