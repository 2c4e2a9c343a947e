/** The schema model (`Scheme` in src/util.rs), the compiler from a JSON schema
    description (`value_to_scheme`), default derivation (`scheme_to_default_value`),
    and what it means for a value to conform to a scheme. */
module Schemes {
  import opened Wrappers
  import opened Text
  import opened Decimal
  import opened JsonValue

  /** A scheme node. The field sequence of an `Object` stands for the Rust
      `HashMap`: its order is the map's (fixed but arbitrary) iteration order. */
  datatype Scheme =
    | Int(intDefault: int)
    | Str(strDefault: string)
    | Object(fields: seq<(string, Scheme)>)
    | List(elem: Scheme, listDefault: Json)

  /** Why a schema description does not compile. `SlicePanic` is the crash of
      `&t[..3]` on a string whose byte 3 is missing or inside a character. */
  datatype CompileError =
    | NotAllowedType(name: Json)
    | MissingListType(name: Json)
    | NotAcceptedSchemeType
    | SlicePanic(text: string)
    | BadListDefault

  /** Which JSON numbers satisfy an `Int` node: `AnyNumber` is serde's
      `is_number`; `I64Number` also demands what `as_i64` demands. */
  datatype NumberRule = AnyNumber | I64Number

  predicate NumberOk(v: Json, rule: NumberRule) {
    v.JNum? && (rule == I64Number ==> InI64(v.n))
  }

  /** `v` has the shape `s` describes: the meaning the validator checks. An
      object must hold every field of the scheme (extra keys are ignored); an
      array's elements must all conform to the element scheme. */
  predicate Conforms(v: Json, s: Scheme, rule: NumberRule)
    decreases s
  {
    match s
    case Int(_) => NumberOk(v, rule)
    case Str(_) => v.JStr?
    case Object(fs) =>
      && v.JObj?
      && forall i :: 0 <= i < |fs| ==>
          Get(v.entries, fs[i].0).Some? && Conforms(Get(v.entries, fs[i].0).value, fs[i].1, rule)
    case List(e, _) =>
      && v.JArr?
      && forall j :: 0 <= j < |v.items| ==> Conforms(v.items[j], e, rule)
  }

  /** The stricter rule implies the looser one. */
  lemma {:induction false} StrictConformsLoose(v: Json, s: Scheme)
    requires Conforms(v, s, I64Number)
    ensures Conforms(v, s, AnyNumber)
    decreases s
  {
    match s
    case Int(_) =>
    case Str(_) =>
    case Object(fs) =>
      forall i | 0 <= i < |fs|
        ensures Conforms(Get(v.entries, fs[i].0).value, fs[i].1, AnyNumber)
      {
        StrictConformsLoose(Get(v.entries, fs[i].0).value, fs[i].1);
      }
    case List(e, _) =>
      forall j | 0 <= j < |v.items|
        ensures Conforms(v.items[j], e, AnyNumber)
      {
        StrictConformsLoose(v.items[j], e);
      }
  }

  /** What every compiled scheme satisfies: `Int` defaults fit in an `i64` and
      the keys of each `Object` are distinct (they were `HashMap` keys). */
  predicate Shaped(s: Scheme)
    decreases s
  {
    match s
    case Int(d) => InI64(d)
    case Str(_) => true
    case Object(fs) => DistinctKeys(fs) && forall i :: 0 <= i < |fs| ==> Shaped(fs[i].1)
    case List(e, _) => Shaped(e)
  }

  /** Every `List` node's stored default conforms to that node. */
  predicate ListDefaultsConform(s: Scheme)
    decreases s
  {
    match s
    case Int(_) => true
    case Str(_) => true
    case Object(fs) => forall i :: 0 <= i < |fs| ==> ListDefaultsConform(fs[i].1)
    case List(e, d) => ListDefaultsConform(e) && Conforms(d, s, I64Number)
  }

  predicate WellFormed(s: Scheme) {
    Shaped(s) && ListDefaultsConform(s)
  }

  /** `scheme_to_default_value`. A list's default is its stored default, never
      a list built from the element's default. */
  function Default(s: Scheme): (r: Json)
    decreases s, 1
  {
    match s
    case Int(d) => JNum(d)
    case Str(d) => JStr(d)
    case Object(fs) => JObj(DefaultFields(s, 0))
    case List(_, d) => d
  }

  /** The default entries for the fields of `s` from position `i` on. */
  function DefaultFields(s: Scheme, i: nat): (r: seq<(string, Json)>)
    requires s.Object? && i <= |s.fields|
    ensures |r| == |s.fields| - i
    ensures forall j :: 0 <= j < |r| ==> r[j].0 == s.fields[i + j].0
    decreases s, 0, |s.fields| - i
  {
    if i == |s.fields| then []
    else [(s.fields[i].0, Default(s.fields[i].1))] + DefaultFields(s, i + 1)
  }

  lemma {:induction false} DefaultFieldsValue(s: Scheme, i: nat, j: nat)
    requires s.Object? && i <= j < |s.fields|
    ensures DefaultFields(s, i)[j - i].1 == Default(s.fields[j].1)
    decreases j - i
  {
    if i < j {
      DefaultFieldsValue(s, i + 1, j);
    }
  }

  /** The default of an `Object` node maps each of the scheme's keys to that
      field's own default, and has no other keys. */
  lemma DefaultObject(s: Scheme, i: nat)
    requires s.Object? && DistinctKeys(s.fields) && i < |s.fields|
    ensures Default(s).JObj?
    ensures Keys(Default(s).entries) == Keys(s.fields)
    ensures Get(Default(s).entries, s.fields[i].0) == Some(Default(s.fields[i].1))
  {
    var es := DefaultFields(s, 0);
    assert DistinctKeys(es);
    DefaultFieldsValue(s, 0, i);
    GetDistinct(es, i);
  }

  /** Defaults self-validate, provided every list's stored default does. */
  lemma {:induction false} DefaultConforms(s: Scheme)
    requires WellFormed(s)
    ensures Conforms(Default(s), s, I64Number)
    decreases s
  {
    match s
    case Int(_) =>
    case Str(_) =>
    case Object(fs) =>
      forall i | 0 <= i < |fs|
        ensures Get(Default(s).entries, fs[i].0).Some?
        ensures Conforms(Get(Default(s).entries, fs[i].0).value, fs[i].1, I64Number)
      {
        DefaultObject(s, i);
        DefaultConforms(fs[i].1);
      }
    case List(e, d) =>
  }

  /** `value_to_scheme`. */
  function Compile(v: Json): (r: Result<Scheme, CompileError>)
    ensures r.Success? ==> Shaped(r.value)
    ensures v.JNull? || v.JBool? || v.JNum? ==> r == Failure(NotAcceptedSchemeType)
    ensures v.JArr? && |v.items| == 0 ==> r == Failure(MissingListType(v))
    ensures v.JObj? && r.Success? ==>
      r.value.Object? && forall k :: k in Keys(r.value.fields) <==> k in Keys(v.entries)
    decreases v, 1
  {
    match v
    case JStr(t) =>
      if !OnBoundary(t, 3) then Failure(SlicePanic(t))
      else if |t| >= 3 && t[..3] == "Str" then Success(Str(Trim(t[3..])))
      else if |t| >= 3 && t[..3] == "Int" then Success(Int(ParseI64(Trim(t[3..])).GetOr(0)))
      else Failure(NotAllowedType(v))
    case JArr(l) =>
      if |l| == 0 then Failure(MissingListType(v))
      else
        var elem := Compile(l[0]);
        if elem.Failure? then Failure(elem.error)
        else Success(List(elem.value, if |l| > 1 then l[1] else JArr([])))
    case JObj(es) => CompileFields(v, 0, [])
    case _ => Failure(NotAcceptedSchemeType)
  }

  predicate AllShaped(fields: seq<(string, Scheme)>) {
    forall j :: 0 <= j < |fields| ==> Shaped(fields[j].1)
  }

  /** The loop over the entries of an object description, from position `i`,
      inserting into `acc`; the first failing entry's error is returned. */
  function CompileFields(v: Json, i: nat, acc: seq<(string, Scheme)>): (r: Result<Scheme, CompileError>)
    requires v.JObj? && i <= |v.entries|
    requires DistinctKeys(acc) && AllShaped(acc)
    ensures r.Success? ==> Shaped(r.value)
    ensures r.Success? ==> r.value.Object? && forall k ::
      k in Keys(r.value.fields) <==> k in Keys(acc) || k in Keys(v.entries[i..])
    decreases v, 0, |v.entries| - i
  {
    if i == |v.entries| then Success(Object(acc))
    else
      var field := Compile(v.entries[i].1);
      if field.Failure? then Failure(field.error)
      else
        var acc' := Put(acc, v.entries[i].0, field.value);
        PutEntries(acc, v.entries[i].0, field.value);
        assert AllShaped(acc') by {
          forall j | 0 <= j < |acc'| ensures Shaped(acc'[j].1) {
            assert acc'[j] in acc';
          }
        }
        assert forall k :: k in Keys(v.entries[i..]) <==> k == v.entries[i].0 || k in Keys(v.entries[i + 1..]) by {
          assert Keys(v.entries[i..]) == [v.entries[i].0] + Keys(v.entries[i + 1..]);
        }
        CompileFields(v, i + 1, acc')
  }

  /** An object description fails with the error of its first entry that
      fails to compile (the `?` inside the insert loop). */
  lemma CompileObjectFails(v: Json, k: nat)
    requires v.JObj? && k < |v.entries|
    requires Compile(v.entries[k].1).Failure?
    requires forall m :: 0 <= m < k ==> Compile(v.entries[m].1).Success?
    ensures Compile(v) == Failure(Compile(v.entries[k].1).error)
  {
    var fs := seq(k, m requires 0 <= m < k => Compile(v.entries[m].1).value);
    CompileFieldsFails(v, 0, [], fs, Compile(v.entries[k].1).error);
  }

  /** From entry `i` on, the entries before index `|fs|` compile to `fs`
      and entry `|fs|` fails with `err`. */
  lemma {:induction false} CompileFieldsFails(v: Json, i: nat, acc: seq<(string, Scheme)>, fs: seq<Scheme>, err: CompileError)
    requires v.JObj? && i <= |fs| < |v.entries|
    requires DistinctKeys(acc) && AllShaped(acc)
    requires Compile(v.entries[|fs|].1) == Failure(err)
    requires forall m :: i <= m < |fs| ==> Compile(v.entries[m].1) == Success(fs[m])
    ensures CompileFields(v, i, acc) == Failure(err)
    decreases |fs| - i
  {
    if i < |fs| {
      CompileFieldsStep(v, i, acc, fs[i]);
      CompileFieldsFails(v, i + 1, Put(acc, v.entries[i].0, fs[i]), fs, err);
    }
  }

  /** `value_to_scheme` with the check it lacks: a compiled scheme whose
      list defaults do not conform to their list nodes is rejected. */
  function CompileChecked(v: Json): (r: Result<Scheme, CompileError>)
    ensures r.Success? ==> WellFormed(r.value)
    ensures r.Success? <==> Compile(v).Success? && ListDefaultsConform(Compile(v).value)
    ensures r.Success? ==> r == Compile(v)
  {
    var compiled := Compile(v);
    if compiled.Failure? then compiled
    else if ListDefaultsConform(compiled.value) then compiled
    else Failure(BadListDefault)
  }

  /** A description that starts with `Str` compiles to a string node whose
      default is the trimmed rest. */
  lemma CompileStr(rest: string)
    ensures Compile(JStr("Str" + rest)) == Success(Str(Trim(rest)))
  {
    var t := "Str" + rest;
    AsciiPrefixOnBoundary(t);
    assert t[..3] == "Str" && t[3..] == rest;
  }

  /** A description that starts with `Int` always compiles: to the parsed
      trimmed rest, or to 0 when that does not parse as an `i64`. */
  lemma CompileInt(rest: string)
    ensures Compile(JStr("Int" + rest)) == Success(Int(ParseI64(Trim(rest)).GetOr(0)))
  {
    var t := "Int" + rest;
    AsciiPrefixOnBoundary(t);
    assert t[..3] == "Int" && t[3..] == rest;
    assert t[..3] != "Str" by {
      assert t[..3][0] == 'I' && "Str"[0] == 'S';
    }
  }

  /** Any other string is rejected: a type name error, or the slice panic. */
  lemma CompileOtherString(t: string)
    requires |t| < 3 || (t[..3] != "Str" && t[..3] != "Int")
    ensures Compile(JStr(t)) == Failure(if OnBoundary(t, 3) then NotAllowedType(JStr(t)) else SlicePanic(t))
  {
  }

  /** An array description compiles to a list of its first element's scheme
      with the second element, or `[]`, as the stored default; an error in the
      first element is passed on unchanged. */
  lemma CompileArray(l: seq<Json>)
    requires |l| > 0
    ensures Compile(l[0]).Failure? ==> Compile(JArr(l)) == Failure(Compile(l[0]).error)
    ensures Compile(l[0]).Success? ==>
      Compile(JArr(l)) == Success(List(Compile(l[0]).value, if |l| > 1 then l[1] else JArr([])))
  {
  }

  /** Stripping one leading space from trimmed text. */
  lemma TrimSpaced(d: string)
    requires NoEdgeSpace(d)
    ensures Trim(" " + d) == d
  {
    var t := " " + d;
    assert t[1..] == d;
    assert TrimStart(t) == TrimStart(d);
    if |d| > 0 {
      assert TrimStart(d) == d;
    } else {
      assert TrimStart(d) == [];
    }
  }

  /** Round trip: `"Int " + n.to_string()` compiles to `Int(n)`. */
  lemma CompileIntRoundTrip(n: int)
    requires InI64(n)
    ensures Compile(JStr("Int " + IntToString(n))) == Success(Int(n))
  {
    var d := IntToString(n);
    assert !IsWhitespace(d[0]) && !IsWhitespace(d[|d| - 1]);
    TrimSpaced(d);
    assert "Int " + d == "Int" + (" " + d);
    CompileInt(" " + d);
    ParseI64RoundTrip(n);
  }

  /** Round trip: `"Str " + d` compiles to `Str(d)` when `d` has no
      surrounding whitespace. */
  lemma CompileStrRoundTrip(d: string)
    requires NoEdgeSpace(d)
    ensures Compile(JStr("Str " + d)) == Success(Str(d))
  {
    TrimSpaced(d);
    assert "Str " + d == "Str" + (" " + d);
    CompileStr(" " + d);
  }

  /** String defaults have no surrounding whitespace (the compiler trims them). */
  predicate TextsTrimmed(s: Scheme)
    decreases s
  {
    match s
    case Int(_) => true
    case Str(d) => NoEdgeSpace(d)
    case Object(fs) => forall i :: 0 <= i < |fs| ==> TextsTrimmed(fs[i].1)
    case List(e, _) => TextsTrimmed(e)
  }

  /** The canonical JSON description of a scheme. */
  function Describe(s: Scheme): (r: Json)
    decreases s, 1
  {
    match s
    case Int(d) => JStr("Int " + IntToString(d))
    case Str(d) => JStr("Str " + d)
    case Object(fs) => JObj(DescribeFields(s, 0))
    case List(e, d) => JArr([Describe(e), d])
  }

  function DescribeFields(s: Scheme, i: nat): (r: seq<(string, Json)>)
    requires s.Object? && i <= |s.fields|
    ensures |r| == |s.fields| - i
    ensures forall j :: 0 <= j < |r| ==> r[j].0 == s.fields[i + j].0
    decreases s, 0, |s.fields| - i
  {
    if i == |s.fields| then []
    else [(s.fields[i].0, Describe(s.fields[i].1))] + DescribeFields(s, i + 1)
  }

  lemma {:induction false} DescribeFieldsValue(s: Scheme, i: nat, j: nat)
    requires s.Object? && i <= j < |s.fields|
    ensures DescribeFields(s, i)[j - i].1 == Describe(s.fields[j].1)
    decreases j - i
  {
    if i < j {
      DescribeFieldsValue(s, i + 1, j);
    }
  }

  /** Compiling the description of a compiled-shape scheme gives it back. */
  lemma {:induction false} CompileDescribe(s: Scheme)
    requires Shaped(s) && TextsTrimmed(s)
    ensures Compile(Describe(s)) == Success(s)
    decreases s
  {
    match s
    case Int(d) => CompileIntRoundTrip(d);
    case Str(d) => CompileStrRoundTrip(d);
    case Object(fs) =>
      forall k | 0 <= k < |fs| ensures Compile(Describe(fs[k].1)) == Success(fs[k].1) {
        CompileDescribe(fs[k].1);
      }
      CompileDescribedObject(s);
    case List(e, d) =>
      CompileDescribe(e);
  }

  /** An object node's description compiles back once each field's does. */
  lemma CompileDescribedObject(s: Scheme)
    requires s.Object? && Shaped(s)
    requires forall k :: 0 <= k < |s.fields| ==> Compile(Describe(s.fields[k].1)) == Success(s.fields[k].1)
    ensures Compile(Describe(s)) == Success(s)
  {
    var v := Describe(s);
    var fs := s.fields;
    forall k | 0 <= k < |fs| ensures v.entries[k] == (fs[k].0, Describe(fs[k].1)) {
      DescribeEntry(s, k);
    }
    assert fs[..0] == [];
    assert Compile(v) == CompileFields(v, 0, fs[..0]);
    CompileFieldsAll(v, fs, 0);
  }

  /** The field loop over entries that compile one by one to the fields of
      `fs`, under distinct keys, rebuilds `fs` in order. */
  lemma {:induction false} CompileFieldsAll(v: Json, fs: seq<(string, Scheme)>, i: nat)
    requires v.JObj? && |v.entries| == |fs| && i <= |fs|
    requires DistinctKeys(fs) && AllShaped(fs)
    requires forall k :: i <= k < |fs| ==> v.entries[k].0 == fs[k].0 && Compile(v.entries[k].1) == Success(fs[k].1)
    ensures CompileFields(v, i, fs[..i]) == Success(Object(fs))
    decreases |fs| - i
  {
    if i == |fs| {
      assert fs[..i] == fs;
    } else {
      FieldsStep(v, fs, i);
      CompileFieldsAll(v, fs, i + 1);
    }
  }

  /** One iteration of `CompileFieldsAll`: entry `i` re-inserts field `i`. */
  lemma FieldsStep(v: Json, fs: seq<(string, Scheme)>, i: nat)
    requires v.JObj? && |v.entries| == |fs| && i < |fs|
    requires DistinctKeys(fs) && AllShaped(fs)
    requires v.entries[i].0 == fs[i].0 && Compile(v.entries[i].1) == Success(fs[i].1)
    ensures CompileFields(v, i, fs[..i]) == CompileFields(v, i + 1, fs[..i + 1])
  {
    assert fs[..i + 1] == fs[..i] + [(v.entries[i].0, fs[i].1)] by {
      assert fs[i] == (v.entries[i].0, fs[i].1);
    }
    FreshKey(fs, i);
    AllShapedPrefix(fs, i);
    InsertFresh(v, i, fs[..i], fs[i].1, fs[..i + 1]);
  }

  lemma AllShapedPrefix(fs: seq<(string, Scheme)>, i: nat)
    requires AllShaped(fs) && i <= |fs|
    ensures AllShaped(fs[..i])
  {
    forall j | 0 <= j < i ensures Shaped(fs[..i][j].1) {
      assert fs[..i][j] == fs[j];
    }
  }

  /** One iteration of the field loop when entry `i` compiles and its key is
      new: the field is appended. */
  lemma InsertFresh(v: Json, i: nat, acc: seq<(string, Scheme)>, field: Scheme, grown: seq<(string, Scheme)>)
    requires v.JObj? && i < |v.entries|
    requires DistinctKeys(acc) && AllShaped(acc) && v.entries[i].0 !in Keys(acc)
    requires Compile(v.entries[i].1) == Success(field)
    requires grown == acc + [(v.entries[i].0, field)]
    ensures AllShaped(grown)
    ensures CompileFields(v, i, acc) == CompileFields(v, i + 1, grown)
  {
    CompileFieldsStep(v, i, acc, field);
    PutFresh(acc, v.entries[i].0, field);
  }

  lemma DescribeEntry(s: Scheme, i: nat)
    requires s.Object? && i < |s.fields|
    ensures Describe(s).JObj? && i < |Describe(s).entries|
    ensures Describe(s).entries[i] == (s.fields[i].0, Describe(s.fields[i].1))
  {
    DescribeFieldsValue(s, 0, i);
  }

  /** With distinct keys, key `i` does not occur before position `i`. */
  lemma FreshKey<V>(fs: seq<(string, V)>, i: nat)
    requires DistinctKeys(fs) && i < |fs|
    ensures DistinctKeys(fs[..i])
    ensures fs[i].0 !in Keys(fs[..i])
  {
    forall j | 0 <= j < i ensures Keys(fs[..i])[j] != fs[i].0 {
      assert Keys(fs[..i])[j] == fs[j].0;
    }
  }

  /** One iteration of the field loop when entry `i` compiles. */
  lemma CompileFieldsStep(v: Json, i: nat, acc: seq<(string, Scheme)>, field: Scheme)
    requires v.JObj? && i < |v.entries|
    requires DistinctKeys(acc) && AllShaped(acc)
    requires Compile(v.entries[i].1) == Success(field)
    ensures DistinctKeys(Put(acc, v.entries[i].0, field)) && AllShaped(Put(acc, v.entries[i].0, field))
    ensures CompileFields(v, i, acc) == CompileFields(v, i + 1, Put(acc, v.entries[i].0, field))
  {
    var acc' := Put(acc, v.entries[i].0, field);
    PutEntries(acc, v.entries[i].0, field);
    forall j | 0 <= j < |acc'| ensures Shaped(acc'[j].1) {
      assert acc'[j] in acc';
    }
  }
}
