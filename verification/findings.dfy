/** Two places where src/util.rs and src/main.rs do not agree with each
    other, each shown on a concrete input, with the corrected definition and
    the property it restores. */
module Findings {
  import opened Wrappers
  import opened Text
  import opened Decimal
  import opened JsonValue
  import opened Schemes
  import opened Validator
  import opened Cursor
  import opened Navigator

  /** `["Int", 5]`: a list of integers whose default is not a list. */
  function NumberListDescription(): Json {
    JArr([JStr("Int"), JNum(5)])
  }

  /** `value_to_scheme` accepts the description, and a missing config file
      then fails validation against the very scheme it was defaulted from;
      the checked compiler refuses the description instead. */
  lemma ListDefaultUnchecked()
    ensures Compile(NumberListDescription()) == Success(List(Int(0), JNum(5)))
    ensures LoadConfig(Success(JNull), List(Int(0), JNum(5))).Failure?
    ensures CompileChecked(NumberListDescription()) == Failure(BadListDefault)
  {
    NumberListCompiles();
    NumberListDefaultRejected();
  }

  /** `"Int"` alone is an `Int` with default 0, so the list compiles. */
  lemma NumberListCompiles()
    ensures Compile(NumberListDescription()) == Success(List(Int(0), JNum(5)))
  {
    CompileInt("");
    assert "Int" + "" == "Int";
    assert Trim("") == "" by {
      assert NoEdgeSpace("");
    }
    assert ParseI64("") == None;
  }

  /** The list's default `5` is not an array, so validation fails. */
  lemma NumberListDefaultRejected()
    ensures LoadConfig(Success(JNull), List(Int(0), JNum(5))).Failure?
  {
    assert Default(List(Int(0), JNum(5))) == JNum(5);
    CheckIffConforms(JNum(5), List(Int(0), JNum(5)), [], AnyNumber);
  }

  /** With the check in place, every scheme the compiler accepts has a
      default the loader accepts: a missing config file always loads. */
  lemma CompileCheckedLoads(v: Json)
    requires CompileChecked(v).Success?
    ensures LoadConfig(Success(JNull), CompileChecked(v).value) == Success(Default(CompileChecked(v).value))
    ensures LoadConfigStrict(Success(JNull), CompileChecked(v).value) == Success(Default(CompileChecked(v).value))
  {
    MissingDocumentLoads(CompileChecked(v).value);
  }

  /** `{"count": Int}`. */
  function CounterScheme(): Scheme {
    Object([("count", Int(0))])
  }

  /** `{"count": 9223372036854775808}`: a number serde stores (as a `u64`)
      and `is_number` accepts, but `as_i64` does not. */
  function HugeCounter(): Json {
    JObj([("count", JNum(I64_MAX + 1))])
  }

  /** The loader as written accepts the document; opening the `count` field
      and entering a number then aborts at `as_i64().unwrap()`, while the
      corrected loader rejects the document up front. */
  lemma HugeNumberAccepted(render: Json -> string)
    ensures LoadConfig(Success(HugeCounter()), CounterScheme()) == Success(HugeCounter())
    ensures Admissible(CounterScheme(), [], Start(HugeCounter()), Select(1))
    ensures var next := Step(CounterScheme(), [], render, Start(HugeCounter()), Select(1));
      && next.Some?
      && next.value.path == [Segment("count", 0)]
      && Admissible(CounterScheme(), [], next.value, EnterInt(5))
      && Step(CounterScheme(), [], render, next.value, EnterInt(5)).None?
    ensures LoadConfigStrict(Success(HugeCounter()), CounterScheme()).Failure?
  {
    HugeCounterLoads();
    HugeCounterOpens(render);
    HugeCounterAborts(render, Step(CounterScheme(), [], render, Start(HugeCounter()), Select(1)).value);
  }

  /** Only the corrected loader notices the number is not an `i64`. */
  lemma HugeCounterLoads()
    ensures LoadConfig(Success(HugeCounter()), CounterScheme()) == Success(HugeCounter())
    ensures LoadConfigStrict(Success(HugeCounter()), CounterScheme()).Failure?
  {
    var s := CounterScheme();
    var v := HugeCounter();
    assert Get(v.entries, "count") == Some(JNum(I64_MAX + 1));
    CheckIffConforms(v, s, [], AnyNumber);
    CheckIffConforms(v, s, [], I64Number);
  }

  /** Row 1 of the root menu opens the `count` field. */
  lemma HugeCounterOpens(render: Json -> string)
    ensures Admissible(CounterScheme(), [], Start(HugeCounter()), Select(1))
    ensures var next := Step(CounterScheme(), [], render, Start(HugeCounter()), Select(1));
      next.Some? && next.value.path == [Segment("count", 0)] && next.value.config == HugeCounter() && !next.value.exit
  {
    var s := CounterScheme();
    var v := HugeCounter();
    assert Get(v.entries, "count") == Some(JNum(I64_MAX + 1));
    var c := Start(v);
    assert ActivePlugin([], c).None?;
    ObjectResult(s.fields, [], c, 1);
  }

  /** At the `count` field any admissible number aborts the editor. */
  lemma HugeCounterAborts(render: Json -> string, c: Configuration)
    requires c.config == HugeCounter() && c.path == [Segment("count", 0)] && !c.exit
    ensures Admissible(CounterScheme(), [], c, EnterInt(5))
    ensures Step(CounterScheme(), [], render, c, EnterInt(5)).None?
  {
    var s := CounterScheme();
    var v := HugeCounter();
    assert Get(v.entries, "count") == Some(JNum(I64_MAX + 1));
    assert Get(s.fields, "count") == Some(Int(0));
    assert c.path[1..] == [];
    assert SchemeAt(s, c.path) == Some(Int(0));
    assert ValueAt(v, c.path) == Some(JNum(I64_MAX + 1));
  }

  /** The corrected loader restores what the editor relies on: from any
      document it accepts, every admissible answer keeps the session within
      the invariant, so no `unwrap` in the editor aborts. */
  lemma StrictLoadNeverAborts(loaded: Result<Json, string>, s: Scheme, plugins: seq<Plugin>, render: Json -> string,
                              input: Input)
    requires WellFormed(s) && LoadConfigStrict(loaded, s).Success?
    requires Admissible(s, plugins, Start(LoadConfigStrict(loaded, s).value), input)
    requires PluginsSafe(s, plugins, Start(LoadConfigStrict(loaded, s).value))
    requires LabelsFit(render, Start(LoadConfigStrict(loaded, s).value))
    ensures Step(s, plugins, render, Start(LoadConfigStrict(loaded, s).value), input).Some?
    ensures Inv(s, Step(s, plugins, render, Start(LoadConfigStrict(loaded, s).value), input).value)
  {
    StartInv(loaded, s);
    StepPreservesInv(s, plugins, render, Start(LoadConfigStrict(loaded, s).value), input);
  }
}
