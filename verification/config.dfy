/** The fontTools configuration registry: the registered options, a
    configuration built from user values (each parsed and then validated),
    and the three-level lookup of an option's value. */
module Configuration {

  import opened Basics
  import opened PyDict
  import opened Text

  /** A registered option. Every option registered parses its values with
      `int`, so only the validator varies. */
  datatype ConfigOption = ConfigOption(name: string, help: string, default: int, validate: int -> bool)

  const GposModeName: string := "otlLib.optimize.gpos.mode"

  /** PairPos compaction: 0 leaves lookups alone, 1 to 9 allow more and more
      new subtables. */
  const GposMode: ConfigOption :=
    ConfigOption(GposModeName, "GPOS PairPos compaction mode (0 to 9)", 0, v => 0 <= v < 10)

  /** `OPTIONS`, by name. */
  const Options: Registry := [(GposModeName, GposMode)]

  /** A registry maps each option's name to the option itself. */
  type Registry = d: Dict<ConfigOption> | forall i :: 0 <= i < |d| ==> d[i].1.name == d[i].0 witness []

  /** `OPTIONS[name]` in a registry. */
  function LookupOption(registry: Registry, name: string): (r: Option<ConfigOption>)
    ensures r.Some? <==> name in Keys(registry)
    ensures r.Some? ==> r.value.name == name
  {
    var i := IndexOf(registry, name);
    if i < 0 then None else Some(registry[i].1)
  }

  /** fontTools registers the gpos mode and nothing else. */
  lemma OptionsHoldGposMode(name: string)
    ensures LookupOption(Options, name).Some? <==> name == GposModeName
    ensures LookupOption(Options, name).Some? ==> LookupOption(Options, name).value == GposMode
  {
    assert Keys(Options) == {GposModeName} by {
      assert Options[0].0 == GposModeName;
    }
  }

  /** The gpos mode accepts exactly 0 to 9, and its default is acceptable. */
  lemma GposModeRange(v: int)
    ensures GposMode.validate(v) <==> 0 <= v <= 9
    ensures GposMode.validate(GposMode.default)
  {
  }

  // ---------------------------------------------------------------------
  // Parsing with `int`

  /** A value a caller may hand to the configuration. */
  datatype RawValue = IntValue(i: int) | StrValue(s: string) | FloatValue(f: real)

  predicate IsDigit(c: char) {
    '0' <= c <= '9'
  }

  predicate AllDigits(s: string) {
    forall i :: 0 <= i < |s| ==> IsDigit(s[i])
  }

  /** The number a run of decimal digits spells; 0 for the empty run. */
  function DigitsValue(s: string): (n: nat)
    requires AllDigits(s)
  {
    if |s| == 0 then 0
    else DigitsValue(s[..|s| - 1]) * 10 + (s[|s| - 1] as int - '0' as int)
  }

  /** `int(s)` on a string: surrounding whitespace, an optional sign, then
      one or more decimal digits; anything else is a ValueError. */
  function ParseDecimal(s: string): (r: Result<int>)
    ensures r.Err? ==> r.error == InvalidValue
  {
    ParseSigned(Strip(s))
  }

  /** An optional sign, then one or more decimal digits. */
  function ParseSigned(t: string): (r: Result<int>)
    ensures r.Err? ==> r.error == InvalidValue
  {
    if |t| > 0 && (t[0] == '-' || t[0] == '+') then
      var digits := t[1..];
      if |digits| > 0 && AllDigits(digits) then
        Ok(if t[0] == '-' then -(DigitsValue(digits) as int) else DigitsValue(digits))
      else Err(InvalidValue)
    else if |t| > 0 && AllDigits(t) then Ok(DigitsValue(t))
    else Err(InvalidValue)
  }

  /** The decimal spelling of a natural number, most significant digit first. */
  function ShowNat(n: nat): (s: string)
    ensures |s| > 0 && AllDigits(s)
    ensures !IsPySpace(s[0]) && !IsPySpace(s[|s| - 1])
  {
    var d := ['0' + (n % 10) as char];
    if n < 10 then d else ShowNat(n / 10) + d
  }

  /** `str(n)`. */
  function ShowInt(n: int): (s: string)
    ensures |s| > 0
  {
    if n < 0 then "-" + ShowNat(-n) else ShowNat(n)
  }

  /** Reading the spelling of a number gives the number back. */
  lemma {:induction false} DigitsOfShowNat(n: nat)
    ensures DigitsValue(ShowNat(n)) == n
  {
    var s := ShowNat(n);
    if n >= 10 {
      DigitsOfShowNat(n / 10);
      assert s[..|s| - 1] == ShowNat(n / 10);
    }
  }

  /** `int(str(n)) == n`. */
  lemma ParseShowInt(n: int)
    ensures ParseDecimal(ShowInt(n)) == Ok(n)
  {
    var m: nat := if n < 0 then -n else n;
    var digits := ShowNat(m);
    DigitsOfShowNat(m);
    if n < 0 {
      var t := ShowInt(n);
      assert t == "-" + digits;
      assert t[0] == '-' && t[1..] == digits && t[|t| - 1] == digits[|digits| - 1];
      ParseNegative(t);
    } else {
      assert ShowInt(n) == digits;
      ParseUnsigned(digits);
    }
  }

  /** A bare run of digits parses as its value. */
  lemma ParseUnsigned(digits: string)
    requires |digits| > 0 && AllDigits(digits)
    ensures ParseDecimal(digits) == Ok(DigitsValue(digits))
  {
    assert IsDigit(digits[0]) && IsDigit(digits[|digits| - 1]);
    StripUnchanged(digits);
  }

  /** A minus sign followed by digits parses as the negated value. */
  lemma ParseNegative(t: string)
    requires |t| > 1 && t[0] == '-' && AllDigits(t[1..]) && !IsPySpace(t[|t| - 1])
    ensures ParseDecimal(t) == Ok(-(DigitsValue(t[1..]) as int))
  {
    StripUnchanged(t);
  }

  /** With a leading sign: accepted exactly when one or more digits follow,
      and the value is theirs, negated for `-`. */
  lemma ParseSignedWithSign(t: string)
    requires |t| > 0 && (t[0] == '+' || t[0] == '-')
    ensures ParseSigned(t) ==
      if |t| > 1 && AllDigits(t[1..])
      then Ok(if t[0] == '-' then -(DigitsValue(t[1..]) as int) else DigitsValue(t[1..]))
      else Err(InvalidValue)
  {
  }

  /** Without a sign: accepted exactly when the text is one or more digits;
      in particular the empty text is refused. */
  lemma ParseSignedUnsigned(t: string)
    requires |t| > 0 ==> t[0] != '+' && t[0] != '-'
    ensures ParseSigned(t) == if |t| > 0 && AllDigits(t) then Ok(DigitsValue(t)) else Err(InvalidValue)
  {
  }

  /** `int(s)` ignores the whitespace around the numeral and reads what is
      between. */
  lemma ParseDecimalSurrounded(pre: string, t: string, post: string)
    requires AllSpace(pre) && AllSpace(post) && NoEdgeSpace(t)
    ensures ParseDecimal(pre + t + post) == ParseSigned(t)
  {
    StripSurrounded(pre, t, post);
  }

  /** `int(f)` on a float: truncation toward zero. */
  function Truncate(f: real): (n: int)
    ensures 0.0 <= f ==> n as real <= f < n as real + 1.0
    ensures f < 0.0 ==> n as real - 1.0 < f <= n as real
  {
    if f >= 0.0 then f.Floor else -((-f).Floor)
  }

  /** `option.parse(value)`, that is `int(value)`. */
  function ParseValue(v: RawValue): (r: Result<int>)
    ensures v.IntValue? ==> r == Ok(v.i)
    ensures v.FloatValue? ==> r == Ok(Truncate(v.f))
    ensures v.StrValue? ==> r == ParseDecimal(v.s)
    ensures r.Err? ==> r.error == InvalidValue
  {
    match v
    case IntValue(i) => Ok(i)
    case FloatValue(f) => Ok(Truncate(f))
    case StrValue(s) => ParseDecimal(s)
  }

  // ---------------------------------------------------------------------
  // The configuration

  datatype Config = Config(values: Dict<int>)

  /** The entry is a registered option whose value parses and passes the validator. */
  predicate Acceptable(registry: Registry, entry: (string, RawValue)) {
    && LookupOption(registry, entry.0).Some?
    && ParseValue(entry.1).Ok?
    && LookupOption(registry, entry.0).value.validate(ParseValue(entry.1).value)
  }

  /** What `Config.__init__` raises for an entry: KeyError for an unknown
      name, ValueError when parsing or validation fails. */
  function EntryError(registry: Registry, entry: (string, RawValue)): Error {
    if LookupOption(registry, entry.0).None? then MissingKey(entry.0) else InvalidValue
  }

  /** Every stored key is a registered option and its value satisfies that
      option's validator. */
  predicate ConfigValid(registry: Registry, c: Config) {
    forall i :: 0 <= i < |c.values| ==>
      LookupOption(registry, c.values[i].0).Some? && LookupOption(registry, c.values[i].0).value.validate(c.values[i].1)
  }

  predicate AllAcceptable(registry: Registry, values: seq<(string, RawValue)>) {
    forall i :: 0 <= i < |values| ==> Acceptable(registry, values[i])
  }

  /** Entry `i` is the first that is not acceptable. */
  predicate FirstRejected(registry: Registry, values: seq<(string, RawValue)>, i: int) {
    && 0 <= i < |values|
    && !Acceptable(registry, values[i])
    && forall j :: 0 <= j < i ==> Acceptable(registry, values[j])
  }

  /** One pass of the loop in `Config.__init__`: `OPTIONS[key]`, then
      `option.parse(value)`, then `option.validate(value)`. */
  function EntryValue(registry: Registry, entry: (string, RawValue)): (r: Result<int>)
    ensures r.Ok? <==> Acceptable(registry, entry)
    ensures r.Ok? ==> r.value == ParseValue(entry.1).value
    ensures r.Err? ==> r.error == EntryError(registry, entry)
  {
    var option :- if LookupOption(registry, entry.0).Some? then Ok(LookupOption(registry, entry.0).value)
                  else Err(MissingKey(entry.0));
    var value :- ParseValue(entry.1);
    if !option.validate(value) then Err(InvalidValue) else Ok(value)
  }

  /** The loop of `Config.__init__` with its per-entry step `step`: each result
      stored under its entry's name, a later entry replacing an earlier one;
      the first entry whose step fails stops the loop. */
  function StoreEach<E>(values: seq<(string, E)>, step: ((string, E)) -> Result<int>): (r: Result<Dict<int>>)
    ensures r.Ok? <==> forall i :: 0 <= i < |values| ==> step(values[i]).Ok?
  {
    if |values| == 0 then Ok([])
    else
      var n := |values| - 1;
      var init := values[..n];
      assert (forall i :: 0 <= i < |values| ==> step(values[i]).Ok?)
        <==> (forall i :: 0 <= i < n ==> step(init[i]).Ok?) && step(values[n]).Ok? by {
        assert forall i :: 0 <= i < n ==> init[i] == values[i];
      }
      var prev :- StoreEach(init, step);
      var value :- step(values[n]);
      Ok(Put(prev, values[n].0, value))
  }

  /** A completed loop stores exactly the entries' names. */
  lemma {:induction false} StoreEachKeys<E>(values: seq<(string, E)>, step: ((string, E)) -> Result<int>)
    requires StoreEach(values, step).Ok?
    ensures Keys(StoreEach(values, step).value) == Keys(values)
  {
    if |values| > 0 {
      var n := |values| - 1;
      var init := values[..n];
      assert StoreEach(init, step).Ok? by {
        assert forall k :: 0 <= k < n ==> init[k] == values[k];
      }
      StoreEachKeys(init, step);
      KeysSnoc(values);
    }
  }

  /** A failed loop fails with the error of the first failing entry. */
  lemma {:induction false} StoreEachFirstError<E>(values: seq<(string, E)>, step: ((string, E)) -> Result<int>)
    requires StoreEach(values, step).Err?
    ensures exists i ::
      && 0 <= i < |values| && step(values[i]).Err?
      && (forall j :: 0 <= j < i ==> step(values[j]).Ok?)
      && StoreEach(values, step).error == step(values[i]).error
  {
    var n := |values| - 1;
    var init := values[..n];
    assert forall j :: 0 <= j < n ==> init[j] == values[j];
    if StoreEach(init, step).Err? {
      StoreEachFirstError(init, step);
      var i :| 0 <= i < |init| && step(init[i]).Err? && (forall j :: 0 <= j < i ==> step(init[j]).Ok?)
               && StoreEach(init, step).error == step(init[i]).error;
      assert step(values[i]).Err?;
    } else {
      assert step(values[n]).Err?;
    }
  }

  /** Every stored pair is the name and step result of some entry. */
  lemma {:induction false} StoreEachStored<E>(values: seq<(string, E)>, step: ((string, E)) -> Result<int>)
    requires StoreEach(values, step).Ok?
    ensures var r := StoreEach(values, step).value;
      forall k :: 0 <= k < |r| ==> exists j :: 0 <= j < |values| && step(values[j]).Ok? && r[k] == (values[j].0, step(values[j]).value)
  {
    if |values| > 0 {
      var n := |values| - 1;
      var init := values[..n];
      StoreEachSnoc(values, step);
      StoreEachStored(init, step);
      var prev := StoreEach(init, step).value;
      var key := values[n].0;
      var r := StoreEach(values, step).value;
      forall k | 0 <= k < |r|
        ensures exists j :: 0 <= j < |values| && step(values[j]).Ok? && r[k] == (values[j].0, step(values[j]).value)
      {
        GetAt(r, k);
        if r[k].0 == key {
          assert r[k] == (values[n].0, step(values[n]).value);
        } else {
          var p := IndexOf(prev, r[k].0);
          GetAt(prev, p);
          assert prev[p] == r[k];
          var j :| 0 <= j < |init| && step(init[j]).Ok? && prev[p] == (init[j].0, step(init[j]).value);
          assert values[j] == init[j];
          assert 0 <= j < |values| && step(values[j]).Ok? && r[k] == (values[j].0, step(values[j]).value);
        }
      }
    }
  }

  /** No later entry has the same name as entry `i`. */
  predicate LastKey<E>(values: seq<(string, E)>, i: int)
    requires 0 <= i < |values|
  {
    forall j :: i < j < |values| ==> values[j].0 != values[i].0
  }

  /** Each name holds the step result of its last entry. */
  lemma {:induction false} StoreEachGet<E>(values: seq<(string, E)>, step: ((string, E)) -> Result<int>, i: int)
    requires StoreEach(values, step).Ok?
    requires 0 <= i < |values| && LastKey(values, i)
    ensures step(values[i]).Ok?
    ensures Get(StoreEach(values, step).value, values[i].0) == Some(step(values[i]).value)
  {
    var n := |values| - 1;
    var init := values[..n];
    StoreEachSnoc(values, step);
    var prev := StoreEach(init, step).value;
    if i < n {
      assert LastKey(init, i) && init[i] == values[i] by {
        assert forall k :: 0 <= k < n ==> init[k] == values[k];
      }
      StoreEachGet(init, step, i);
      GetAfterPut(prev, values[n].0, step(values[n]).value, values[i].0, step(values[i]).value);
    } else {
      GetAfterPut(prev, values[n].0, step(values[n]).value, values[n].0, step(values[n]).value);
    }
  }

  /** A completed loop is the loop over all but the last entry, then the last assignment. */
  lemma StoreEachSnoc<E>(values: seq<(string, E)>, step: ((string, E)) -> Result<int>)
    requires StoreEach(values, step).Ok? && |values| > 0
    ensures StoreEach(values[..|values| - 1], step).Ok? && step(values[|values| - 1]).Ok?
    ensures StoreEach(values, step).value
         == Put(StoreEach(values[..|values| - 1], step).value, values[|values| - 1].0, step(values[|values| - 1]).value)
  {
    var n := |values| - 1;
    assert forall k :: 0 <= k < n ==> values[..n][k] == values[k];
  }

  /** Reading a key after assigning one. */
  lemma GetAfterPut<V>(d: Dict<V>, k: string, v: V, key: string, want: V)
    requires key == k ==> v == want
    requires key != k ==> Get(d, key) == Some(want)
    ensures Get(Put(d, k, v), key) == Some(want)
  {
  }

  /** The stored values of the accepted entries. */
  function StoreValues(registry: Registry, values: seq<(string, RawValue)>): (r: Result<Dict<int>>)
    ensures r.Ok? <==> AllAcceptable(registry, values)
    ensures r.Ok? ==> Keys(r.value) == Keys(values)
  {
    var step := entry => EntryValue(registry, entry);
    var r := StoreEach(values, step);
    assert r.Ok? <==> AllAcceptable(registry, values) by {
      assert forall i :: 0 <= i < |values| ==> (EntryValue(registry, values[i]).Ok? <==> Acceptable(registry, values[i]));
    }
    if r.Ok? then StoreEachKeys(values, step); r else r
  }

  /** Building stops at the first entry that is not acceptable, with the
      error that entry raises. */
  lemma StoreValuesFirstError(registry: Registry, values: seq<(string, RawValue)>)
    requires StoreValues(registry, values).Err?
    ensures exists i :: FirstRejected(registry, values, i) && StoreValues(registry, values).error == EntryError(registry, values[i])
  {
    var step := entry => EntryValue(registry, entry);
    StoreEachFirstError(values, step);
    var i :| 0 <= i < |values| && step(values[i]).Err? && (forall j :: 0 <= j < i ==> step(values[j]).Ok?)
             && StoreEach(values, step).error == step(values[i]).error;
    assert FirstRejected(registry, values, i);
  }

  /** `Config(values)`. */
  function NewConfig(registry: Registry, values: Dict<RawValue>): (r: Result<Config>)
    ensures r.Ok? <==> AllAcceptable(registry, values)
    ensures r.Err? ==> exists i :: FirstRejected(registry, values, i) && r.error == EntryError(registry, values[i])
    ensures r.Ok? ==> Keys(r.value.values) == Keys(values)
  {
    var result := StoreValues(registry, values);
    assert result.Err? ==> exists i :: FirstRejected(registry, values, i) && result.error == EntryError(registry, values[i]) by {
      if result.Err? { StoreValuesFirstError(registry, values); }
    }
    var stored :- result;
    Ok(Config(stored))
  }

  /** A configuration that was built successfully is valid. */
  lemma StoreValuesValid(registry: Registry, values: seq<(string, RawValue)>)
    requires StoreValues(registry, values).Ok?
    ensures ConfigValid(registry, Config(StoreValues(registry, values).value))
  {
    var step := entry => EntryValue(registry, entry);
    StoreEachStored(values, step);
    var r := StoreValues(registry, values).value;
    forall k | 0 <= k < |r|
      ensures LookupOption(registry, r[k].0).Some? && LookupOption(registry, r[k].0).value.validate(r[k].1)
    {
      var j :| 0 <= j < |values| && step(values[j]).Ok? && r[k] == (values[j].0, step(values[j]).value);
      assert Acceptable(registry, values[j]);
    }
  }

  /** Each name stores the parsed value of its last entry. */
  lemma StoreValuesGet(registry: Registry, values: seq<(string, RawValue)>, i: int)
    requires StoreValues(registry, values).Ok?
    requires 0 <= i < |values| && LastKey(values, i)
    ensures ParseValue(values[i].1).Ok?
    ensures Get(StoreValues(registry, values).value, values[i].0) == Some(ParseValue(values[i].1).value)
  {
    var step := entry => EntryValue(registry, entry);
    StoreEachGet(values, step, i);
    assert Acceptable(registry, values[i]);
  }

  /** A successfully built configuration is valid and holds each entry's
      parsed value under its name. */
  lemma NewConfigValid(registry: Registry, values: Dict<RawValue>)
    requires NewConfig(registry, values).Ok?
    ensures ConfigValid(registry, NewConfig(registry, values).value)
    ensures forall i :: 0 <= i < |values| ==> Get(NewConfig(registry, values).value.values, values[i].0) == Some(ParseValue(values[i].1).value)
  {
    StoreValuesValid(registry, values);
    forall i | 0 <= i < |values| ensures Get(NewConfig(registry, values).value.values, values[i].0) == Some(ParseValue(values[i].1).value) {
      StoreValuesGet(registry, values, i);
    }
  }

  // ---------------------------------------------------------------------
  // Lookup

  /** `config.get` accepts an option or its name. */
  datatype OptionRef = ByOption(option: ConfigOption) | ByName(name: string)

  function RefName(ref: OptionRef): string {
    match ref
    case ByOption(o) => o.name
    case ByName(n) => n
  }

  /** The `default` argument of `config.get`: left out (the
      `_USE_GLOBAL_DEFAULT` sentinel), or passed by the caller, where
      `Given(None)` is an explicit Python `None`. */
  datatype CallerDefault = GlobalDefault | Given(value: Option<int>)

  /** `config.get(option, default)`. The answer is `None` only when the
      caller passed `None` for an unset option. A name that is neither set
      nor registered is a KeyError when no default is given. */
  function GetValue(registry: Registry, c: Config, ref: OptionRef, default: CallerDefault): (r: Result<Option<int>>)
    ensures var name := RefName(ref);
      && (name in Keys(c.values) ==> r == Ok(Some(Get(c.values, name).value)))
      && (name !in Keys(c.values) && default.Given? ==> r == Ok(default.value))
      && (name !in Keys(c.values) && default.GlobalDefault? && LookupOption(registry, name).Some? ==> r == Ok(Some(LookupOption(registry, name).value.default)))
      && (name !in Keys(c.values) && default.GlobalDefault? && LookupOption(registry, name).None? ==> r == Err(MissingKey(name)))
  {
    var name := RefName(ref);
    var stored := Get(c.values, name);
    if stored.Some? then Ok(Some(stored.value))
    else if default.Given? then Ok(default.value)
    else if LookupOption(registry, name).Some? then Ok(Some(LookupOption(registry, name).value.default))
    else Err(MissingKey(name))
  }

  /** Looking an option up by the option or by its name gives the same answer. */
  lemma GetByOptionOrName(registry: Registry, c: Config, o: ConfigOption, default: CallerDefault)
    ensures GetValue(registry, c, ByOption(o), default) == GetValue(registry, c, ByName(o.name), default)
  {
  }

  /** A value read from a validly built configuration satisfies its option's
      validator, unless it is the caller's own default. */
  lemma GetValueIsValid(registry: Registry, c: Config, name: string)
    requires ConfigValid(registry, c)
    requires LookupOption(registry, name).Some?
    requires LookupOption(registry, name).value.validate(LookupOption(registry, name).value.default)
    ensures GetValue(registry, c, ByName(name), GlobalDefault).Ok?
    ensures GetValue(registry, c, ByName(name), GlobalDefault).value.Some?
    ensures LookupOption(registry, name).value.validate(GetValue(registry, c, ByName(name), GlobalDefault).value.value)
  {
    var i := IndexOf(c.values, name);
    if i >= 0 {
      GetAt(c.values, i);
      assert LookupOption(registry, c.values[i].0).value.validate(c.values[i].1);
    }
  }

  /** With the gpos mode set to 8, every lookup gives 8, by name or by
      option, with or without a caller default. */
  lemma ConfigSetToEight()
    ensures var c := NewConfig(Options, [(GposModeName, IntValue(8))]);
      && c.Ok?
      && GetValue(Options, c.value, ByName(GposModeName), GlobalDefault) == Ok(Some(8))
      && GetValue(Options, c.value, ByOption(GposMode), GlobalDefault) == Ok(Some(8))
      && GetValue(Options, c.value, ByOption(GposMode), Given(Some(3))) == Ok(Some(8))
      && GetValue(Options, c.value, ByOption(GposMode), Given(None)) == Ok(Some(8))
  {
    OptionsHoldGposMode(GposModeName);
    var values: Dict<RawValue> := [(GposModeName, IntValue(8))];
    assert Acceptable(Options, values[0]);
    NewConfigValid(Options, values);
  }

  /** Without a configured value, a lookup gives the caller's default, even
      an explicit `None`, else 0. */
  lemma ConfigUnsetUsesDefaults()
    ensures GetValue(Options, Config([]), ByName(GposModeName), GlobalDefault) == Ok(Some(0))
    ensures GetValue(Options, Config([]), ByName(GposModeName), Given(Some(3))) == Ok(Some(3))
    ensures GetValue(Options, Config([]), ByName(GposModeName), Given(None)) == Ok(None)
  {
    OptionsHoldGposMode(GposModeName);
  }

  /** An unregistered name is a KeyError. */
  lemma ConfigRejectsUnknownName()
    ensures NewConfig(Options, [("notALib.notAModule.inexistent", IntValue(4))]) == Err(MissingKey("notALib.notAModule.inexistent"))
  {
    OptionsHoldGposMode("notALib.notAModule.inexistent");
    var values: Dict<RawValue> := [("notALib.notAModule.inexistent", IntValue(4))];
    assert LookupOption(Options, values[0].0).None?;
    assert !Acceptable(Options, values[0]);
  }

  /** The string "8" is parsed to 8 before it is stored. */
  lemma ConfigParsesString()
    ensures var c := NewConfig(Options, [(GposModeName, StrValue("8"))]);
      c.Ok? && GetValue(Options, c.value, ByName(GposModeName), GlobalDefault) == Ok(Some(8))
  {
    ParseUnsigned("8");
    assert DigitsValue("8") == 8 by {
      assert "8"[..0] == [];
    }
    OptionsHoldGposMode(GposModeName);
    var values: Dict<RawValue> := [(GposModeName, StrValue("8"))];
    assert Acceptable(Options, values[0]);
    NewConfigValid(Options, values);
  }

  /** 12 is not a valid gpos mode: a ValueError. */
  lemma ConfigRejectsTwelve()
    ensures NewConfig(Options, [(GposModeName, IntValue(12))]) == Err(InvalidValue)
  {
    OptionsHoldGposMode(GposModeName);
    var values: Dict<RawValue> := [(GposModeName, IntValue(12))];
    assert !Acceptable(Options, values[0]);
  }
}
