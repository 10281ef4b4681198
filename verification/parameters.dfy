/** Game-parameter bookkeeping of agrf/parameters/parameters.py: enum reverse
    lookup, parameter limits and variable references, the parameter list and
    its preset extension, and the search space of parameter variations. */
module Parameters {
  import opened Wrappers

  // ---------------------------------------------------------------------------
  // Enums and `ParameterReverseLookup`

  /** An enum: a Python dict from setting values to names, as its items in
      insertion order. */
  type Enum = seq<(int, string)>

  /** A dict never repeats a key. */
  predicate KeysDistinct(e: Enum)
  {
    forall i, j | 0 <= i < j < |e| :: e[i].0 != e[j].0
  }

  /** No two settings share a name. */
  predicate NamesDistinct(e: Enum)
  {
    forall i, j | 0 <= i < j < |e| :: e[i].1 != e[j].1
  }

  /** Some setting is called `name`. */
  predicate HasName(e: Enum, name: string)
  {
    exists i | 0 <= i < |e| :: e[i].1 == name
  }

  /** The item at `i` is the last one called `e[i].1`. */
  predicate LastNamed(e: Enum, i: nat)
    requires i < |e|
  {
    forall j | i < j < |e| :: e[j].1 != e[i].1
  }

  /** `reverse_lookup`, the dict `{v: k for k, v in enum.items()}`: it holds
      every setting name (and, by `ReverseLookupLast`, the value of the last
      setting of each name). */
  function ReverseLookup(e: Enum): (m: map<string, int>)
    ensures forall v :: v in m <==> HasName(e, v)
  {
    if e == [] then map[]
    else
      HasNameSnoc(e);
      ReverseLookup(e[..|e| - 1])[e[|e| - 1].1 := e[|e| - 1].0]
  }

  /** Of several settings with one name, the last one wins. */
  lemma {:induction false} ReverseLookupLast(e: Enum, v: string)
    requires v in ReverseLookup(e)
    ensures exists i | 0 <= i < |e| :: e[i] == (ReverseLookup(e)[v], v) && LastNamed(e, i)
  {
    var init := e[..|e| - 1];
    if v == e[|e| - 1].1 {
      assert e[|e| - 1] == (ReverseLookup(e)[v], v) && LastNamed(e, |e| - 1);
    } else {
      ReverseLookupLast(init, v);
      var i :| 0 <= i < |init| && init[i] == (ReverseLookup(init)[v], v) && LastNamed(init, i);
      assert e[i] == (ReverseLookup(e)[v], v) && LastNamed(e, i);
    }
  }

  lemma HasNameSnoc(e: Enum)
    requires e != []
    ensures forall v :: HasName(e, v) <==> HasName(e[..|e| - 1], v) || v == e[|e| - 1].1
  {
    var init := e[..|e| - 1];
    forall v | HasName(e, v) ensures HasName(init, v) || v == e[|e| - 1].1 {
      var i :| 0 <= i < |e| && e[i].1 == v;
      if i < |e| - 1 {
        assert init[i].1 == v;
      }
    }
    forall v | HasName(init, v) ensures HasName(e, v) {
      var i :| 0 <= i < |init| && init[i].1 == v;
      assert e[i].1 == v;
    }
  }

  /** The name of the setting with value `k`, as `enum[k]` reads it. */
  function EnumName(e: Enum, k: int): (r: Option<string>)
    ensures r.Some? <==> exists i | 0 <= i < |e| :: e[i].0 == k
    ensures r.Some? ==> exists i | 0 <= i < |e| :: e[i] == (k, r.value)
  {
    if e == [] then None
    else if e[0].0 == k then Some(e[0].1)
    else
      var r := EnumName(e[1..], k);
      assert forall i | 0 <= i < |e| - 1 :: e[1..][i] == e[i + 1];
      r
  }

  /** `enum_index`: the setting value of a name.  A parameter without an enum
      has no reverse table (an AttributeError); an unknown name is a KeyError. */
  function EnumIndex(enum: Option<Enum>, name: string): (r: Result<int>)
    ensures enum.None? ==> r == Err(AttributeError)
    ensures enum.Some? ==> (r.Err? <==> !HasName(enum.value, name))
    ensures enum.Some? && r.Err? ==> r.error == KeyError
    ensures r.Ok? ==> exists i | 0 <= i < |enum.value| :: enum.value[i] == (r.value, name)
  {
    if enum.None? then Err(AttributeError)
    else
      var rev := ReverseLookup(enum.value);
      if name in rev then ReverseLookupLast(enum.value, name); Ok(rev[name]) else Err(KeyError)
  }

  /** `enum[enum_index(v)] == v`: the reverse lookup inverts the enum. */
  lemma EnumIndexInverse(e: Enum, name: string)
    requires KeysDistinct(e) && HasName(e, name)
    ensures EnumIndex(Some(e), name).Ok?
    ensures EnumName(e, EnumIndex(Some(e), name).value) == Some(name)
  {
    var k := EnumIndex(Some(e), name).value;
    var i :| 0 <= i < |e| && e[i] == (k, name);
    var j :| 0 <= j < |e| && e[j] == (k, EnumName(e, k).value);
    assert i == j;
  }

  /** With distinct names, `enum_index` of a setting's name is its value. */
  lemma EnumIndexOfSetting(e: Enum, i: nat)
    requires NamesDistinct(e) && i < |e|
    ensures EnumIndex(Some(e), e[i].1) == Ok(e[i].0)
  {
    assert HasName(e, e[i].1);
    var k := EnumIndex(Some(e), e[i].1).value;
    var j :| 0 <= j < |e| && e[j] == (k, e[i].1);
    assert i == j;
  }

  /** With a repeated name the later setting wins. */
  lemma EnumIndexLastWins()
    ensures EnumIndex(Some([(0, "a"), (1, "a")]), "a") == Ok(1)
  {
    var e: Enum := [(0, "a"), (1, "a")];
    assert HasName(e, "a") by { assert e[0].1 == "a"; }
    ReverseLookupLast(e, "a");
    var k := ReverseLookup(e)["a"];
    var i :| 0 <= i < |e| && e[i] == (k, "a") && LastNamed(e, i);
    assert i == 1;
  }

  // ---------------------------------------------------------------------------
  // `Parameter`

  /** A bit field of a GRF parameter: `grf_parameter`, `first_bit`, `num_bit`. */
  datatype Mapping = Mapping(grfParameter: int, firstBit: int, numBit: nat)

  /** `Parameter`: its position in the parameter list is set once it is listed. */
  datatype Parameter = Parameter(
    name: string,
    default: int,
    enum: Option<Enum>,
    limits: Option<(int, int)>,
    mapping: Option<Mapping>,
    optionName: string,
    index: Option<int>)

  /** `Parameter(...)`: an absent or empty option name falls back to the name. */
  function NewParameter(name: string, default: int, enum: Option<Enum>, limits: Option<(int, int)>,
                        mapping: Option<Mapping>, optionName: Option<string>): (p: Parameter)
    ensures p.name == name && p.default == default && p.enum == enum && p.limits == limits && p.mapping == mapping
    ensures p.index.None?
    ensures optionName.Some? && optionName.value != "" ==> p.optionName == optionName.value
    ensures optionName.None? || optionName.value == "" ==> p.optionName == name
  {
    Parameter(name, default, enum, limits, mapping,
      if optionName.Some? && optionName.value != "" then optionName.value else name, None)
  }

  /** The smallest setting value. */
  function MinKey(e: Enum): (k: int)
    requires e != []
    ensures exists i | 0 <= i < |e| :: e[i].0 == k
    ensures forall i | 0 <= i < |e| :: k <= e[i].0
  {
    if |e| == 1 then e[0].0
    else
      var k := MinKey(e[1..]);
      assert forall i | 1 <= i < |e| :: e[i] == e[1..][i - 1];
      if e[0].0 <= k then e[0].0 else k
  }

  /** The largest setting value. */
  function MaxKey(e: Enum): (k: int)
    requires e != []
    ensures exists i | 0 <= i < |e| :: e[i].0 == k
    ensures forall i | 0 <= i < |e| :: e[i].0 <= k
  {
    if |e| == 1 then e[0].0
    else
      var k := MaxKey(e[1..]);
      assert forall i | 1 <= i < |e| :: e[i] == e[1..][i - 1];
      if e[0].0 >= k then e[0].0 else k
  }

  /** `min_value`: fails without an enum and on an empty one. */
  function MinValue(p: Parameter): (r: Result<int>)
    ensures p.enum.None? <==> r == Err(AttributeError)
    ensures p.enum.Some? && p.enum.value == [] <==> r == Err(ValueError)
    ensures r.Ok? ==> forall i | 0 <= i < |p.enum.value| :: r.value <= p.enum.value[i].0
  {
    if p.enum.None? then Err(AttributeError)
    else if p.enum.value == [] then Err(ValueError)
    else Ok(MinKey(p.enum.value))
  }

  /** `max_value`. */
  function MaxValue(p: Parameter): (r: Result<int>)
    ensures p.enum.None? <==> r == Err(AttributeError)
    ensures p.enum.Some? && p.enum.value == [] <==> r == Err(ValueError)
    ensures r.Ok? ==> forall i | 0 <= i < |p.enum.value| :: p.enum.value[i].0 <= r.value
  {
    if p.enum.None? then Err(AttributeError)
    else if p.enum.value == [] then Err(ValueError)
    else Ok(MaxKey(p.enum.value))
  }

  /** `limits`: the given limits without an enum, otherwise the least and
      greatest setting values. */
  function Limits(p: Parameter): (r: Result<Option<(int, int)>>)
    ensures p.enum.None? ==> r == Ok(p.limits)
    ensures p.enum.Some? && p.enum.value == [] ==> r == Err(ValueError)
    ensures p.enum.Some? && r.Ok? ==> (r.value.Some? &&
      (exists i | 0 <= i < |p.enum.value| :: p.enum.value[i].0 == r.value.value.0) &&
      (exists i | 0 <= i < |p.enum.value| :: p.enum.value[i].0 == r.value.value.1) &&
      forall i | 0 <= i < |p.enum.value| :: r.value.value.0 <= p.enum.value[i].0 <= r.value.value.1)
  {
    if p.enum.None? then Ok(p.limits)
    else if p.enum.value == [] then Err(ValueError)
    else Ok(Some((MinKey(p.enum.value), MaxKey(p.enum.value))))
  }

  /** `range`: the half-open range of setting values. */
  function Range(p: Parameter): (r: Result<(int, int)>)
    ensures p.enum.None? ==> r == Err(AttributeError)
    ensures r.Ok? ==> r.value.0 < r.value.1
    ensures r.Ok? ==> forall i | 0 <= i < |p.enum.value| :: r.value.0 <= p.enum.value[i].0 < r.value.1
  {
    if p.enum.None? then Err(AttributeError)
    else if p.enum.value == [] then Err(ValueError)
    else Ok((MinKey(p.enum.value), MaxKey(p.enum.value) + 1))
  }

  /** With an enum, the range is the limits with the upper end made exclusive. */
  lemma RangeExtendsLimits(p: Parameter)
    requires p.enum.Some?
    ensures Range(p).Ok? <==> MinValue(p).Ok? && MaxValue(p).Ok?
    ensures Range(p).Ok? ==> Range(p).value == (MinValue(p).value, MaxValue(p).value + 1)
    ensures Range(p).Ok? <==> Limits(p).Ok?
    ensures Range(p).Ok? ==> Range(p).value == (Limits(p).value.value.0, Limits(p).value.value.1 + 1)
  {
  }

  function Pow2(n: nat): (r: nat)
    ensures r >= 1
  {
    if n == 0 then 1 else 2 * Pow2(n - 1)
  }

  lemma {:induction false} Pow2Add(a: nat, b: nat)
    ensures Pow2(a + b) == Pow2(a) * Pow2(b)
    decreases a
  {
    if a > 0 {
      Pow2Add(a - 1, b);
    }
  }

  lemma Pow2Of32()
    ensures Pow2(32) == 0x1_0000_0000
  {
    assert Pow2(8) == 256;
    Pow2Add(8, 8);
    Pow2Add(16, 16);
  }

  /** `code`: the NML variable a parameter reads, as its three arguments. */
  datatype Code = Var(param: int, shift: int, mask: int)

  /** `code`: a plain parameter reads all 32 bits of its own GRF parameter; a
      mapped one reads its bit field.  A parameter that was never listed has
      no index (an AttributeError). */
  function ParamCode(p: Parameter): (r: Result<Code>)
    ensures p.mapping.None? ==> (r.Ok? <==> p.index.Some?)
    ensures p.mapping.None? && r.Ok? ==> r.value == Var(p.index.value, 0, Pow2(32) - 1)
    ensures p.mapping.Some? ==> (r.Ok? && r.value.param == p.mapping.value.grfParameter
      && r.value.shift == p.mapping.value.firstBit && r.value.mask + 1 == Pow2(p.mapping.value.numBit))
  {
    Pow2Of32();
    if p.mapping.None? then
      if p.index.None? then Err(AttributeError) else Ok(Var(p.index.value, 0, 0xffff_ffff))
    else
      var m := p.mapping.value;
      Ok(Var(m.grfParameter, m.firstBit, Pow2(m.numBit) - 1))
  }

  /** A listed plain parameter reads exactly what a 32-bit field at bit 0 of
      its own GRF parameter reads. */
  lemma PlainCodeIsFullField(p: Parameter)
    requires p.mapping.None? && p.index.Some?
    ensures ParamCode(p) == ParamCode(p.(mapping := Some(Mapping(p.index.value, 0, 32))))
  {
  }

  // ---------------------------------------------------------------------------
  // `ParameterList`

  /** `ParameterList(parameters)`: every parameter learns its position. */
  function ListParameters(ps: seq<Parameter>): (r: seq<Parameter>)
    ensures |r| == |ps|
    ensures forall i | 0 <= i < |ps| :: r[i].index == Some(i) && r[i].(index := ps[i].index) == ps[i]
  {
    seq(|ps|, i requires 0 <= i < |ps| => ps[i].(index := Some(i)))
  }

  /** The position of the first parameter called `name` from `from` on. */
  function FirstNamed(ps: seq<Parameter>, name: string, from: nat): (r: Option<nat>)
    requires from <= |ps|
    ensures r.Some? ==> from <= r.value < |ps| && ps[r.value].name == name
    ensures r.Some? ==> forall j | from <= j < r.value :: ps[j].name != name
    ensures r.None? <==> forall j | from <= j < |ps| :: ps[j].name != name
    decreases |ps| - from
  {
    if from == |ps| then None
    else if ps[from].name == name then Some(from)
    else FirstNamed(ps, name, from + 1)
  }

  /** `__getitem__`: the first parameter called `name`; none is an IndexError. */
  function GetItem(ps: seq<Parameter>, name: string): (r: Result<Parameter>)
    ensures r.Err? <==> forall j | 0 <= j < |ps| :: ps[j].name != name
    ensures r.Err? ==> r.error == IndexError
    ensures r.Ok? ==> r.value.name == name && r.value in ps
  {
    var f := FirstNamed(ps, name, 0);
    if f.None? then Err(IndexError) else Ok(ps[f.value])
  }

  /** `index`: the recorded position of the first parameter called `name`. */
  function Index(ps: seq<Parameter>, name: string): (r: Result<int>)
    ensures GetItem(ps, name).Err? ==> r == Err(IndexError)
  {
    var p :- GetItem(ps, name);
    if p.index.None? then Err(AttributeError) else Ok(p.index.value)
  }

  /** `parameter_by_id`: Python list indexing, negative positions counting
      from the end. */
  function ParameterById(ps: seq<Parameter>, i: int): (r: Result<Parameter>)
    ensures r.Ok? <==> -|ps| <= i < |ps|
    ensures r.Err? ==> r.error == IndexError
    ensures 0 <= i < |ps| ==> r == Ok(ps[i])
    ensures -|ps| <= i < 0 ==> r == Ok(ps[|ps| + i])
  {
    if 0 <= i < |ps| then Ok(ps[i])
    else if -|ps| <= i < 0 then Ok(ps[|ps| + i])
    else Err(IndexError)
  }

  /** In a listed parameter list, `index(name)` is the position of the first
      parameter called `name`, and `parameter_by_id` of it gives that
      parameter back. */
  lemma IndexRoundTrip(ps: seq<Parameter>, name: string)
    ensures var pl := ListParameters(ps);
      && (Index(pl, name).Ok? <==> exists j | 0 <= j < |ps| :: ps[j].name == name)
      && (Index(pl, name).Ok? ==>
            var i := Index(pl, name).value;
            0 <= i < |ps| && ps[i].name == name && (forall j | 0 <= j < i :: ps[j].name != name)
            && ParameterById(pl, i) == GetItem(pl, name))
  {
    var pl := ListParameters(ps);
    var f := FirstNamed(pl, name, 0);
    if f.Some? {
      assert pl[f.value].index == Some(f.value);
      forall j | 0 <= j < f.value ensures ps[j].name != name {
        assert pl[j].name == ps[j].name;
      }
    } else {
      forall j | 0 <= j < |ps| ensures ps[j].name != name {
        assert pl[j].name == ps[j].name;
      }
    }
  }

  // ---------------------------------------------------------------------------
  // `ParameterListWithPreset`

  /** A preset: its name and the setting name it picks for each parameter. */
  type Preset = (string, seq<(string, string)>)

  /** A preset names parameter `k`. */
  predicate Names_(pr: Preset, k: string)
  {
    exists j | 0 <= j < |pr.1| :: pr.1[j].0 == k
  }

  /** The preset parameters, in the order the presets and their keys list them. */
  function PresetKeys(presets: seq<Preset>): (r: seq<string>)
    ensures forall k :: k in r <==> exists i | 0 <= i < |presets| :: Names_(presets[i], k)
  {
    if presets == [] then []
    else
      var init := presets[..|presets| - 1];
      var last := presets[|presets| - 1];
      var tail := seq(|last.1|, j requires 0 <= j < |last.1| => last.1[j].0);
      assert forall k :: k in tail <==> Names_(last, k) by {
        forall k | Names_(last, k) ensures k in tail {
          var j :| 0 <= j < |last.1| && last.1[j].0 == k;
          assert tail[j] == k;
        }
      }
      assert forall i | 0 <= i < |init| :: init[i] == presets[i];
      PresetKeys(init) + tail
  }

  /** The distinct elements of `s` in first-encounter order. */
  function FirstOccurrences(s: seq<string>): (r: seq<string>)
    ensures forall i | 0 <= i < |r| :: r[i] in s
    ensures forall i, j | 0 <= i < j < |r| :: r[i] != r[j]
  {
    if s == [] then []
    else
      var init := FirstOccurrences(s[..|s| - 1]);
      assert forall i | 0 <= i < |init| :: init[i] in s by {
        forall i | 0 <= i < |init| ensures init[i] in s {
          var k :| 0 <= k < |s| - 1 && s[..|s| - 1][k] == init[i];
          assert s[k] == init[i];
        }
      }
      if s[|s| - 1] in s[..|s| - 1] then init else init + [s[|s| - 1]]
  }

  /** Every element of `s` is among its first occurrences. */
  lemma {:induction false} FirstOccurrencesCovers(s: seq<string>, x: string)
    requires x in s
    ensures x in FirstOccurrences(s)
  {
    var init := s[..|s| - 1];
    if x in init {
      FirstOccurrencesCovers(init, x);
    } else {
      assert s == init + [s[|s| - 1]];
    }
  }

  /** The settings of an enum other than those called `name`, in order. */
  function Without(e: Enum, name: string): (r: Enum)
    ensures !HasName(r, name)
    ensures forall i | 0 <= i < |r| :: r[i] in e && r[i].1 != name
  {
    if e == [] then []
    else
      var rest := Without(e[1..], name);
      assert forall i | 0 <= i < |rest| :: rest[i] in e by {
        forall i | 0 <= i < |rest| ensures rest[i] in e {
          var k :| 0 <= k < |e| - 1 && e[1..][k] == rest[i];
          assert e[k + 1] == rest[i];
        }
      }
      if e[0].1 == name then rest else [e[0]] + rest
  }

  /** Every setting not called `name` survives `Without`. */
  lemma {:induction false} WithoutKeeps(e: Enum, name: string, x: (int, string))
    requires x in e && x.1 != name
    ensures x in Without(e, name)
  {
    if x != e[0] {
      assert x in e[1..];
      WithoutKeeps(e[1..], name, x);
    }
  }

  /** A parameter list with presets: the plain list, the presets, the position
      of the preset parameter, for each preset-controlled parameter its
      allocated id and the value of the preset setting, and for each allocated
      id the reverse table of its settings without the preset setting. */
  datatype PresetList = PresetList(
    parameters: seq<Parameter>,
    presets: seq<Preset>,
    presetParamId: int,
    withPreset: map<string, (int, int)>,
    presetTables: map<int, Enum>)

  /** The entry of preset parameter `key`: the value of its preset setting
      and the reverse table of its other settings. */
  function PresetEntry(ps: seq<Parameter>, key: string, presetEnumName: string): (r: Result<(int, Enum)>)
    ensures r.Ok? ==> !HasName(r.value.1, presetEnumName)
  {
    var p :- GetItem(ps, key);
    var presetValue :- EnumIndex(p.enum, presetEnumName);
    Ok((presetValue, Without(p.enum.value, presetEnumName)))
  }

  /** A preset entry exists when the parameter is listed and its enum has
      the preset setting; it pairs that setting's value with the other
      settings, every one of which it keeps. */
  lemma PresetEntryFacts(ps: seq<Parameter>, key: string, presetEnumName: string)
    ensures var r := PresetEntry(ps, key, presetEnumName);
      && (r.Ok? <==> (exists j | 0 <= j < |ps| :: ps[j].name == key)
                     && GetItem(ps, key).value.enum.Some? && HasName(GetItem(ps, key).value.enum.value, presetEnumName))
      && (r.Ok? ==> GetItem(ps, key).value.name == key
                    && EnumIndex(GetItem(ps, key).value.enum, presetEnumName) == Ok(r.value.0)
                    && forall x | x in GetItem(ps, key).value.enum.value && x.1 != presetEnumName :: x in r.value.1)
  {
    var r := PresetEntry(ps, key, presetEnumName);
    if r.Ok? {
      var e := GetItem(ps, key).value.enum.value;
      forall x | x in e && x.1 != presetEnumName ensures x in r.value.1 {
        WithoutKeeps(e, presetEnumName, x);
      }
    }
  }

  /** The allocation loop of `ParameterListWithPreset.__init__` from key `i`
      on, with `id` the next free id and `entryOf` the entry of each key. */
  function Allocate<T>(entryOf: string -> Result<(int, T)>, keys: seq<string>, i: nat, id: int,
                       withPreset: map<string, (int, int)>, tables: map<int, T>): (r: Result<(map<string, (int, int)>, map<int, T>)>)
    requires i <= |keys|
    ensures r.Err? ==> exists j | i <= j < |keys| :: entryOf(keys[j]) == Err(r.error)
    decreases |keys| - i
  {
    if i == |keys| then Ok((withPreset, tables))
    else if keys[i] in withPreset then Allocate(entryOf, keys, i + 1, id, withPreset, tables)
    else
      var entry :- entryOf(keys[i]);
      Allocate(entryOf, keys, i + 1, id + 1, withPreset[keys[i] := (id, entry.0)], tables[id := entry.1])
  }

  /** `ParameterListWithPreset(parameters, presets, start_id, preset_param_name,
      preset_enum_name)`. */
  function NewPresetList(parameters: seq<Parameter>, presets: seq<Preset>, startId: int,
                         presetParamName: string, presetEnumName: string): (r: Result<PresetList>)
    ensures r.Ok? ==> r.value.parameters == ListParameters(parameters) && r.value.presets == presets
    ensures r.Ok? ==> Index(ListParameters(parameters), presetParamName) == Ok(r.value.presetParamId)
  {
    var ps := ListParameters(parameters);
    var presetParamId :- Index(ps, presetParamName);
    var alloc :- Allocate(k => PresetEntry(ps, k, presetEnumName), PresetKeys(presets), 0, startId, map[], map[]);
    Ok(PresetList(ps, presets, presetParamId, alloc.0, alloc.1))
  }

  /** Parameter `key` holds preset id `id`: its entry records `id` and the
      value of its preset setting, and `id` holds its table. */
  ghost predicate Slot<T>(entryOf: string -> Result<(int, T)>, withPreset: map<string, (int, int)>,
                          tables: map<int, T>, key: string, id: int)
  {
    && key in withPreset && withPreset[key].0 == id
    && id in tables
    && entryOf(key) == Ok((withPreset[key].1, tables[id]))
  }

  /** What the allocation loop has built after the keys before `i`: the
      parameters met so far hold consecutive ids from `startId` in the order
      they were met, and no other id is taken. */
  ghost predicate Allocated<T>(entryOf: string -> Result<(int, T)>, keys: seq<string>, i: nat, id: int, startId: int,
                               withPreset: map<string, (int, int)>, tables: map<int, T>)
    requires i <= |keys|
  {
    var met := FirstOccurrences(keys[..i]);
    && id == startId + |met|
    && (forall k :: k in withPreset <==> k in keys[..i])
    && (forall t :: t in tables <==> startId <= t < id)
    && (forall j | 0 <= j < |met| :: Slot(entryOf, withPreset, tables, met[j], startId + j))
  }

  lemma FirstOccurrencesStep(keys: seq<string>, i: nat)
    requires i < |keys|
    ensures FirstOccurrences(keys[..i + 1]) ==
      FirstOccurrences(keys[..i]) + (if keys[i] in keys[..i] then [] else [keys[i]])
    ensures forall k :: k in keys[..i + 1] <==> k in keys[..i] || k == keys[i]
  {
    assert keys[..i + 1][..i] == keys[..i];
    assert keys[..i + 1] == keys[..i] + [keys[i]];
  }

  /** One round of the loop on a key not met before. */
  lemma {:induction false} AllocatedStep<T>(entryOf: string -> Result<(int, T)>, keys: seq<string>, i: nat, id: int, startId: int,
                                            withPreset: map<string, (int, int)>, tables: map<int, T>)
    requires i < |keys| && keys[i] !in withPreset
    requires Allocated(entryOf, keys, i, id, startId, withPreset, tables)
    requires entryOf(keys[i]).Ok?
    ensures var e := entryOf(keys[i]).value;
      Allocated(entryOf, keys, i + 1, id + 1, startId, withPreset[keys[i] := (id, e.0)], tables[id := e.1])
  {
    FirstOccurrencesStep(keys, i);
    var e := entryOf(keys[i]).value;
    var w', t' := withPreset[keys[i] := (id, e.0)], tables[id := e.1];
    var met := FirstOccurrences(keys[..i]);
    assert keys[i] !in keys[..i];
    var met' := met + [keys[i]];
    assert FirstOccurrences(keys[..i + 1]) == met';
    forall j | 0 <= j < |met'|
      ensures Slot(entryOf, w', t', met'[j], startId + j)
    {
      if j < |met| {
        assert met'[j] == met[j];
        assert Slot(entryOf, withPreset, tables, met[j], startId + j);
      }
    }
  }

  /** One round of the loop on a key met before. */
  lemma AllocatedSkip<T>(entryOf: string -> Result<(int, T)>, keys: seq<string>, i: nat, id: int, startId: int,
                         withPreset: map<string, (int, int)>, tables: map<int, T>)
    requires i < |keys| && keys[i] in withPreset
    requires Allocated(entryOf, keys, i, id, startId, withPreset, tables)
    ensures Allocated(entryOf, keys, i + 1, id, startId, withPreset, tables)
  {
    FirstOccurrencesStep(keys, i);
    assert keys[i] in keys[..i];
    assert FirstOccurrences(keys[..i + 1]) == FirstOccurrences(keys[..i]);
  }

  lemma {:induction false} AllocateCorrect<T>(entryOf: string -> Result<(int, T)>, keys: seq<string>, i: nat, id: int, startId: int,
                                              withPreset: map<string, (int, int)>, tables: map<int, T>)
    requires i <= |keys|
    requires Allocated(entryOf, keys, i, id, startId, withPreset, tables)
    requires Allocate(entryOf, keys, i, id, withPreset, tables).Ok?
    ensures var r := Allocate(entryOf, keys, i, id, withPreset, tables).value;
      Allocated(entryOf, keys, |keys|, startId + |FirstOccurrences(keys)|, startId, r.0, r.1)
    decreases |keys| - i
  {
    if i == |keys| {
      assert keys[..i] == keys;
    } else if keys[i] in withPreset {
      AllocatedSkip(entryOf, keys, i, id, startId, withPreset, tables);
      AllocateCorrect(entryOf, keys, i + 1, id, startId, withPreset, tables);
    } else {
      var e := entryOf(keys[i]).value;
      AllocatedStep(entryOf, keys, i, id, startId, withPreset, tables);
      AllocateCorrect(entryOf, keys, i + 1, id + 1, startId, withPreset[keys[i] := (id, e.0)], tables[id := e.1]);
    }
  }

  /** What the constructor leaves in `pl`: the preset-controlled parameters
      are exactly the keys of the presets; the k-th of them in first-encounter
      order holds id `startId + k` and its preset entry (the value of its
      preset setting and, at that id, its other settings); no other id is
      taken. */
  ghost predicate PresetsAllocated(pl: PresetList, startId: int, presetEnumName: string)
  {
    var met := FirstOccurrences(PresetKeys(pl.presets));
    && (forall k :: k in pl.withPreset <==> k in PresetKeys(pl.presets))
    && (forall t :: t in pl.presetTables <==> startId <= t < startId + |met|)
    && (forall j | 0 <= j < |met| ::
          && met[j] in pl.withPreset && pl.withPreset[met[j]].0 == startId + j
          && startId + j in pl.presetTables
          && PresetEntry(pl.parameters, met[j], presetEnumName) == Ok((pl.withPreset[met[j]].1, pl.presetTables[startId + j])))
  }

  /** The constructor allocates preset ids as `PresetsAllocated` says. */
  lemma PresetAllocation(parameters: seq<Parameter>, presets: seq<Preset>, startId: int,
                         presetParamName: string, presetEnumName: string)
    requires NewPresetList(parameters, presets, startId, presetParamName, presetEnumName).Ok?
    ensures PresetsAllocated(NewPresetList(parameters, presets, startId, presetParamName, presetEnumName).value, startId, presetEnumName)
  {
    var ps := ListParameters(parameters);
    var keys := PresetKeys(presets);
    var entryOf := k => PresetEntry(ps, k, presetEnumName);
    assert keys[..0] == [];
    AllocateCorrect(entryOf, keys, 0, startId, startId, map[], map[]);
    assert keys[..|keys|] == keys;
    var pl := NewPresetList(parameters, presets, startId, presetParamName, presetEnumName).value;
    AllocatedPresets(pl, startId, presetEnumName);
  }

  /** A finished allocation run over the preset keys of `pl` is what
      `PresetsAllocated` describes. */
  lemma AllocatedPresets(pl: PresetList, startId: int, presetEnumName: string)
    requires var keys := PresetKeys(pl.presets);
      Allocated(k => PresetEntry(pl.parameters, k, presetEnumName), keys, |keys|,
        startId + |FirstOccurrences(keys)|, startId, pl.withPreset, pl.presetTables)
    ensures PresetsAllocated(pl, startId, presetEnumName)
  {
    var keys := PresetKeys(pl.presets);
    var entryOf := k => PresetEntry(pl.parameters, k, presetEnumName);
    assert keys[..|keys|] == keys;
    var met := FirstOccurrences(keys);
    forall j | 0 <= j < |met|
      ensures PresetEntry(pl.parameters, met[j], presetEnumName) == Ok((pl.withPreset[met[j]].1, pl.presetTables[startId + j]))
    {
      assert Slot(entryOf, pl.withPreset, pl.presetTables, met[j], startId + j);
    }
  }


  /** `preset_index`: the allocated id of a preset-controlled parameter, the
      plain index of any other. */
  function PresetIndex(pl: PresetList, name: string): (r: Result<int>)
    ensures name in pl.withPreset ==> r == Ok(pl.withPreset[name].0)
    ensures name !in pl.withPreset ==> r == Index(pl.parameters, name)
  {
    if name in pl.withPreset then Ok(pl.withPreset[name].0) else Index(pl.parameters, name)
  }

  /** What `parameter_by_id` returns: a preset reverse table or a parameter. */
  datatype ById = Table(settings: Enum) | Param(parameter: Parameter)

  /** `parameter_by_id` with presets: the preset tables take precedence. */
  function PresetParameterById(pl: PresetList, i: int): (r: Result<ById>)
    ensures i in pl.presetTables ==> r == Ok(Table(pl.presetTables[i]))
    ensures i !in pl.presetTables ==> (r.Ok? <==> ParameterById(pl.parameters, i).Ok?)
    ensures i !in pl.presetTables && r.Ok? ==> r.value == Param(ParameterById(pl.parameters, i).value)
  {
    if i in pl.presetTables then Ok(Table(pl.presetTables[i]))
    else
      var p :- ParameterById(pl.parameters, i);
      Ok(Param(p))
  }

  /** In a list the constructor built, the id `preset_index` gives a
      preset-controlled parameter leads `parameter_by_id` to that parameter's
      table, which lacks the preset setting; other names keep their plain
      index. */
  lemma PresetIdRoundTrip(pl: PresetList, startId: int, presetEnumName: string, name: string)
    requires PresetsAllocated(pl, startId, presetEnumName)
    ensures name in PresetKeys(pl.presets) ==>
      && PresetIndex(pl, name).Ok?
      && PresetParameterById(pl, PresetIndex(pl, name).value).Ok?
      && PresetParameterById(pl, PresetIndex(pl, name).value).value.Table?
      && !HasName(PresetParameterById(pl, PresetIndex(pl, name).value).value.settings, presetEnumName)
    ensures name !in PresetKeys(pl.presets) ==> PresetIndex(pl, name) == Index(pl.parameters, name)
  {
    if name in PresetKeys(pl.presets) {
      var met := FirstOccurrences(PresetKeys(pl.presets));
      FirstOccurrencesCovers(PresetKeys(pl.presets), name);
      var j :| 0 <= j < |met| && met[j] == name;
      var id := startId + j;
      assert name in pl.withPreset && pl.withPreset[name].0 == id && id in pl.presetTables;
      assert PresetEntry(pl.parameters, name, presetEnumName) == Ok((pl.withPreset[name].1, pl.presetTables[id]));
      assert PresetParameterById(pl, id) == Ok(Table(pl.presetTables[id]));
    } else {
      assert name !in pl.withPreset;
    }
  }

  // ---------------------------------------------------------------------------
  // `SearchSpace`

  /** A choice: a parameter name and the values to try for it. */
  type Choice<V> = (string, seq<V>)

  /** The number of variations of the choices from `i` on. */
  function Count<V>(choices: seq<Choice<V>>, i: nat): (n: nat)
    requires i <= |choices|
    decreases |choices| - i
  {
    if i == |choices| then 1 else |choices[i].1| * Count(choices, i + 1)
  }

  /** `_iterate_variations(i, params)`: every way to extend `params` with one
      value per remaining choice, the first choice varying slowest. */
  function Iterate<V>(choices: seq<Choice<V>>, i: nat, params: map<string, V>): (r: seq<map<string, V>>)
    requires i <= |choices|
    ensures |r| == Count(choices, i)
    decreases |choices| - i, 1, 0
  {
    if i == |choices| then [params] else IterateOptions(choices, i, params, choices[i].1)
  }

  /** The loop over the values of choice `i`, from `opts` on. */
  function IterateOptions<V>(choices: seq<Choice<V>>, i: nat, params: map<string, V>, opts: seq<V>): (r: seq<map<string, V>>)
    requires i < |choices|
    ensures |r| == |opts| * Count(choices, i + 1)
    decreases |choices| - i, 0, |opts|
  {
    if opts == [] then []
    else Iterate(choices, i + 1, params[choices[i].0 := opts[0]]) + IterateOptions(choices, i, params, opts[1..])
  }

  /** `iterate_variations`. */
  function Variations<V>(choices: seq<Choice<V>>): (r: seq<map<string, V>>)
    ensures |r| == Count(choices, 0)
  {
    Iterate(choices, 0, map[])
  }

  /** The names of the choices from `i` on. */
  function Names<V>(choices: seq<Choice<V>>, i: nat): (r: set<string>)
    requires i <= |choices|
    ensures forall n :: n in r <==> exists j | i <= j < |choices| :: choices[j].0 == n
    decreases |choices| - i
  {
    if i == |choices| then {} else {choices[i].0} + Names(choices, i + 1)
  }

  /** Every variation keeps the given parameters' names and adds exactly the
      names of the remaining choices. */
  lemma {:induction false} IterateKeys<V>(choices: seq<Choice<V>>, i: nat, params: map<string, V>)
    requires i <= |choices|
    ensures forall v | v in Iterate(choices, i, params) :: v.Keys == params.Keys + Names(choices, i)
    decreases |choices| - i, 1, 0
  {
    if i < |choices| {
      IterateOptionsKeys(choices, i, params, choices[i].1);
    }
  }

  lemma {:induction false} IterateOptionsKeys<V>(choices: seq<Choice<V>>, i: nat, params: map<string, V>, opts: seq<V>)
    requires i < |choices|
    ensures forall v | v in IterateOptions(choices, i, params, opts) :: v.Keys == params.Keys + Names(choices, i)
    decreases |choices| - i, 0, |opts|
  {
    if opts != [] {
      IterateKeys(choices, i + 1, params[choices[i].0 := opts[0]]);
      IterateOptionsKeys(choices, i, params, opts[1..]);
    }
  }

  /** The first choice varies slowest: the variations from choice `i` on come
      in blocks, one per value of choice `i`, each block listing the variations
      of the later choices with that value set. */
  lemma {:induction false} IterateBlocks<V>(choices: seq<Choice<V>>, i: nat, params: map<string, V>, opts: seq<V>, d: nat, k: nat)
    requires i < |choices| && d < |opts| && k < Count(choices, i + 1)
    ensures d * Count(choices, i + 1) + k < |IterateOptions(choices, i, params, opts)|
    ensures IterateOptions(choices, i, params, opts)[d * Count(choices, i + 1) + k] ==
      Iterate(choices, i + 1, params[choices[i].0 := opts[d]])[k]
    decreases d
  {
    var c := Count(choices, i + 1);
    var head := Iterate(choices, i + 1, params[choices[i].0 := opts[0]]);
    var tail := IterateOptions(choices, i, params, opts[1..]);
    assert IterateOptions(choices, i, params, opts) == head + tail;
    if d > 0 {
      IterateBlocks(choices, i, params, opts[1..], d - 1, k);
      assert d * c + k == c + ((d - 1) * c + k);
      assert opts[1..][d - 1] == opts[d];
    }
  }

  /** Every variation sets each choice whose name no later choice repeats to
      one of that choice's values. */
  lemma {:induction false} IterateValues<V>(choices: seq<Choice<V>>, i: nat, params: map<string, V>, j: nat)
    requires i <= j < |choices|
    requires forall l | j < l < |choices| :: choices[l].0 != choices[j].0
    ensures forall v | v in Iterate(choices, i, params) :: choices[j].0 in v && v[choices[j].0] in choices[j].1
    decreases |choices| - i, 1, 0
  {
    IterateOptionsValues(choices, i, params, choices[i].1, j);
  }

  lemma {:induction false} IterateOptionsValues<V>(choices: seq<Choice<V>>, i: nat, params: map<string, V>, opts: seq<V>, j: nat)
    requires i <= j < |choices|
    requires forall l | j < l < |choices| :: choices[l].0 != choices[j].0
    requires i == j ==> forall o | o in opts :: o in choices[j].1
    ensures forall v | v in IterateOptions(choices, i, params, opts) :: choices[j].0 in v && v[choices[j].0] in choices[j].1
    decreases |choices| - i, 0, |opts|
  {
    if opts != [] {
      var p' := params[choices[i].0 := opts[0]];
      if i == j {
        AfterNameUntouched(choices, i + 1, p', choices[j].0);
      } else {
        IterateValues(choices, i + 1, p', j);
      }
      IterateOptionsValues(choices, i, params, opts[1..], j);
    }
  }

  /** A name no remaining choice sets keeps its value in every variation. */
  lemma {:induction false} AfterNameUntouched<V>(choices: seq<Choice<V>>, i: nat, params: map<string, V>, n: string)
    requires i <= |choices| && n in params
    requires forall l | i <= l < |choices| :: choices[l].0 != n
    ensures forall v | v in Iterate(choices, i, params) :: n in v && v[n] == params[n]
    decreases |choices| - i, 1, 0
  {
    if i < |choices| {
      AfterNameUntouchedOptions(choices, i, params, choices[i].1, n);
    }
  }

  lemma {:induction false} AfterNameUntouchedOptions<V>(choices: seq<Choice<V>>, i: nat, params: map<string, V>, opts: seq<V>, n: string)
    requires i < |choices| && n in params
    requires forall l | i <= l < |choices| :: choices[l].0 != n
    ensures forall v | v in IterateOptions(choices, i, params, opts) :: n in v && v[n] == params[n]
    decreases |choices| - i, 0, |opts|
  {
    if opts != [] {
      AfterNameUntouched(choices, i + 1, params[choices[i].0 := opts[0]], n);
      AfterNameUntouchedOptions(choices, i, params, opts[1..], n);
    }
  }

  /** In block `d` of the variations from choice `i` on, choice `i` takes its
      `d`-th value, found at position `d` when the values do not repeat. */
  lemma VariationBlockValue<V>(choices: seq<Choice<V>>, i: nat, params: map<string, V>, d: nat, k: nat)
    requires i < |choices| && d < |choices[i].1| && k < Count(choices, i + 1)
    requires NoRepeats(choices[i].1)
    requires forall l | i < l < |choices| :: choices[l].0 != choices[i].0
    ensures d * Count(choices, i + 1) + k < |Iterate(choices, i, params)|
    ensures var v := Iterate(choices, i, params)[d * Count(choices, i + 1) + k];
      choices[i].0 in v && v[choices[i].0] == choices[i].1[d] && PositionOf(choices[i].1, v[choices[i].0]) == Ok(d)
  {
    IterateBlocks(choices, i, params, choices[i].1, d, k);
    AfterNameUntouched(choices, i + 1, params[choices[i].0 := choices[i].1[d]], choices[i].0);
    PositionOfDistinct(choices[i].1, d);
  }

  // ---------------------------------------------------------------------------
  // `desc`

  /** `str(n)` for a natural number. */
  function Decimal(n: nat): (s: string)
    ensures |s| >= 1
    ensures n < 10 <==> |s| == 1
    decreases n
  {
    if n < 10 then [(48 + n) as char] else Decimal(n / 10) + [(48 + n % 10) as char]
  }

  /** `options.index(x)`: the first position of `x`; absent is a ValueError. */
  function PositionOf<V(==)>(options: seq<V>, x: V): (r: Result<nat>)
    ensures r.Ok? <==> x in options
    ensures r.Err? ==> r.error == ValueError
    ensures r.Ok? ==> r.value < |options| && options[r.value] == x && forall j | 0 <= j < r.value :: options[j] != x
  {
    if x !in options then Err(ValueError)
    else if options[0] == x then Ok(0)
    else
      var r := PositionOf(options[1..], x);
      assert forall j | 1 <= j < |options| :: options[j] == options[1..][j - 1];
      Ok(r.value + 1)
  }

  /** `desc` from choice `i` on: the positions of the chosen values, in
      decimal, one after the other. */
  function DescFrom<V(==)>(choices: seq<Choice<V>>, i: nat, params: map<string, V>): (r: Result<string>)
    requires i <= |choices|
    ensures r.Err? ==> r.error in {KeyError, ValueError}
    ensures r.Ok? <==> forall j | i <= j < |choices| :: choices[j].0 in params && params[choices[j].0] in choices[j].1
    decreases |choices| - i
  {
    if i == |choices| then Ok("")
    else
      var (name, options) := choices[i];
      if name !in params then Err(KeyError)
      else
        var pos :- PositionOf(options, params[name]);
        var rest :- DescFrom(choices, i + 1, params);
        Ok(Decimal(pos) + rest)
  }

  /** `desc`. */
  function Desc<V(==)>(choices: seq<Choice<V>>, params: map<string, V>): (r: Result<string>)
    ensures r.Ok? <==> forall j | 0 <= j < |choices| :: choices[j].0 in params && params[choices[j].0] in choices[j].1
  {
    DescFrom(choices, 0, params)
  }

  /** Every choice offers at most ten values. */
  predicate SmallChoices<V>(choices: seq<Choice<V>>)
  {
    forall j | 0 <= j < |choices| :: |choices[j].1| <= 10
  }

  /** With at most ten values per choice every position is one digit, so the
      description identifies the chosen values. */
  lemma {:induction false} DescIdentifies<V>(choices: seq<Choice<V>>, i: nat, p: map<string, V>, q: map<string, V>)
    requires i <= |choices| && SmallChoices(choices)
    requires DescFrom(choices, i, p).Ok? && DescFrom(choices, i, q).Ok?
    requires DescFrom(choices, i, p) == DescFrom(choices, i, q)
    ensures forall j | i <= j < |choices| :: p[choices[j].0] == q[choices[j].0]
    decreases |choices| - i
  {
    if i < |choices| {
      var (name, options) := choices[i];
      var a, b := PositionOf(options, p[name]).value, PositionOf(options, q[name]).value;
      var ra, rb := DescFrom(choices, i + 1, p).value, DescFrom(choices, i + 1, q).value;
      assert Decimal(a) + ra == Decimal(b) + rb;
      assert |Decimal(a)| == 1 && |Decimal(b)| == 1;
      assert Decimal(a)[0] == (Decimal(a) + ra)[0];
      assert a == b;
      assert ra == (Decimal(a) + ra)[1..];
      DescIdentifies(choices, i + 1, p, q);
    }
  }

  /** No value is offered twice. */
  predicate NoRepeats<V(==)>(options: seq<V>)
  {
    forall i, j | 0 <= i < j < |options| :: options[i] != options[j]
  }

  lemma PositionOfDistinct<V>(options: seq<V>, k: nat)
    requires NoRepeats(options) && k < |options|
    ensures PositionOf(options, options[k]) == Ok(k)
  {
  }

  /** With eleven or more values two different selections share a
      description: positions 1 and 10 read like positions 11 and 0. */
  lemma DescAmbiguous<V>(a: string, b: string, optsA: seq<V>, optsB: seq<V>, p: map<string, V>, q: map<string, V>)
    requires a != b && NoRepeats(optsA) && NoRepeats(optsB) && |optsA| >= 12 && |optsB| >= 12
    requires p == map[a := optsA[1], b := optsB[10]] && q == map[a := optsA[11], b := optsB[0]]
    ensures Desc([(a, optsA), (b, optsB)], p) == Desc([(a, optsA), (b, optsB)], q) == Ok("110")
    ensures p[a] != q[a]
  {
    PositionOfDistinct(optsA, 1);
    PositionOfDistinct(optsA, 11);
    PositionOfDistinct(optsB, 10);
    PositionOfDistinct(optsB, 0);
    assert Decimal(10) == "10" && Decimal(11) == "11" && Decimal(1) == "1" && Decimal(0) == "0";
    var cs := [(a, optsA), (b, optsB)];
    assert DescFrom(cs, 2, p) == Ok("");
    assert DescFrom(cs, 2, q) == Ok("");
    assert cs[1] == (b, optsB) && cs[0] == (a, optsA);
    assert p[b] == optsB[10] && q[b] == optsB[0] && p[a] == optsA[1] && q[a] == optsA[11];
    assert Decimal(10) + "" == "10" && Decimal(0) + "" == "0";
    assert DescFrom(cs, 1, p) == Ok("10");
    assert DescFrom(cs, 1, q) == Ok("0");
    assert DescFrom(cs, 0, p) == Ok("1" + "10");
    assert DescFrom(cs, 0, q) == Ok("11" + "0");
    assert "1" + "10" == "110" == "11" + "0";
  }
}
