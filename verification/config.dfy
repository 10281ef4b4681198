/** The render configuration of agrf/gorender/__init__.py: a JSON dict built
    from an optional loaded file and supplied overrides, the `agrf_subset`
    re-indexing of its per-sprite lists, and the cached final form. */
module Config {
  import opened Wrappers

  /** A JSON value, as far as the re-indexing looks at it. `Opaque` stands for
      any other value (null, a boolean, a float, an object), carried through
      unchanged. */
  datatype Value =
    | Num(n: int)
    | Str(s: string)
    | List(items: seq<Value>)
    | Opaque(id: int)

  type Dict = map<string, Value>

  /** The entry listing the positions to keep. */
  const SubsetKey: string := "agrf_subset"

  /** The per-sprite lists that `agrf_subset` re-indexes, in the order `subset`
      visits them. */
  const SubsetKeys: seq<string> := ["sprites", "agrf_deltas", "agrf_offsets", "agrf_ydeltas", "agrf_yoffsets"]

  // ---------------------------------------------------------------------------
  // Python sequence access

  /** The position `xs[i]` reads in a sequence of length `len`: negative
      indices count from the end; anything else out of range is None. */
  function PyIndex(i: int, len: nat): (r: Option<nat>)
    ensures r.Some? <==> -(len as int) <= i < len
    ensures r.Some? ==> r.value < len && (r.value == i || r.value == i + len)
  {
    if 0 <= i < len then Some(i)
    else if -(len as int) <= i < 0 then Some(i + len)
    else None
  }

  /** `iter(v)`: a list yields its items, a string its one-character strings;
      anything else is not iterable. */
  function Iterate(v: Value): (r: Result<seq<Value>>)
    ensures r.Err? <==> !(v.List? || v.Str?)
    ensures r.Err? ==> r.error == TypeError
    ensures v.List? ==> r == Ok(v.items)
    ensures v.Str? ==> |r.value| == |v.s| && forall k | 0 <= k < |v.s| :: r.value[k] == Str([v.s[k]])
  {
    match v
    case List(items) => Ok(items)
    case Str(s) => Ok(seq(|s|, k requires 0 <= k < |s| => Str([s[k]])))
    case _ => Err(TypeError)
  }

  /** `container[i]` for an integer `i` and a list or string container: an
      index out of range is an IndexError, any other shape a TypeError. */
  function Subscript(container: Value, i: Value): (r: Result<Value>)
    ensures r.Ok? <==> (i.Num? && (
      (container.List? && PyIndex(i.n, |container.items|).Some?) ||
      (container.Str? && PyIndex(i.n, |container.s|).Some?)))
    ensures r.Err? && i.Num? && (container.List? || container.Str?) ==> r.error == IndexError
    ensures r.Ok? && container.List? ==> r.value == container.items[PyIndex(i.n, |container.items|).value]
  {
    if !i.Num? then Err(TypeError)
    else
      match container
      case List(xs) =>
        (match PyIndex(i.n, |xs|)
         case Some(k) => Ok(xs[k])
         case None => Err(IndexError))
      case Str(s) =>
        (match PyIndex(i.n, |s|)
         case Some(k) => Ok(Str([s[k]]))
         case None => Err(IndexError))
      case _ => Err(TypeError)
  }

  /** `[container[i] for i in indices]`: the first failing subscript raises. */
  function Pick(container: Value, indices: seq<Value>): (r: Result<seq<Value>>)
    ensures r.Ok? ==> (|r.value| == |indices| &&
      forall j | 0 <= j < |indices| :: Subscript(container, indices[j]) == Ok(r.value[j]))
    ensures r.Err? ==> exists j | 0 <= j < |indices| ::
      Subscript(container, indices[j]) == Err(r.error) &&
      forall j' | 0 <= j' < j :: Subscript(container, indices[j']).Ok?
  {
    if indices == [] then Ok([])
    else
      var x :- Subscript(container, indices[0]);
      var rest :- Pick(container, indices[1..]);
      assert forall j | 1 <= j < |indices| :: indices[1..][j - 1] == indices[j];
      Ok([x] + rest)
  }

  /** The first failing subscript is the one that raises. */
  lemma {:induction false} PickFailsAt(container: Value, indices: seq<Value>, bad: nat)
    requires bad < |indices| && Subscript(container, indices[bad]).Err?
    requires forall j | 0 <= j < bad :: Subscript(container, indices[j]).Ok?
    ensures Pick(container, indices) == Err(Subscript(container, indices[bad]).error)
  {
    if bad > 0 {
      PickFailsAt(container, indices[1..], bad - 1);
    }
  }

  /** No per-sprite key is listed twice. */
  lemma SubsetKeysDistinct()
    ensures forall a, b | 0 <= a < b < |SubsetKeys| :: SubsetKeys[a] != SubsetKeys[b]
    ensures SubsetKey !in SubsetKeys
  {
  }

  /** The loop of `subset` over `keys`: each key present becomes the list of
      its entries at `indices`. */
  function Reindex(cfg: Dict, keys: seq<string>, indices: Value): (r: Result<Dict>)
    ensures r.Ok? ==> r.value.Keys == cfg.Keys
    ensures r.Ok? ==> forall k | k in cfg && k !in keys :: r.value[k] == cfg[k]
    decreases |keys|
  {
    if keys == [] then Ok(cfg)
    else if keys[0] !in cfg then Reindex(cfg, keys[1..], indices)
    else
      var items :- Iterate(indices);
      var picked :- Pick(cfg[keys[0]], items);
      Reindex(cfg[keys[0] := List(picked)], keys[1..], indices)
  }

  /** `Config.subset`: a copy of the configuration; with an `agrf_subset`
      entry, each per-sprite list present keeps only the entries at those
      positions, in their order, and `agrf_subset` itself is dropped. */
  function Subset(config: Dict): (r: Result<Dict>)
    ensures SubsetKey !in config ==> r == Ok(config)
    ensures r.Ok? ==> r.value.Keys == config.Keys - {SubsetKey}
    ensures r.Ok? ==> forall k | k in config && k != SubsetKey && k !in SubsetKeys :: r.value[k] == config[k]
  {
    if SubsetKey !in config then Ok(config)
    else
      var cfg :- Reindex(config, SubsetKeys, config[SubsetKey]);
      Ok(cfg - {SubsetKey})
  }

  /** The list a per-sprite key holds after the loop, when nothing failed:
      one entry per index, each the entry the index selects. */
  lemma {:induction false} ReindexPicks(cfg: Dict, keys: seq<string>, indices: Value, key: string)
    requires Reindex(cfg, keys, indices).Ok? && key in cfg && key in keys
    requires forall a, b | 0 <= a < b < |keys| :: keys[a] != keys[b]
    ensures var items := Iterate(indices);
      var out := Reindex(cfg, keys, indices).value[key];
      items.Ok? && out.List? && |out.items| == |items.value| &&
      forall j | 0 <= j < |items.value| :: Subscript(cfg[key], items.value[j]) == Ok(out.items[j])
    decreases |keys|
  {
    assert forall a | 1 <= a < |keys| :: keys[1..][a - 1] == keys[a];
    if keys[0] != key {
      var next := if keys[0] in cfg then cfg[keys[0] := List(Pick(cfg[keys[0]], Iterate(indices).value).value)] else cfg;
      ReindexPicks(next, keys[1..], indices, key);
    } else {
      var picked := Pick(cfg[key], Iterate(indices).value).value;
      assert key !in keys[1..];
      assert Reindex(cfg, keys, indices) == Reindex(cfg[key := List(picked)], keys[1..], indices);
    }
  }

  /** With `agrf_subset` present and the call succeeding, each per-sprite list
      present has one entry per index, the entry that index selects (negative
      indices counting from the end). */
  lemma SubsetReindexes(config: Dict, key: string)
    requires SubsetKey in config && Subset(config).Ok? && key in config && key in SubsetKeys
    ensures var items := Iterate(config[SubsetKey]);
      var out := Subset(config).value[key];
      items.Ok? && out.List? && |out.items| == |items.value| &&
      forall j | 0 <= j < |items.value| :: Subscript(config[key], items.value[j]) == Ok(out.items[j])
  {
    SubsetKeysDistinct();
    ReindexPicks(config, SubsetKeys, config[SubsetKey], key);
    assert Subset(config).value[key] == Reindex(config, SubsetKeys, config[SubsetKey]).value[key];
  }

  /** Subscripts that all succeed make the comprehension succeed. */
  lemma {:induction false} PickSucceeds(container: Value, indices: seq<Value>)
    requires forall j | 0 <= j < |indices| :: Subscript(container, indices[j]).Ok?
    ensures Pick(container, indices).Ok?
  {
    if indices != [] {
      assert Subscript(container, indices[0]).Ok?;
      assert forall j | 0 <= j < |indices| - 1 :: indices[1..][j] == indices[j + 1];
      PickSucceeds(container, indices[1..]);
    }
  }

  /** Every index selecting an entry of every list present. */
  predicate Selects(cfg: Dict, keys: seq<string>, indices: Value)
  {
    forall k | k in keys && k in cfg ::
      Iterate(indices).Ok? &&
      forall j | 0 <= j < |Iterate(indices).value| :: Subscript(cfg[k], Iterate(indices).value[j]).Ok?
  }

  lemma {:induction false} ReindexSucceeds(cfg: Dict, keys: seq<string>, indices: Value)
    requires forall a, b | 0 <= a < b < |keys| :: keys[a] != keys[b]
    requires Selects(cfg, keys, indices)
    ensures Reindex(cfg, keys, indices).Ok?
    decreases |keys|
  {
    if keys != [] {
      assert forall a | 1 <= a < |keys| :: keys[1..][a - 1] == keys[a];
      if keys[0] in cfg {
        var items := Iterate(indices).value;
        PickSucceeds(cfg[keys[0]], items);
        var next := cfg[keys[0] := List(Pick(cfg[keys[0]], items).value)];
        forall k | k in keys[1..] && k in next ensures k in cfg && next[k] == cfg[k] {
          assert k != keys[0];
        }
        ReindexSucceeds(next, keys[1..], indices);
      } else {
        ReindexSucceeds(cfg, keys[1..], indices);
      }
    }
  }

  /** `subset` succeeds whenever every index selects an entry of every
      per-sprite list present: it raises only on a bad index or a list that
      is not one. */
  lemma SubsetSucceeds(config: Dict)
    requires SubsetKey in config ==> Selects(config, SubsetKeys, config[SubsetKey])
    ensures Subset(config).Ok?
  {
    if SubsetKey in config {
      SubsetKeysDistinct();
      ReindexSucceeds(config, SubsetKeys, config[SubsetKey]);
    }
  }

  /** When the first per-sprite list present is a list and some index is out
      of its range while all earlier ones are integers in range, `subset`
      raises IndexError. */
  lemma SubsetOutOfRange(config: Dict, bad: nat)
    requires SubsetKey in config && "sprites" in config && config["sprites"].List?
    requires config[SubsetKey].List? && bad < |config[SubsetKey].items|
    requires forall j | 0 <= j < bad :: Subscript(config["sprites"], config[SubsetKey].items[j]).Ok?
    requires config[SubsetKey].items[bad].Num?
    requires PyIndex(config[SubsetKey].items[bad].n, |config["sprites"].items|).None?
    ensures Subset(config) == Err(IndexError)
  {
    PickFailsAt(config["sprites"], config[SubsetKey].items, bad);
  }

  // ---------------------------------------------------------------------------
  // `Config`

  /** A `Config`: its dict and the cached final configuration. */
  datatype Config = Config(config: Dict, finalConfig: Option<Dict>)

  /** `Config(load_from, config)`, with the dict parsed from `load_from` given
      as `loaded` (None without a file): supplied entries override loaded
      ones, and nothing is cached yet. */
  function NewConfig(loaded: Option<Dict>, supplied: Option<Dict>): (c: Config)
    ensures c.finalConfig.None?
    ensures loaded.None? && supplied.None? ==> c.config == map[]
    ensures forall k :: k in c.config <==> (loaded.Some? && k in loaded.value) || (supplied.Some? && k in supplied.value)
    ensures forall k | supplied.Some? && k in supplied.value :: c.config[k] == supplied.value[k]
    ensures forall k | loaded.Some? && k in loaded.value && (supplied.None? || k !in supplied.value) ::
      c.config[k] == loaded.value[k]
  {
    var base := if loaded.None? then map[] else loaded.value;
    Config(if supplied.None? then base else base + supplied.value, None)
  }

  /** The `final_config` property: the subset, computed on first use and then
      served from the cache. A failing subset caches nothing. The dict itself
      is never changed. */
  function FinalConfig(c: Config): (r: (Result<Dict>, Config))
    ensures r.1.config == c.config
    ensures c.finalConfig.Some? ==> r == (Ok(c.finalConfig.value), c)
    ensures c.finalConfig.None? ==> r.0 == Subset(c.config)
  {
    if c.finalConfig.Some? then (Ok(c.finalConfig.value), c)
    else
      match Subset(c.config)
      case Ok(d) => (Ok(d), c.(finalConfig := Some(d)))
      case Err(e) => (Err(e), c)
  }

  /** A fresh `Config` computes its final configuration once: a second read
      gives the same dict from the cache and changes nothing more. */
  lemma FinalConfigCached(loaded: Option<Dict>, supplied: Option<Dict>)
    ensures var c := NewConfig(loaded, supplied);
      var (first, c1) := FinalConfig(c);
      first == Subset(c.config) &&
      (first.Ok? ==> FinalConfig(c1) == (first, c1))
  {
  }

  /** Without a file and without `agrf_subset`, the final configuration is
      exactly the supplied dict. */
  lemma FinalConfigOfSupplied(supplied: Dict)
    requires SubsetKey !in supplied
    ensures FinalConfig(NewConfig(None, Some(supplied))).0 == Ok(supplied)
  {
    assert NewConfig(None, Some(supplied)).config == supplied;
  }
}
