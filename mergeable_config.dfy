/**
 * `MergeableConfig`: a configuration tree read from YAML documents, merged
 * deeply document after document, and read back by dotted paths.
 *
 * A YAML value is a `Value`; a Java `null`, whether stored or returned by
 * `Map.get` for a missing key, is `Null`. Exceptions are `Failure`s.
 */
module MergeableConfig {
  import opened Wrappers

  datatype Value =
    | Null
    | Str(s: string)
    | Num(n: int)
    | Bool(b: bool)
    | List(items: seq<Value>)
    | Map(entries: map<string, Value>)

  type Conf = map<string, Value>

  datatype ConfigError =
    | IllegalArgument   // deepMerge: a non-collection met a collection, or a non-map a map
    | ClassCast         // an unchecked cast met a value of another kind
    | IndexOutOfBounds  // read: the path split into no segments at all

  /** A `MergeableConfig` over `conf`, whose keys are known to the system properties under `rootPath`. */
  datatype Config = Config(conf: Conf, rootPath: string)

  /** `Map.get`: a missing key reads as null. */
  function Get(m: Conf, key: string): Value
  {
    if key in m then m[key] else Null
  }

  // ---------------------------------------------------------------------------
  // deepMerge / shouldMergeAnyWay
  // ---------------------------------------------------------------------------

  /** What the key holds once an incoming value met the value already there. */
  function MergedValue(original: Value, incoming: Value): Result<Value, ConfigError>
    decreases incoming, 1
  {
    match original
    case List(xs) =>
      if incoming.List? then Success(List(xs + incoming.items)) else Failure(IllegalArgument)
    case Map(m) =>
      if incoming.Map? then
        match MergedMaps(m, incoming.entries)
        case Success(merged) => Success(Map(merged))
        case Failure(e) => Failure(e)
      else Failure(IllegalArgument)
    case _ => Success(incoming)
  }

  /** What `key` holds once the entry `key: value` has been merged into `original`. */
  function MergedEntry(original: Conf, key: string, value: Value): Result<Value, ConfigError>
    decreases value, 2
  {
    if key in original then MergedValue(original[key], value) else Success(value)
  }

  /** The map `deepMerge(original, newMap)` leaves behind, or the exception it throws. */
  function MergedMaps(original: Conf, newMap: Conf): (r: Result<Conf, ConfigError>)
    ensures r.Success? ==> r.value.Keys == original.Keys + newMap.Keys
    ensures r.Failure? ==> r.error == IllegalArgument
    decreases Map(newMap), 0
  {
    if forall k | k in newMap :: MergedEntry(original, k, newMap[k]).Success? then
      Success(map k | k in original.Keys + newMap.Keys ::
                if k in newMap then MergedEntry(original, k, newMap[k]).value else original[k])
    else
      Failure(IllegalArgument)
  }

  /** `shouldMergeAnyWay`'s answer: put the new value, or keep the key, whose value was merged in place. */
  datatype Decision = Put | MergedInPlace(merged: Value)

  /**
   * `shouldMergeAnyWay`: `Put` when the key is absent or holds neither a
   * collection nor a map; a list gets the new elements appended; a map is
   * deep-merged; either met by a value of another kind is an IllegalArgument.
   */
  method ShouldMergeAnyWay(original: Conf, currentKey: string, currentValue: Value)
    returns (r: Result<Decision, ConfigError>)
    ensures r.Success? ==>
              (r.value.Put? <==> currentKey !in original || !(original[currentKey].List? || original[currentKey].Map?))
    ensures r.Success? ==>
              MergedEntry(original, currentKey, currentValue)
                == Success(if r.value.Put? then currentValue else r.value.merged)
    ensures r.Failure? <==> MergedEntry(original, currentKey, currentValue).Failure?
    ensures r.Failure? ==> r.error == IllegalArgument
    decreases currentValue, 2
  {
    if currentKey in original {
      var originalValue := original[currentKey];
      if originalValue.List? {
        if !currentValue.List? {
          return Failure(IllegalArgument);
        }
        return Success(MergedInPlace(List(originalValue.items + currentValue.items)));
      }
      if originalValue.Map? {
        if !currentValue.Map? {
          return Failure(IllegalArgument);
        }
        var merged := DeepMerge(originalValue.entries, currentValue.entries);
        if merged.Failure? {
          return Failure(merged.error);
        }
        return Success(MergedInPlace(Map(merged.value)));
      }
    }
    return Success(Put);
  }

  /**
   * `deepMerge`: every entry of `newMap` is merged into `original`, in any
   * order; the merged map, or the IllegalArgument a collision raises.
   */
  method DeepMerge(original: Conf, newMap: Conf) returns (r: Result<Conf, ConfigError>)
    ensures r == MergedMaps(original, newMap)
    decreases Map(newMap), 0
  {
    var current := original;
    var remaining := newMap.Keys;
    while remaining != {}
      invariant remaining <= newMap.Keys
      invariant current.Keys == original.Keys + (newMap.Keys - remaining)
      invariant forall k | k in newMap && k !in remaining ::
                  MergedEntry(original, k, newMap[k]).Success? && current[k] == MergedEntry(original, k, newMap[k]).value
      invariant forall k | k in original && (k !in newMap || k in remaining) :: current[k] == original[k]
      decreases remaining
    {
      var key :| key in remaining;
      assert MergedEntry(current, key, newMap[key]) == MergedEntry(original, key, newMap[key]);
      var decision := ShouldMergeAnyWay(current, key, newMap[key]);
      if decision.Failure? {
        MergeFailsAt(original, newMap, key);
        return Failure(decision.error);
      }
      current := current[key := if decision.value.Put? then newMap[key] else decision.value.merged];
      remaining := remaining - {key};
    }
    MergeCompletes(original, newMap, current);
    return Success(current);
  }

  lemma MergeFailsAt(original: Conf, newMap: Conf, k: string)
    requires k in newMap && MergedEntry(original, k, newMap[k]).Failure?
    ensures MergedMaps(original, newMap) == Failure(IllegalArgument)
  {
  }

  /** Once every entry has been merged key by key, the result is the merged map. */
  lemma MergeCompletes(original: Conf, newMap: Conf, current: Conf)
    requires current.Keys == original.Keys + newMap.Keys
    requires forall k | k in newMap ::
               MergedEntry(original, k, newMap[k]).Success? && current[k] == MergedEntry(original, k, newMap[k]).value
    requires forall k | k in original && k !in newMap :: current[k] == original[k]
    ensures MergedMaps(original, newMap) == Success(current)
  {
    assert MergedMaps(original, newMap).value == current;
  }

  /** Merging nothing leaves the map as it is; merging into nothing gives the new map. */
  lemma MergeIdentity(m: Conf)
    ensures MergedMaps(m, map[]) == Success(m)
    ensures MergedMaps(map[], m) == Success(m)
  {
    assert MergedMaps(m, map[]).value == m;
    assert forall k | k in m :: MergedEntry(map[], k, m[k]) == Success(m[k]);
    assert MergedMaps(map[], m).value == m;
  }

  /**
   * Key by key: an absent or plain original value is overwritten, a list is
   * extended, a map is merged recursively, and keys only in the original stay.
   */
  lemma MergedKeyOutcome(original: Conf, newMap: Conf, k: string)
    requires MergedMaps(original, newMap).Success?
    requires k in original.Keys + newMap.Keys
    ensures var merged := MergedMaps(original, newMap).value;
      && (k in newMap && (k !in original || !(original[k].List? || original[k].Map?)) ==> merged[k] == newMap[k])
      && (k in newMap && k in original && original[k].List? ==>
            newMap[k].List? && merged[k] == List(original[k].items + newMap[k].items))
      && (k in newMap && k in original && original[k].Map? ==>
            newMap[k].Map? && MergedMaps(original[k].entries, newMap[k].entries).Success? &&
            merged[k] == Map(MergedMaps(original[k].entries, newMap[k].entries).value))
      && (k !in newMap ==> merged[k] == original[k])
  {
    if k in newMap {
      assert MergedEntry(original, k, newMap[k]).Success?;
    }
  }

  /** A list or a map met by a value of another kind makes the whole merge fail. */
  lemma MergeCollisionFails(original: Conf, newMap: Conf, k: string)
    requires k in original && k in newMap
    requires (original[k].List? && !newMap[k].List?) || (original[k].Map? && !newMap[k].Map?)
    ensures MergedMaps(original, newMap) == Failure(IllegalArgument)
  {
    assert MergedEntry(original, k, newMap[k]).Failure?;
  }

  // ---------------------------------------------------------------------------
  // Dotted paths: String.split("\\.")
  // ---------------------------------------------------------------------------

  /** The pieces of `s` between dots, empty ones included: one more than there are dots. */
  function Pieces(s: string): (r: seq<string>)
    ensures |r| >= 1
    ensures forall i | 0 <= i < |r| :: '.' !in r[i]
  {
    if s == [] then [""]
    else
      var rest := Pieces(s[1..]);
      if s[0] == '.' then [""] + rest else [[s[0]] + rest[0]] + rest[1..]
  }

  function DropTrailingEmpty(xs: seq<string>): (r: seq<string>)
    ensures |r| <= |xs| && r == xs[..|r|]
    ensures r == [] || r[|r| - 1] != ""
  {
    if xs == [] then []
    else if xs[|xs| - 1] == "" then DropTrailingEmpty(xs[..|xs| - 1])
    else xs
  }

  /**
   * `path.split("\\.")`: a path without a dot is its own single segment (even
   * the empty path); otherwise the pieces, with trailing empty ones removed.
   */
  function Split(path: string): (r: seq<string>)
    ensures forall i | 0 <= i < |r| :: '.' !in r[i]
    ensures '.' !in path ==> r == [path]
  {
    if '.' !in path then [path] else DropTrailingEmpty(Pieces(path))
  }

  /** Segments joined with dots. */
  function Join(segments: seq<string>): string
  {
    if segments == [] then ""
    else if |segments| == 1 then segments[0]
    else segments[0] + "." + Join(segments[1..])
  }

  /** Segments that a dotted path written from them splits back into. */
  predicate IsKeyPath(keys: seq<string>)
  {
    && |keys| >= 1
    && (forall i | 0 <= i < |keys| :: '.' !in keys[i])
    && (|keys| == 1 || keys[|keys| - 1] != "")
  }

  lemma {:induction false} PiecesOfPlain(a: string)
    requires '.' !in a
    ensures Pieces(a) == [a]
  {
    if a != [] {
      PiecesOfPlain(a[1..]);
      assert [a[0]] + a[1..] == a;
    }
  }

  lemma {:induction false} PiecesAfterDot(a: string, rest: string)
    requires '.' !in a
    ensures Pieces(a + "." + rest) == [a] + Pieces(rest)
  {
    if a == [] {
      assert a + "." + rest == ['.'] + rest;
      assert (['.'] + rest)[1..] == rest;
    } else {
      assert (a + "." + rest)[0] == a[0];
      assert (a + "." + rest)[1..] == a[1..] + "." + rest;
      PiecesAfterDot(a[1..], rest);
      assert [a[0]] + a[1..] == a;
    }
  }

  lemma {:induction false} PiecesOfJoin(keys: seq<string>)
    requires |keys| >= 1 && forall i | 0 <= i < |keys| :: '.' !in keys[i]
    ensures Pieces(Join(keys)) == keys
  {
    if |keys| == 1 {
      PiecesOfPlain(keys[0]);
    } else {
      PiecesAfterDot(keys[0], Join(keys[1..]));
      PiecesOfJoin(keys[1..]);
    }
  }

  /** Writing segments as a dotted path and splitting it gives the segments back. */
  lemma SplitJoin(keys: seq<string>)
    requires IsKeyPath(keys)
    ensures Split(Join(keys)) == keys
  {
    if |keys| >= 2 {
      assert Join(keys) == keys[0] + "." + Join(keys[1..]);
      assert '.' in Join(keys) by {
        assert Join(keys)[|keys[0]|] == '.';
      }
      PiecesOfJoin(keys);
    }
  }

  // ---------------------------------------------------------------------------
  // read / readPath
  // ---------------------------------------------------------------------------

  /** Every segment of a split path but the last: the ones `readPath` walks. */
  function AllButLast(strings: seq<string>): seq<string>
  {
    if strings == [] then [] else strings[..|strings| - 1]
  }

  /**
   * The map reached by following `keys` from `current`; None when a key is
   * missing or null, a ClassCast when a key holds something other than a map.
   */
  function Walk(current: Conf, keys: seq<string>): (r: Result<Option<Conf>, ConfigError>)
    ensures r.Failure? ==> r.error == ClassCast
    decreases keys
  {
    if keys == [] then Success(Some(current))
    else
      match Get(current, keys[0])
      case Null => Success(None)
      case Map(m) => Walk(m, keys[1..])
      case _ => Failure(ClassCast)
  }

  /** `readPath`: follows all segments but the last through nested maps. */
  method ReadPath(conf: Conf, strings: seq<string>) returns (r: Result<Option<Conf>, ConfigError>)
    ensures r == Walk(conf, AllButLast(strings))
  {
    var current: Option<Conf> := Some(conf);
    var i := 0;
    while i < |strings| - 1 && current.Some?
      invariant 0 <= i <= |AllButLast(strings)|
      invariant Walk(conf, AllButLast(strings))
                == if current.Some? then Walk(current.value, AllButLast(strings)[i..]) else Success(None)
    {
      assert AllButLast(strings)[i..][0] == strings[i];
      assert AllButLast(strings)[i..][1..] == AllButLast(strings)[i + 1..];
      match Get(current.value, strings[i]) {
        case Null =>
          current := None;
        case Map(m) =>
          current := Some(m);
        case _ =>
          return Failure(ClassCast);
      }
      i := i + 1;
    }
    assert current.Some? ==> AllButLast(strings)[i..] == [];
    return Success(current);
  }

  /**
   * `read(path, o -> o)`: the last segment looked up in the map `readPath`
   * reaches, or in the root map when the walk hit a missing key.
   */
  function Read(cfg: Config, path: string): (r: Result<Value, ConfigError>)
    ensures r == Failure(IndexOutOfBounds) <==> Split(path) == []
    ensures r.Failure? ==> r.error != IllegalArgument
    ensures '.' !in path ==> r == Success(Get(cfg.conf, path))
  {
    ReadSegments(cfg, Split(path))
  }

  /** `read` once the path is split into `strings`. */
  function ReadSegments(cfg: Config, strings: seq<string>): (r: Result<Value, ConfigError>)
    ensures r == Failure(IndexOutOfBounds) <==> strings == []
    ensures r.Failure? ==> r.error != IllegalArgument
  {
    match Walk(cfg.conf, AllButLast(strings))
    case Failure(e) => Failure(e)
    case Success(found) =>
      if |strings| == 0 then Failure(IndexOutOfBounds)
      else Success(Get(if found.Some? then found.value else cfg.conf, strings[|strings| - 1]))
  }

  /** Every key but the last names a map, going down from `conf`. */
  predicate Resolves(conf: Conf, keys: seq<string>)
    requires |keys| >= 1
    decreases keys
  {
    |keys| == 1 || (keys[0] in conf && conf[keys[0]].Map? && Resolves(conf[keys[0]].entries, keys[1..]))
  }

  /** The value stored at `keys` in nested maps. */
  function At(conf: Conf, keys: seq<string>): Option<Value>
    requires |keys| >= 1
    decreases keys
  {
    if |keys| == 1 then (if keys[0] in conf then Some(conf[keys[0]]) else None)
    else if keys[0] in conf && conf[keys[0]].Map? then At(conf[keys[0]].entries, keys[1..])
    else None
  }

  lemma {:induction false} WalkResolves(conf: Conf, keys: seq<string>)
    requires |keys| >= 1 && Resolves(conf, keys)
    ensures Walk(conf, keys[..|keys| - 1]).Success?
    ensures Walk(conf, keys[..|keys| - 1]).value.Some?
    ensures At(conf, keys) == (var m := Walk(conf, keys[..|keys| - 1]).value.value;
                               var last := keys[|keys| - 1];
                               if last in m then Some(m[last]) else None)
    decreases keys
  {
    if |keys| > 1 {
      assert keys[..|keys| - 1][0] == keys[0];
      assert keys[..|keys| - 1][1..] == keys[1..][..|keys[1..]| - 1];
      WalkResolves(conf[keys[0]].entries, keys[1..]);
    }
  }

  lemma {:induction false} WalkAppend(conf: Conf, a: seq<string>, b: seq<string>)
    ensures Walk(conf, a + b) == match Walk(conf, a)
                                 case Success(Some(m)) => Walk(m, b)
                                 case other => other
    decreases a
  {
    if a == [] {
      assert a + b == b;
    } else {
      assert (a + b)[0] == a[0];
      assert (a + b)[1..] == a[1..] + b;
      match Get(conf, a[0])
      case Map(m) => WalkAppend(m, a[1..], b);
      case _ =>
    }
  }

  /** A dotted path along nested maps reads the value stored there, or null. */
  lemma ReadNested(cfg: Config, keys: seq<string>)
    requires IsKeyPath(keys) && Resolves(cfg.conf, keys)
    ensures Read(cfg, Join(keys)) == Success(At(cfg.conf, keys).GetOr(Null))
  {
    SplitJoin(keys);
    WalkResolves(cfg.conf, keys);
  }

  /** Reading a path written from key segments reads those segments. */
  lemma ReadJoin(cfg: Config, keys: seq<string>)
    requires IsKeyPath(keys)
    ensures Read(cfg, Join(keys)) == ReadSegments(cfg, keys)
  {
    SplitJoin(keys);
  }

  lemma WalkStopsAtMissing(conf: Conf, a: seq<string>, b: seq<string>, m: Conf)
    requires Walk(conf, a) == Success(Some(m)) && b != [] && Get(m, b[0]) == Null
    ensures Walk(conf, a + b) == Success(None)
  {
    WalkAppend(conf, a, b);
  }

  /**
   * When the walk finds segment `i` (not the last) missing or null, the last
   * segment is looked up in the root map instead.
   */
  lemma ReadFallsBackToRoot(cfg: Config, keys: seq<string>, i: nat, m: Conf)
    requires IsKeyPath(keys) && i < |keys| - 1
    requires Walk(cfg.conf, keys[..i]) == Success(Some(m)) && Get(m, keys[i]) == Null
    ensures Read(cfg, Join(keys)) == Success(Get(cfg.conf, keys[|keys| - 1]))
  {
    ReadJoin(cfg, keys);
    var walked, tail := keys[..i], keys[i..|keys| - 1];
    AllButLastSplits(keys, i);
    WalkStopsAtMissing(cfg.conf, walked, tail, m);
    ReadSegmentsFallsBack(cfg, keys);
  }

  lemma AllButLastSplits(keys: seq<string>, i: nat)
    requires i < |keys|
    ensures AllButLast(keys) == keys[..i] + keys[i..|keys| - 1]
  {
  }

  lemma ReadSegmentsFallsBack(cfg: Config, strings: seq<string>)
    requires strings != [] && Walk(cfg.conf, AllButLast(strings)) == Success(None)
    ensures ReadSegments(cfg, strings) == Success(Get(cfg.conf, strings[|strings| - 1]))
  {
  }

  /** A path of dots only splits into nothing, and reading it is out of bounds. */
  lemma ReadDotsOnly(cfg: Config)
    ensures Split(".") == []
    ensures Read(cfg, ".") == Failure(IndexOutOfBounds)
  {
    assert Pieces(".") == [""] + Pieces("");
  }

  // ---------------------------------------------------------------------------
  // Getters
  // ---------------------------------------------------------------------------

  /** `getObject`: the raw value; a path without a dot names a key of the root map. */
  function GetObject(cfg: Config, path: string): (r: Result<Value, ConfigError>)
    ensures '.' !in path ==> r == Success(Get(cfg.conf, path))
  {
    Read(cfg, path)
  }

  /**
   * `getString(path)`: a system property named `rootPath + path` wins;
   * otherwise the string read at the path, null when nothing is there.
   */
  function GetString(cfg: Config, properties: map<string, string>, path: string): (r: Result<Option<string>, ConfigError>)
    ensures cfg.rootPath + path in properties ==> r == Success(Some(properties[cfg.rootPath + path]))
    ensures cfg.rootPath + path !in properties ==>
              && (Read(cfg, path).Failure? ==> r == Failure(Read(cfg, path).error))
              && (Read(cfg, path) == Success(Null) ==> r == Success(None))
              && (forall s :: Read(cfg, path) == Success(Str(s)) ==> r == Success(Some(s)))
              && (Read(cfg, path).Success? && !(Read(cfg, path).value.Null? || Read(cfg, path).value.Str?) ==>
                    r == Failure(ClassCast))
  {
    if cfg.rootPath + path in properties then Success(Some(properties[cfg.rootPath + path]))
    else
      match Read(cfg, path)
      case Failure(e) => Failure(e)
      case Success(Null) => Success(None)
      case Success(Str(s)) => Success(Some(s))
      case Success(_) => Failure(ClassCast)
  }

  /**
   * `getString(path, defaultValue)`: the default exactly when `getString(path)`
   * is null; the default may itself be null (None).
   */
  function GetStringOr(cfg: Config, properties: map<string, string>, path: string, defaultValue: Option<string>)
    : (r: Result<Option<string>, ConfigError>)
    ensures GetString(cfg, properties, path) == Success(None) ==> r == Success(defaultValue)
    ensures forall s :: GetString(cfg, properties, path) == Success(Some(s)) ==> r == Success(Some(s))
    ensures GetString(cfg, properties, path).Failure? ==> r == Failure(GetString(cfg, properties, path).error)
  {
    match GetString(cfg, properties, path)
    case Failure(e) => Failure(e)
    case Success(value) => Success(if value.Some? then value else defaultValue)
  }

  /** `getConfig`: null when nothing is there, else a sub-config rooted at `rootPath + path + "."`. */
  function GetConfig(cfg: Config, path: string): (r: Result<Option<Config>, ConfigError>)
    ensures r == Success(None) <==> Read(cfg, path) == Success(Null)
    ensures forall sub: Config :: r == Success(Some(sub)) ==>
              Read(cfg, path) == Success(Map(sub.conf)) && sub.rootPath == cfg.rootPath + path + "."
    ensures r.Failure? <==> Read(cfg, path).Failure? || !(Read(cfg, path).value.Null? || Read(cfg, path).value.Map?)
  {
    match Read(cfg, path)
    case Failure(e) => Failure(e)
    case Success(Null) => Success(None)
    case Success(Map(m)) => Success(Some(Config(m, cfg.rootPath + path + ".")))
    case Success(_) => Failure(ClassCast)
  }

  /** Each list element as a config under `rootPath`; a null element gives a config over null (None). */
  function ConfigsOf(items: seq<Value>, rootPath: string): (r: Result<seq<Option<Config>>, ConfigError>)
    ensures r.Success? <==> forall i | 0 <= i < |items| :: items[i].Null? || items[i].Map?
    ensures r.Success? ==> |r.value| == |items|
    ensures r.Success? ==> forall i | 0 <= i < |items| ::
              r.value[i] == if items[i].Map? then Some(Config(items[i].entries, rootPath)) else None
  {
    if forall i | 0 <= i < |items| :: items[i].Null? || items[i].Map? then
      Success(seq(|items|, i requires 0 <= i < |items| =>
                if items[i].Map? then Some(Config(items[i].entries, rootPath)) else None))
    else Failure(ClassCast)
  }

  /** `getConfigList`: empty when nothing is there, else one sub-config per element. */
  function GetConfigList(cfg: Config, path: string): (r: Result<seq<Option<Config>>, ConfigError>)
    ensures Read(cfg, path) == Success(Null) ==> r == Success([])
    ensures forall items :: Read(cfg, path) == Success(List(items)) ==>
              r == ConfigsOf(items, cfg.rootPath + path + ".")
    ensures r.Success? ==> Read(cfg, path).Success? && (Read(cfg, path).value.Null? || Read(cfg, path).value.List?)
  {
    match Read(cfg, path)
    case Failure(e) => Failure(e)
    case Success(Null) => Success([])
    case Success(List(items)) => ConfigsOf(items, cfg.rootPath + path + ".")
    case Success(_) => Failure(ClassCast)
  }

  /** `getStringList`: empty when nothing is there, else the list itself. */
  function GetStringList(cfg: Config, path: string): (r: Result<seq<Value>, ConfigError>)
    ensures Read(cfg, path) == Success(Null) ==> r == Success([])
    ensures forall items :: Read(cfg, path) == Success(List(items)) ==> r == Success(items)
    ensures r.Success? ==> Read(cfg, path).Success? && (Read(cfg, path).value.Null? || Read(cfg, path).value.List?)
  {
    match Read(cfg, path)
    case Failure(e) => Failure(e)
    case Success(Null) => Success([])
    case Success(List(items)) => Success(items)
    case Success(_) => Failure(ClassCast)
  }

  lemma {:induction false} JoinAppend(p: seq<string>, q: seq<string>)
    requires |p| >= 1 && |q| >= 1
    ensures Join(p + q) == Join(p) + "." + Join(q)
    decreases p
  {
    assert (p + q)[0] == p[0];
    if |p| == 1 {
      assert (p + q)[1..] == q;
    } else {
      assert (p + q)[1..] == p[1..] + q;
      JoinAppend(p[1..], q);
    }
  }

  lemma {:induction false} AtAppend(conf: Conf, p: seq<string>, q: seq<string>, sub: Conf)
    requires |p| >= 1 && |q| >= 1
    requires Resolves(conf, p) && At(conf, p) == Some(Map(sub)) && Resolves(sub, q)
    ensures Resolves(conf, p + q) && At(conf, p + q) == At(sub, q)
    decreases p
  {
    assert (p + q)[0] == p[0];
    if |p| == 1 {
      assert (p + q)[1..] == q;
    } else {
      assert (p + q)[1..] == p[1..] + q;
      AtAppend(conf[p[0]].entries, p[1..], q, sub);
    }
  }

  /**
   * Along a path `q` that resolves inside the sub-config, the sub-config is a
   * view: reading `q` in `getConfig(p)` reads `p.q` in the whole config, and a
   * system property overrides it under the same full name.
   */
  lemma SubConfigIsView(cfg: Config, properties: map<string, string>, p: seq<string>, q: seq<string>, sub: Conf)
    requires IsKeyPath(p) && Resolves(cfg.conf, p) && At(cfg.conf, p) == Some(Map(sub))
    requires IsKeyPath(q) && q[|q| - 1] != "" && Resolves(sub, q)
    ensures GetConfig(cfg, Join(p)) == Success(Some(Config(sub, cfg.rootPath + Join(p) + ".")))
    ensures var c := Config(sub, cfg.rootPath + Join(p) + ".");
      && Read(c, Join(q)) == Read(cfg, Join(p + q))
      && c.rootPath + Join(q) == cfg.rootPath + Join(p + q)
      && GetString(c, properties, Join(q)) == GetString(cfg, properties, Join(p + q))
  {
    var c := Config(sub, cfg.rootPath + Join(p) + ".");
    SubConfigOf(cfg, p, sub);
    SubConfigReads(cfg, p, q, sub, c.rootPath);
    RootPathAppend(cfg.rootPath, p, q);
    GetStringAgrees(c, Join(q), cfg, Join(p + q), properties);
  }

  lemma SubConfigReads(cfg: Config, p: seq<string>, q: seq<string>, sub: Conf, rootPath: string)
    requires IsKeyPath(p) && Resolves(cfg.conf, p) && At(cfg.conf, p) == Some(Map(sub))
    requires IsKeyPath(q) && q[|q| - 1] != "" && Resolves(sub, q)
    ensures Read(Config(sub, rootPath), Join(q)) == Read(cfg, Join(p + q))
  {
    ReadNested(Config(sub, rootPath), q);
    AtAppend(cfg.conf, p, q, sub);
    KeyPathAppend(p, q);
    ReadNested(cfg, p + q);
  }

  /**
   * Off such a path the view breaks: when the walk inside the sub-config finds
   * a key missing, the last segment is looked up in the sub-config's own map,
   * while reading `p.q` in the whole config looks it up in the root map.
   */
  lemma SubConfigFallsBackToOwnMap(cfg: Config, p: seq<string>, q: seq<string>, sub: Conf, i: nat, m: Conf)
    requires IsKeyPath(p) && Resolves(cfg.conf, p) && At(cfg.conf, p) == Some(Map(sub))
    requires IsKeyPath(q) && i < |q| - 1 && Walk(sub, q[..i]) == Success(Some(m)) && Get(m, q[i]) == Null
    ensures GetConfig(cfg, Join(p)) == Success(Some(Config(sub, cfg.rootPath + Join(p) + ".")))
    ensures Read(Config(sub, cfg.rootPath + Join(p) + "."), Join(q)) == Success(Get(sub, q[|q| - 1]))
    ensures Read(cfg, Join(p + q)) == Success(Get(cfg.conf, q[|q| - 1]))
  {
    SubConfigOf(cfg, p, sub);
    ReadFallsBackToRoot(Config(sub, cfg.rootPath + Join(p) + "."), q, i, m);
    WholeReadFallsBack(cfg, p, q, sub, i, m);
  }

  /** `getConfig` of a path that resolves to a map is the sub-config over that map. */
  lemma SubConfigOf(cfg: Config, p: seq<string>, sub: Conf)
    requires IsKeyPath(p) && Resolves(cfg.conf, p) && At(cfg.conf, p) == Some(Map(sub))
    ensures GetConfig(cfg, Join(p)) == Success(Some(Config(sub, cfg.rootPath + Join(p) + ".")))
  {
    ReadNested(cfg, p);
  }

  /** A key missing below the sub-config's map sends the read of `p.q` in the whole config to the root map. */
  lemma WholeReadFallsBack(cfg: Config, p: seq<string>, q: seq<string>, sub: Conf, i: nat, m: Conf)
    requires IsKeyPath(p) && Resolves(cfg.conf, p) && At(cfg.conf, p) == Some(Map(sub))
    requires IsKeyPath(q) && i < |q| - 1 && Walk(sub, q[..i]) == Success(Some(m)) && Get(m, q[i]) == Null
    ensures Read(cfg, Join(p + q)) == Success(Get(cfg.conf, q[|q| - 1]))
  {
    WalkThroughSub(cfg.conf, p, sub, q[..i], m);
    AppendParts(p, q, i);
    KeyPathAppend(p, q);
    FallsBackToRootAt(cfg, p + q, |p| + i, m, q[|q| - 1]);
  }

  /** `ReadFallsBackToRoot` with the last segment given by name, so that callers need not index into `keys`. */
  lemma FallsBackToRootAt(cfg: Config, keys: seq<string>, j: nat, m: Conf, last: string)
    requires IsKeyPath(keys) && j < |keys| - 1 && keys[|keys| - 1] == last
    requires Walk(cfg.conf, keys[..j]) == Success(Some(m)) && Get(m, keys[j]) == Null
    ensures Read(cfg, Join(keys)) == Success(Get(cfg.conf, last))
  {
    ReadFallsBackToRoot(cfg, keys, j, m);
  }

  lemma WalkThroughSub(conf: Conf, p: seq<string>, sub: Conf, a: seq<string>, m: Conf)
    requires |p| >= 1 && Resolves(conf, p) && At(conf, p) == Some(Map(sub)) && Walk(sub, a) == Success(Some(m))
    ensures Walk(conf, p + a) == Success(Some(m))
  {
    WalkToMap(conf, p, sub);
    WalkAppend(conf, p, a);
  }

  lemma AppendParts(p: seq<string>, q: seq<string>, i: nat)
    requires i < |q|
    ensures (p + q)[..|p| + i] == p + q[..i]
    ensures (p + q)[|p| + i] == q[i]
    ensures (p + q)[|p + q| - 1] == q[|q| - 1]
  {
  }

  /** The two reads differ: in `{a: {x: 1}, y: 2}`, `a` then `m.y` is null, but `a.m.y` is 2. */
  lemma SubConfigDiverges()
    ensures var cfg := Config(map["a" := Map(map["x" := Num(1)]), "y" := Num(2)], "");
      && GetConfig(cfg, "a") == Success(Some(Config(map["x" := Num(1)], "a.")))
      && Read(Config(map["x" := Num(1)], "a."), "m.y") == Success(Null)
      && Read(cfg, "a.m.y") == Success(Num(2))
  {
    var cfg := Config(map["a" := Map(map["x" := Num(1)]), "y" := Num(2)], "");
    assert Join(["a"]) == "a";
    assert cfg.rootPath + Join(["a"]) + "." == "a.";
    assert Join(["m", "y"]) == "m.y";
    assert Join(["a", "m", "y"]) == "a.m.y";
    assert ["a"] + ["m", "y"] == ["a", "m", "y"];
    assert Walk(map["x" := Num(1)], ["m", "y"][..0]) == Success(Some(map["x" := Num(1)]));
    SubConfigFallsBackToOwnMap(cfg, ["a"], ["m", "y"], map["x" := Num(1)], 0, map["x" := Num(1)]);
  }

  /** Following every key of a path that ends on a map reaches that map. */
  lemma {:induction false} WalkToMap(conf: Conf, p: seq<string>, sub: Conf)
    requires |p| >= 1 && Resolves(conf, p) && At(conf, p) == Some(Map(sub))
    ensures Walk(conf, p) == Success(Some(sub))
    decreases p
  {
    if |p| == 1 {
      assert p[1..] == [];
    } else {
      WalkToMap(conf[p[0]].entries, p[1..], sub);
    }
  }

  /** The sub-config's prefix followed by `q` is the whole config's prefix followed by `p.q`. */
  lemma RootPathAppend(rootPath: string, p: seq<string>, q: seq<string>)
    requires |p| >= 1 && |q| >= 1
    ensures rootPath + Join(p) + "." + Join(q) == rootPath + Join(p + q)
  {
    JoinAppend(p, q);
  }

  lemma KeyPathAppend(p: seq<string>, q: seq<string>)
    requires IsKeyPath(p) && IsKeyPath(q) && q[|q| - 1] != ""
    ensures IsKeyPath(p + q)
  {
    assert forall i | 0 <= i < |p + q| :: (p + q)[i] == if i < |p| then p[i] else q[i - |p|];
  }

  lemma GetStringAgrees(c1: Config, path1: string, c2: Config, path2: string, properties: map<string, string>)
    requires c1.rootPath + path1 == c2.rootPath + path2 && Read(c1, path1) == Read(c2, path2)
    ensures GetString(c1, properties, path1) == GetString(c2, properties, path2)
  {
  }

  // ---------------------------------------------------------------------------
  // What a merge keeps
  // ---------------------------------------------------------------------------

  /** A merge never loses a value: every nested path of the original is still there. */
  lemma {:induction false} MergeKeepsPaths(original: Conf, newMap: Conf, keys: seq<string>)
    requires MergedMaps(original, newMap).Success?
    requires |keys| >= 1 && At(original, keys).Some?
    ensures At(MergedMaps(original, newMap).value, keys).Some?
    decreases |keys|
  {
    var merged := MergedMaps(original, newMap).value;
    var k := keys[0];
    if |keys| > 1 {
      MergedKeyOutcome(original, newMap, k);
      if k in newMap {
        var m := original[k].entries;
        var n := newMap[k].entries;
        MergeKeepsPaths(m, n, keys[1..]);
      }
    }
  }

  /** Every nested path of the merged-in map is there after the merge. */
  lemma {:induction false} MergeAddsPaths(original: Conf, newMap: Conf, keys: seq<string>)
    requires MergedMaps(original, newMap).Success?
    requires |keys| >= 1 && At(newMap, keys).Some?
    ensures At(MergedMaps(original, newMap).value, keys).Some?
    decreases |keys|
  {
    var k := keys[0];
    if |keys| > 1 {
      MergedKeyOutcome(original, newMap, k);
      if k in original && original[k].Map? {
        MergeAddsPaths(original[k].entries, newMap[k].entries, keys[1..]);
      }
    }
  }
}
