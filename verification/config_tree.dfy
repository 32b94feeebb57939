/** `ConfigManager`: a JSON configuration tree read and written through
    dot-separated key paths such as `"database.host"`. */
module ConfigTree {
  import opened Common
  import opened Text

  /** A JSON value as `json.load` produces it; objects are Python dicts. */
  datatype Json =
    | Object(fields: map<string, Json>)
    | Str(s: string)
    | Num(n: real)
    | Bool(b: bool)
    | List(items: seq<Json>)
    | Null

  /** The connection block used when the configuration has none. */
  const DefaultDatabase: Json := Object(map[
    "host" := Str("localhost"),
    "database" := Str("daily_tracker"),
    "user" := Str("root"),
    "password" := Str("")])

  /** The configuration used when no file can be read. */
  const DefaultConfig: Json := Object(map[
    "database" := DefaultDatabase,
    "ui" := Object(map[
      "theme" := Str("default"),
      "window_size" := Str("1200x800"),
      "auto_refresh" := Bool(true)]),
    "chart" := Object(map[
      "default_chart" := Str("weight"),
      "date_format" := Str("%m-%d"),
      "chart_colors" := List([Str("#1f77b4"), Str("#ff7f0e"), Str("#2ca02c")])])])

  /** The segments of a key path. */
  function Keys(path: string): (keys: seq<string>)
    ensures |keys| >= 1
  {
    Split(path, '.')
  }

  /** The value found by following `keys` from `node`, descending only
      through objects; None as soon as a segment is missing or the current
      value is not an object. */
  function Lookup(node: Json, keys: seq<string>): (r: Option<Json>)
    ensures keys == [] ==> r == Some(node)
    ensures keys != [] && r.Some? ==> node.Object? && keys[0] in node.fields
    ensures |keys| == 1 ==> r == if node.Object? && keys[0] in node.fields then Some(node.fields[keys[0]]) else None
    decreases |keys|
  {
    if keys == [] then Some(node)
    else if node.Object? && keys[0] in node.fields then Lookup(node.fields[keys[0]], keys[1..])
    else None
  }

  /** The child `set` descends into: the existing entry, or the empty dict
      it inserts for a missing key. */
  function Child(node: Json, key: string): Json
    requires node.Object?
  {
    if key in node.fields then node.fields[key] else Object(map[])
  }

  /** The condition under which `set` succeeds: the node it starts from is
      a dict, and so is every existing entry it descends through. */
  predicate Settable(node: Json, keys: seq<string>)
    decreases |keys|
  {
    && |keys| >= 1
    && node.Object?
    && (|keys| > 1 && keys[0] in node.fields ==> Settable(node.fields[keys[0]], keys[1..]))
  }

  /** The tree `set` leaves behind: `v` stored under the last segment, every
      dict on the way rebuilt with its other entries kept. */
  function Update(node: Json, keys: seq<string>, v: Json): (r: Json)
    requires Settable(node, keys)
    ensures r.Object?
    decreases |keys|
  {
    if |keys| == 1 then Object(node.fields[keys[0] := v])
    else Object(node.fields[keys[0] := Update(Child(node, keys[0]), keys[1..], v)])
  }

  /** Reading a path just written gives the value written. */
  lemma {:induction false} LookupAfterUpdate(node: Json, keys: seq<string>, v: Json)
    requires Settable(node, keys)
    ensures Lookup(Update(node, keys, v), keys) == Some(v)
    decreases |keys|
  {
    if |keys| > 1 {
      LookupAfterUpdate(Child(node, keys[0]), keys[1..], v);
    }
  }

  /** A path that parts from the written one at some segment reads the same
      value as before the write: siblings and other branches are kept. */
  lemma {:induction false} UpdateKeepsOtherPaths(node: Json, keys: seq<string>, v: Json, p: seq<string>, j: nat)
    requires Settable(node, keys)
    requires j < |p| && j < |keys| && p[j] != keys[j]
    ensures Lookup(Update(node, keys, v), p) == Lookup(node, p)
    decreases |keys|
  {
    if j > 0 && p[0] == keys[0] {
      var c := Child(node, keys[0]);
      UpdateKeepsOtherPaths(c, keys[1..], v, p[1..], j - 1);
      if keys[0] !in node.fields {
        assert Lookup(Object(map[]), p[1..]) == None;
      }
    }
  }

  /** Every dict on the written path exists afterwards and holds the next
      segment. One that was missing before is a new dict holding only that
      segment; one that existed keeps all its other entries. */
  lemma {:induction false} UpdateIntermediates(node: Json, keys: seq<string>, v: Json, j: nat)
    requires Settable(node, keys)
    requires j < |keys|
    ensures Lookup(Update(node, keys, v), keys[..j]).Some?
    ensures var after := Lookup(Update(node, keys, v), keys[..j]).value;
      var before := Lookup(node, keys[..j]);
      && after.Object? && keys[j] in after.fields
      && (before.None? ==> after.fields.Keys == {keys[j]})
      && (before.Some? ==>
            && before.value.Object?
            && after.fields.Keys == before.value.fields.Keys + {keys[j]}
            && (forall k :: k in before.value.fields && k != keys[j] ==> after.fields[k] == before.value.fields[k]))
    decreases |keys|
  {
    if j > 0 {
      var c := Child(node, keys[0]);
      UpdateIntermediates(c, keys[1..], v, j - 1);
      assert keys[..j][1..] == keys[1..][..j - 1];
      if keys[0] !in node.fields && j > 1 {
        assert Lookup(Object(map[]), keys[1..][..j - 1]) == None;
      }
    }
  }

  /** `keys[:-1]` of the source's `set` loop walked from `node`: the dict
      the loop arrives at after `i` steps. */
  function Descend(node: Json, keys: seq<string>, i: nat): (n: Json)
    requires Settable(node, keys) && i < |keys|
    ensures Settable(n, keys[i..])
    decreases i
  {
    if i == 0 then node else Descend(Child(node, keys[0]), keys[1..], i - 1)
  }

  /** A path without dots is a single segment. */
  lemma SingleSegment(key: string)
    requires '.' !in key
    ensures Keys(key) == [key]
  {
    SplitPiece(key, [], '.');
  }

  class ConfigManager {
    /** `self.config`. */
    var config: Json

    /** `__init__` with `load_config`: `loaded` is what `json.load` read
        from the configuration file, None when the file is absent or
        cannot be read, in which case the defaults are used. */
    constructor(loaded: Option<Json>)
      ensures config == (if loaded.Some? then loaded.value else DefaultConfig)
    {
      config := if loaded.Some? then loaded.value else DefaultConfig;
    }

    /** `get(key_path, default)`: the value stored under the path, or
        `default` when the path does not lead to one. */
    method Get(path: string, default: Json) returns (r: Json)
      ensures Lookup(config, Keys(path)).Some? ==> r == Lookup(config, Keys(path)).value
      ensures Lookup(config, Keys(path)).None? ==> r == default
    {
      var keys := Keys(path);
      var value := config;
      var i := 0;
      while i < |keys|
        invariant 0 <= i <= |keys|
        invariant Lookup(config, keys) == Lookup(value, keys[i..])
      {
        if value.Object? && keys[i] in value.fields {
          assert keys[i..][1..] == keys[i + 1..];
          value := value.fields[keys[i]];
          i := i + 1;
        } else {
          return default;
        }
      }
      return value;
    }

    /** `set(key_path, value)`: stores `v` under the path, inserting an
        empty dict for each missing segment on the way. The source walks
        down to the last dict and assigns into it; the walk is kept, and
        the assignment is carried back up the recorded path. */
    method Set(path: string, v: Json)
      requires Settable(config, Keys(path))
      modifies this
      ensures config == Update(old(config), Keys(path), v)
    {
      var keys := Keys(path);
      var root := config;
      var last := |keys| - 1;
      var nodes: seq<Json> := [root];
      var i := 0;
      while i < last
        invariant 0 <= i <= last
        invariant |nodes| == i + 1
        invariant forall j :: 0 <= j <= i ==> nodes[j] == Descend(root, keys, j)
      {
        DescendStep(root, keys, i);
        nodes := nodes + [Child(nodes[i], keys[i])];
        i := i + 1;
      }
      var acc := Object(nodes[last].fields[keys[last] := v]);
      assert keys[last..] == [keys[last]];
      while i > 0
        invariant 0 <= i <= last
        invariant |nodes| == last + 1
        invariant forall j :: 0 <= j <= last ==> nodes[j] == Descend(root, keys, j)
        invariant acc == Update(Descend(root, keys, i), keys[i..], v)
      {
        DescendStep(root, keys, i - 1);
        assert keys[i - 1..][1..] == keys[i..];
        acc := Object(nodes[i - 1].fields[keys[i - 1] := acc]);
        i := i - 1;
      }
      config := acc;
    }

    /** `get_database_config()`: the configuration's `database` block, or
        the default block when there is none. */
    method GetDatabaseConfig() returns (r: Json)
      ensures config.Object? && "database" in config.fields ==> r == config.fields["database"]
      ensures !(config.Object? && "database" in config.fields) ==> r == DefaultDatabase
    {
      SingleSegment("database");
      r := Get("database", DefaultDatabase);
    }
  }

  /** One more step of the walk descends into the child of the current
      segment. */
  lemma {:induction false} DescendStep(node: Json, keys: seq<string>, i: nat)
    requires Settable(node, keys) && i + 1 < |keys|
    ensures Descend(node, keys, i + 1) == Child(Descend(node, keys, i), keys[i])
    decreases i
  {
    if i > 0 {
      DescendStep(Child(node, keys[0]), keys[1..], i - 1);
    }
  }

  /** After a `set`, `get` of the same path returns the value set, and any
      path that parts from it returns what it returned before. */
  lemma GetAfterSet(before: Json, path: string, v: Json, other: string, j: nat)
    requires Settable(before, Keys(path))
    ensures Lookup(Update(before, Keys(path), v), Keys(path)) == Some(v)
    ensures j < |Keys(other)| && j < |Keys(path)| && Keys(other)[j] != Keys(path)[j] ==>
      Lookup(Update(before, Keys(path), v), Keys(other)) == Lookup(before, Keys(other))
  {
    LookupAfterUpdate(before, Keys(path), v);
    if j < |Keys(other)| && j < |Keys(path)| && Keys(other)[j] != Keys(path)[j] {
      UpdateKeepsOtherPaths(before, Keys(path), v, Keys(other), j);
    }
  }
}
