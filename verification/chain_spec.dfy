/** The chain-spec side of main.ts: the JSON document, the `readSpec` shape
    check, reading the seed balances in merge mode, `makeBalancesConfig`
    and `doMigrateBalances`, which splices the migrated balances into
    `genesis.runtime.balances.balances` and leaves the rest alone. */
module ChainSpec {
  import opened Outcomes
  import opened Errors
  import opened Ss58
  import opened Config
  import opened Accounts
  import opened Balances

  /** A parsed JSON value. Numbers are parsed as BigInts, so they are
      integers. */
  datatype Json =
    | JNull
    | JBool(b: bool)
    | JNum(n: int)
    | JStr(s: string)
    | JArr(items: seq<Json>)
    | JObj(fields: map<string, Json>)

  /** `readSpec` after parsing: only a non-null, non-array object is a spec. */
  function ReadSpec(content: Json): (r: Result<Json, MigrationError>)
    ensures r.Success? <==> content.JObj?
    ensures r.Success? ==> r.value == content
    ensures r.Failure? ==> r.error == InvalidSpec
  {
    if content.JObj? then Success(content) else Failure(InvalidSpec)
  }

  /** The value at `path`, following object fields; `None` when a field is
      missing or a step lands on a non-object. */
  function Get(j: Json, path: seq<string>): Option<Json>
    decreases |path|
  {
    if |path| == 0 then Some(j)
    else if j.JObj? && path[0] in j.fields then Get(j.fields[path[0]], path[1..])
    else None
  }

  /** `j.a.b....z = v` in strict-mode JavaScript: every field read on the
      way must find an object, since a missing field reads as `undefined`,
      whose properties can be neither read nor set. At the end an object
      gets the field created or overwritten; an array takes it as a named
      property, which its JSON text does not show, so the document is
      unchanged; `null` and scalars throw. */
  function Set(j: Json, path: seq<string>, v: Json): (r: Result<Json, MigrationError>)
    requires |path| > 0
    ensures r.Failure? ==> r.error == InvalidSpec
    decreases |path|
  {
    if |path| == 1 then
      if j.JObj? then Success(JObj(j.fields[path[0] := v]))
      else if j.JArr? then Success(j)
      else Failure(InvalidSpec)
    else if !j.JObj? || path[0] !in j.fields then Failure(InvalidSpec)
    else
      match Set(j.fields[path[0]], path[1..], v)
      case Failure(e) => Failure(e)
      case Success(child) => Success(JObj(j.fields[path[0] := child]))
  }

  /** Two paths that part ways at some position: neither is a prefix of
      the other. */
  predicate Diverge(p: seq<string>, q: seq<string>)
    decreases |p|
  {
    |p| > 0 && |q| > 0 && (p[0] != q[0] || Diverge(p[1..], q[1..]))
  }

  /** An assignment succeeds exactly when every object above the target
      exists and the target's parent is an object or an array... */
  lemma {:induction false} SetSucceedsIffParentsExist(j: Json, path: seq<string>, v: Json)
    requires |path| > 0
    ensures Set(j, path, v).Success? <==>
              var parent := Get(j, path[..|path| - 1]);
              parent.Some? && (parent.value.JObj? || parent.value.JArr?)
    decreases |path|
  {
    if j.JObj? && |path| > 1 {
      assert path[..|path| - 1][0] == path[0] && path[..|path| - 1][1..] == path[1..][..|path| - 2];
      if path[0] in j.fields {
        SetSucceedsIffParentsExist(j.fields[path[0]], path[1..], v);
      }
    }
  }

  /** ...after which the target reads back as the assigned value when the
      parent is an object, and the document is unchanged when it is an
      array... */
  lemma {:induction false} GetAfterSet(j: Json, path: seq<string>, v: Json)
    requires |path| > 0 && Set(j, path, v).Success?
    ensures var parent := Get(j, path[..|path| - 1]);
            && parent.Some?
            && (parent.value.JObj? ==> Get(Set(j, path, v).value, path) == Some(v))
            && (parent.value.JArr? ==> Set(j, path, v).value == j)
    decreases |path|
  {
    if |path| > 1 {
      assert path[..|path| - 1][0] == path[0] && path[..|path| - 1][1..] == path[1..][..|path| - 2];
      GetAfterSet(j.fields[path[0]], path[1..], v);
      var child := Set(j.fields[path[0]], path[1..], v).value;
      if child == j.fields[path[0]] {
        assert j.fields[path[0] := child] == j.fields;
      }
    }
  }

  /** ...and every path that parts ways with the target reads as before. */
  lemma {:induction false} SetLeavesOthers(j: Json, path: seq<string>, v: Json, q: seq<string>)
    requires |path| > 0 && Set(j, path, v).Success? && Diverge(path, q)
    ensures Get(Set(j, path, v).value, q) == Get(j, q)
    decreases |path|
  {
    if path[0] == q[0] {
      SetLeavesOthers(j.fields[path[0]], path[1..], v, q[1..]);
    }
  }

  /** Reading one field further down. */
  lemma {:induction false} GetExtend(j: Json, path: seq<string>, key: string)
    ensures Get(j, path + [key]) ==
              match Get(j, path)
              case Some(JObj(fields)) => if key in fields then Some(fields[key]) else None
              case _ => None
    decreases |path|
  {
    if |path| > 0 {
      assert (path + [key])[0] == path[0] && (path + [key])[1..] == path[1..] + [key];
      if j.JObj? && path[0] in j.fields {
        GetExtend(j.fields[path[0]], path[1..], key);
      }
    } else {
      assert path + [key] == [key] && [key][1..] == [];
    }
  }

  const BalancesPath: seq<string> := ["genesis", "runtime", "balances", "balances"]

  /** One `[address, amount]` entry of the balances list. */
  predicate IsPair(j: Json) {
    j.JArr? && |j.items| == 2 && j.items[0].JStr? && j.items[1].JNum?
  }

  function PairOf(j: Json): (string, int)
    requires IsPair(j)
  {
    (j.items[0].s, j.items[1].n)
  }

  function PairsToJson(pairs: seq<(string, int)>): (j: Json)
    ensures j.JArr? && |j.items| == |pairs|
    ensures forall i :: 0 <= i < |pairs| ==> IsPair(j.items[i]) && PairOf(j.items[i]) == pairs[i]
  {
    JArr(seq(|pairs|, i requires 0 <= i < |pairs| => JArr([JStr(pairs[i].0), JNum(pairs[i].1)])))
  }

  /** The balances list as `new Map(...)` takes it: an array of
      `[address, amount]` entries. */
  function PairsFromJson(j: Json): (r: Result<seq<(string, int)>, MigrationError>)
    ensures r.Success? <==> j.JArr? && forall i :: 0 <= i < |j.items| ==> IsPair(j.items[i])
    ensures r.Success? ==> |r.value| == |j.items|
    ensures r.Success? ==> forall i :: 0 <= i < |j.items| ==> r.value[i] == PairOf(j.items[i])
    ensures r.Failure? ==> r.error == InvalidSpec
  {
    if j.JArr? && forall i :: 0 <= i < |j.items| ==> IsPair(j.items[i]) then
      Success(seq(|j.items|, i requires 0 <= i < |j.items| => PairOf(j.items[i])))
    else Failure(InvalidSpec)
  }

  lemma PairsRoundTrip(pairs: seq<(string, int)>)
    ensures PairsFromJson(PairsToJson(pairs)) == Success(pairs)
  {
    var r := PairsFromJson(PairsToJson(pairs));
    assert r.Success?;
    assert r.value == pairs;
  }

  /** `v[key]` in JavaScript: reading a property of `undefined` (`None`)
      or `null` throws; an object yields its field, or `undefined` when it
      has none; arrays and scalars have no property of the names read
      here, so they yield `undefined`. */
  function Prop(v: Option<Json>, key: string): (r: Result<Option<Json>, MigrationError>)
    ensures r.Failure? <==> v.None? || v.value.JNull?
    ensures r.Failure? ==> r.error == InvalidSpec
    ensures r.Success? ==> (r.value.Some? <==> v.value.JObj? && key in v.value.fields)
    ensures r.Success? && r.value.Some? ==> r.value.value == v.value.fields[key]
  {
    match v
    case None => Failure(InvalidSpec)
    case Some(JNull) => Failure(InvalidSpec)
    case Some(JObj(fields)) => Success(if key in fields then Some(fields[key]) else None)
    case Some(_) => Success(None)
  }

  /** `v.p0.p1....` evaluated left to right, stopping at the first throw. */
  function ReadPath(v: Option<Json>, path: seq<string>): Result<Option<Json>, MigrationError>
    decreases |path|
  {
    if |path| == 0 then Success(v)
    else
      var next :- Prop(v, path[0]);
      ReadPath(next, path[1..])
  }

  lemma ReadPathFromUndefined(path: seq<string>)
    requires |path| > 0
    ensures ReadPath(None, path) == Failure(InvalidSpec)
  {
  }

  /** Reading one property below a path throws exactly when the path does
      not lead to a value, or leads to `null`; otherwise it is that
      value's property. */
  lemma {:induction false} ReadPathBelow(j: Json, path: seq<string>, key: string)
    ensures ReadPath(Some(j), path + [key]) ==
              match Get(j, path)
              case None => Failure(InvalidSpec)
              case Some(parent) => Prop(Some(parent), key)
    decreases |path|
  {
    if |path| == 0 {
      assert path + [key] == [key] && [key][1..] == [];
    } else {
      var rest := path[1..] + [key];
      assert (path + [key])[0] == path[0] && (path + [key])[1..] == rest;
      if j.JObj? && path[0] in j.fields {
        ReadPathBelow(j.fields[path[0]], path[1..], key);
      } else if !j.JNull? {
        ReadPathFromUndefined(rest);
      }
    }
  }

  /** `inputSpec.genesis.runtime.balances.balances` in merge mode, passed
      to `mapBalances` as `initial`: the read throws unless
      `genesis.runtime.balances` holds a non-null value; an absent or null
      list seeds nothing (`initial ?? []`), and so does a list read off an
      array or a scalar, which has no such property. */
  function ReadSeed(spec: Json): (r: Result<Option<seq<(string, int)>>, MigrationError>)
    ensures Get(spec, BalancesPath[..3]).None? || Get(spec, BalancesPath[..3]) == Some(JNull) ==> r == Failure(InvalidSpec)
    ensures (&& Get(spec, BalancesPath[..3]).Some? && Get(spec, BalancesPath[..3]) != Some(JNull)
             && (Get(spec, BalancesPath).None? || Get(spec, BalancesPath) == Some(JNull))) ==> r == Success(None)
    ensures (Get(spec, BalancesPath).Some? && Get(spec, BalancesPath).value != JNull) ==>
              r == (match PairsFromJson(Get(spec, BalancesPath).value)
                    case Failure(e) => Failure(e)
                    case Success(pairs) => Success(Some(pairs)))
  {
    GetExtend(spec, BalancesPath[..3], "balances");
    ReadPathBelow(spec, BalancesPath[..3], "balances");
    assert BalancesPath[..3] + ["balances"] == BalancesPath;
    var list :- ReadPath(Some(spec), BalancesPath);
    if list.None? || list.value.JNull? then Success(None)
    else
      var pairs :- PairsFromJson(list.value);
      Success(Some(pairs))
  }

  /** Keys of a list of pairs, pairwise distinct. */
  predicate DistinctKeys(pairs: seq<(string, int)>) {
    forall i, j :: 0 <= i < j < |pairs| ==> pairs[i].0 != pairs[j].0
  }

  /** The loop state of `makeBalancesConfig`: the pairs emitted so far
      and the entries still to go split the map between them. */
  predicate EmittedSoFar(m: BalanceMap, rest: BalanceMap, config: seq<(string, int)>) {
    && rest.Keys <= m.Keys
    && (forall k :: k in rest ==> rest[k] == m[k])
    && (forall i :: 0 <= i < |config| ==> config[i].0 in m && config[i].0 !in rest && config[i].1 == m[config[i].0])
    && DistinctKeys(config)
    && KeysOf(config) + rest.Keys == m.Keys
    && |config| + |rest| == |m|
  }

  lemma EmitOne(m: BalanceMap, rest: BalanceMap, config: seq<(string, int)>, k: string)
    requires EmittedSoFar(m, rest, config) && k in rest
    ensures EmittedSoFar(m, rest - {k}, config + [(k, rest[k])])
  {
    KeysOfAppend(config, (k, rest[k]));
    var config' := config + [(k, rest[k])];
    var rest' := rest - {k};
    assert |rest'| == |rest| - 1;
    assert rest'.Keys == rest.Keys - {k};
    forall i | 0 <= i < |config'|
      ensures config'[i].0 in m && config'[i].0 !in rest' && config'[i].1 == m[config'[i].0]
    {
      if i < |config| {
        assert config'[i] == config[i];
      }
    }
    forall i, j | 0 <= i < j < |config'| ensures config'[i].0 != config'[j].0 {
      assert config'[i] == config[i];
      if j < |config| {
        assert config'[j] == config[j];
      }
    }
  }

  lemma KeyPosition(pairs: seq<(string, int)>, k: string) returns (i: nat)
    requires k in KeysOf(pairs)
    ensures i < |pairs| && pairs[i].0 == k
  {
    i :| 0 <= i < |pairs| && pairs[i].0 == k;
  }

  lemma DistinctIsLast(pairs: seq<(string, int)>, i: nat)
    requires DistinctKeys(pairs) && i < |pairs|
    ensures LastWithKey(pairs, i)
  {
  }

  lemma EmittedAll(m: BalanceMap, config: seq<(string, int)>)
    requires EmittedSoFar(m, map[], config)
    ensures SeedMap(config) == m
  {
    var seeded := SeedMap(config);
    assert seeded.Keys == m.Keys;
    forall k | k in m ensures seeded[k] == m[k] {
      var i := KeyPosition(config, k);
      DistinctIsLast(config, i);
    }
  }

  /** `makeBalancesConfig`: one `[address, balance]` pair per entry of the
      map, so that `new Map(config)` gives the map back. */
  method MakeBalancesConfig(m: BalanceMap) returns (config: seq<(string, int)>)
    ensures |config| == |m|
    ensures DistinctKeys(config)
    ensures forall i :: 0 <= i < |config| ==> config[i].0 in m && config[i].1 == m[config[i].0]
    ensures KeysOf(config) == m.Keys
    ensures SeedMap(config) == m
  {
    var rest := m;
    config := [];
    while rest != map[]
      invariant EmittedSoFar(m, rest, config)
      decreases |rest|
    {
      var k :| k in rest;
      EmitOne(m, rest, config, k);
      config := config + [(k, rest[k])];
      rest := rest - {k};
    }
    EmittedAll(m, config);
  }

  /** The assignment at the end of `doMigrateBalances`, on its own. */
  lemma BalancesWritten(spec: Json, balances: seq<(string, int)>)
    requires Set(spec, BalancesPath, PairsToJson(balances)).Success?
    ensures var parent := Get(spec, BalancesPath[..3]);
            var out := Set(spec, BalancesPath, PairsToJson(balances)).value;
            && parent.Some?
            && (parent.value.JObj? ==> Get(out, BalancesPath).Some? && PairsFromJson(Get(out, BalancesPath).value) == Success(balances))
            && (parent.value.JArr? ==> out == spec)
            && forall q :: Diverge(BalancesPath, q) ==> Get(out, q) == Get(spec, q)
  {
    var listed := PairsToJson(balances);
    assert BalancesPath[..|BalancesPath| - 1] == BalancesPath[..3];
    GetAfterSet(spec, BalancesPath, listed);
    PairsRoundTrip(balances);
    forall q | Diverge(BalancesPath, q) ensures Get(Set(spec, BalancesPath, listed).value, q) == Get(spec, q) {
      SetLeavesOthers(spec, BalancesPath, listed, q);
    }
  }

  /** The last two steps of `doMigrateBalances`: turn the migrated map into
      the balances list and assign it to `genesis.runtime.balances.balances`.
      The assignment succeeds iff the objects above the list exist and the
      list's parent is an object or an array. Onto an object the list reads
      back as the map; onto an array the document stays as it was. Paths
      that part ways with the list's are untouched. */
  method WriteBalances(spec: Json, m: BalanceMap) returns (r: Result<Json, MigrationError>)
    ensures var parent := Get(spec, BalancesPath[..3]);
            r.Success? <==> parent.Some? && (parent.value.JObj? || parent.value.JArr?)
    ensures r.Failure? ==> r.error == InvalidSpec
    ensures r.Success? ==>
              var parent := Get(spec, BalancesPath[..3]);
              var written := Get(r.value, BalancesPath);
              && (parent.value.JObj? ==>
                    && written.Some?
                    && PairsFromJson(written.value).Success?
                    && SeedMap(PairsFromJson(written.value).value) == m)
              && (parent.value.JArr? ==> r.value == spec)
    ensures r.Success? ==> forall q :: Diverge(BalancesPath, q) ==> Get(r.value, q) == Get(spec, q)
  {
    var balances := MakeBalancesConfig(m);
    assert BalancesPath[..|BalancesPath| - 1] == BalancesPath[..3];
    SetSucceedsIffParentsExist(spec, BalancesPath, PairsToJson(balances));
    r := Set(spec, BalancesPath, PairsToJson(balances));
    if r.Success? {
      BalancesWritten(spec, balances);
    }
  }

  /** `doMigrateBalances`: in merge mode seed from the spec's balances, run
      `mapBalances`, and assign the resulting list to
      `genesis.runtime.balances.balances`. On success, when the list's
      parent is an object the list reads back as the migrated map; when it
      is an array the assignment does not show in the document, which is
      returned unchanged. Every path that parts ways with the list's is
      unchanged either way. Without merge the spec's existing list is
      ignored. */
  method DoMigrateBalances(source: PageSource, codec: Codec, inputSpec: Json, config: Config, merge: bool, ghost bound: nat)
    returns (r: Result<Json, MigrationError>)
    requires (!merge || ReadSeed(inputSpec).Success?) ==>
               MapBalancesRun(source, codec, if merge then ReadSeed(inputSpec).value else None, BlockingOf(config.blocked), bound).Finished?
    ensures merge && ReadSeed(inputSpec).Failure? ==> r == Failure(ReadSeed(inputSpec).error)
    ensures r.Success? ==> !merge || ReadSeed(inputSpec).Success?
    ensures r.Success? ==>
              var seed := if merge then ReadSeed(inputSpec).value else None;
              var mapped := MapBalancesRun(source, codec, seed, BlockingOf(config.blocked), bound).result;
              var parent := Get(inputSpec, BalancesPath[..3]);
              var written := Get(r.value, BalancesPath);
              && mapped.Success?
              && parent.Some?
              && (parent.value.JObj? ==>
                    && written.Some?
                    && PairsFromJson(written.value).Success?
                    && SeedMap(PairsFromJson(written.value).value) == mapped.value)
              && (parent.value.JArr? ==> r.value == inputSpec)
    ensures r.Success? ==> forall q :: Diverge(BalancesPath, q) ==> Get(r.value, q) == Get(inputSpec, q)
    ensures (!merge || ReadSeed(inputSpec).Success?) ==>
              var seed := if merge then ReadSeed(inputSpec).value else None;
              var parent := Get(inputSpec, BalancesPath[..3]);
              (r.Success? <==>
                 && MapBalancesRun(source, codec, seed, BlockingOf(config.blocked), bound).result.Success?
                 && parent.Some? && (parent.value.JObj? || parent.value.JArr?))
    ensures (!merge || ReadSeed(inputSpec).Success?) ==>
              var seed := if merge then ReadSeed(inputSpec).value else None;
              var mapped := MapBalancesRun(source, codec, seed, BlockingOf(config.blocked), bound).result;
              mapped.Failure? ==> r == Failure(mapped.error)
    ensures (!merge || ReadSeed(inputSpec).Success?) ==>
              var seed := if merge then ReadSeed(inputSpec).value else None;
              var mapped := MapBalancesRun(source, codec, seed, BlockingOf(config.blocked), bound).result;
              var parent := Get(inputSpec, BalancesPath[..3]);
              mapped.Success? && !(parent.Some? && (parent.value.JObj? || parent.value.JArr?)) ==> r == Failure(InvalidSpec)
  {
    var seed: Option<seq<(string, int)>> := None;
    if merge {
      var read := ReadSeed(inputSpec);
      if read.Failure? {
        return Failure(read.error);
      }
      seed := read.value;
    }
    var mapped := MapBalances(source, codec, seed, config.blocked, bound);
    if mapped.Failure? {
      return Failure(mapped.error);
    }
    r := WriteBalances(inputSpec, mapped.value);
    assert seed == if merge then ReadSeed(inputSpec).value else None;
  }
}
