/** `mapBalances` of main.ts: drain the account source, total each account's
    free and reserved balance, redirect blocked accounts into the funnel and
    reject duplicates, starting from the seed balances in merge mode. */
module Balances {
  import opened Outcomes
  import opened Errors
  import opened Ss58
  import opened Config
  import opened Accounts
  import opened JsSemantics

  /** `BalanceMap`: address to amount. Amounts are BigInts; seed amounts come
      from a JSON document and are not known to be non-negative. */
  type BalanceMap = map<string, int>

  ghost function MapSum(m: BalanceMap): int
    decreases |m|
  {
    if |m| == 0 then 0
    else
      var k :| k in m;
      m[k] + MapSum(m - {k})
  }

  /** The key the definition of `MapSum` happens to pick. */
  lemma MapSumUnfold(m: BalanceMap) returns (j: string)
    requires |m| > 0
    ensures j in m && MapSum(m) == m[j] + MapSum(m - {j})
  {
    j :| j in m && MapSum(m) == m[j] + MapSum(m - {j});
  }

  /** The sum does not depend on which key is taken out first. */
  lemma {:induction false} MapSumRemove(m: BalanceMap, k: string)
    requires k in m
    ensures MapSum(m) == m[k] + MapSum(m - {k})
    decreases |m|
  {
    var j := MapSumUnfold(m);
    if j != k {
      var m' := m - {j};
      assert k in m' && |m'| < |m|;
      MapSumRemove(m', k);
      var m'' := m - {k};
      assert j in m'' && |m''| < |m|;
      MapSumRemove(m'', j);
      assert m' - {k} == m'' - {j};
    }
  }

  /** Setting one entry changes the sum by exactly the change of that entry. */
  lemma MapSumUpdate(m: BalanceMap, k: string, v: int)
    ensures MapSum(m[k := v]) == MapSum(m) - Get0(m, k) + v
  {
    MapSumRemove(m[k := v], k);
    if k in m {
      MapSumRemove(m, k);
      assert m[k := v] - {k} == m - {k};
    } else {
      assert m[k := v] - {k} == m;
    }
  }

  /** `balances.get(k) ?? 0n`. */
  function Get0(m: BalanceMap, k: string): int {
    if k in m then m[k] else 0
  }

  /** The amount a record contributes: free plus reserved; the two frozen
      balances never count. */
  function Total(data: BalanceData): nat {
    data.free + data.reserved
  }

  function TotalOf(records: seq<Record>): nat {
    if |records| == 0 then 0 else Total(records[0].data) + TotalOf(records[1..])
  }

  lemma {:induction false} TotalOfConcat(a: seq<Record>, b: seq<Record>)
    ensures TotalOf(a + b) == TotalOf(a) + TotalOf(b)
  {
    if |a| > 0 {
      assert (a + b)[1..] == a[1..] + b;
      TotalOfConcat(a[1..], b);
    } else {
      assert a + b == b;
    }
  }

  /** Pair i of a list is the last pair with its key. */
  predicate LastWithKey(pairs: seq<(string, int)>, i: nat)
    requires i < |pairs|
  {
    forall j :: i < j < |pairs| ==> pairs[j].0 != pairs[i].0
  }

  function KeysOf(pairs: seq<(string, int)>): set<string> {
    set i | 0 <= i < |pairs| :: pairs[i].0
  }

  /** `new Map(pairs)`: the keys of the list, each holding the value of the
      last pair with that key. */
  function SeedMap(pairs: seq<(string, int)>): (m: BalanceMap)
    ensures m.Keys == KeysOf(pairs)
    ensures forall i :: 0 <= i < |pairs| && LastWithKey(pairs, i) ==> m[pairs[i].0] == pairs[i].1
  {
    if |pairs| == 0 then map[]
    else
      var m0 := SeedMap(pairs[..|pairs| - 1]);
      SeedMapStep(pairs, m0);
      m0[pairs[|pairs| - 1].0 := pairs[|pairs| - 1].1]
  }

  lemma KeysOfAppend(init: seq<(string, int)>, last: (string, int))
    ensures KeysOf(init + [last]) == KeysOf(init) + {last.0}
  {
    var pairs := init + [last];
    forall k | k in KeysOf(pairs) ensures k in KeysOf(init) + {last.0} {
      var i :| 0 <= i < |pairs| && pairs[i].0 == k;
      if i < |init| {
        assert init[i] == pairs[i];
      }
    }
    forall k | k in KeysOf(init) ensures k in KeysOf(pairs) {
      var i :| 0 <= i < |init| && init[i].0 == k;
      assert pairs[i] == init[i];
    }
    assert pairs[|init|] == last;
  }

  lemma SeedMapStep(pairs: seq<(string, int)>, m0: BalanceMap)
    requires |pairs| > 0
    requires var init := pairs[..|pairs| - 1];
      && m0.Keys == KeysOf(init)
      && forall i :: 0 <= i < |init| && LastWithKey(init, i) ==> m0[init[i].0] == init[i].1
    ensures var m := m0[pairs[|pairs| - 1].0 := pairs[|pairs| - 1].1];
      && m.Keys == KeysOf(pairs)
      && forall i :: 0 <= i < |pairs| && LastWithKey(pairs, i) ==> m[pairs[i].0] == pairs[i].1
  {
    var init := pairs[..|pairs| - 1];
    var last := pairs[|pairs| - 1];
    var m := m0[last.0 := last.1];
    KeysOfAppend(init, last);
    assert init + [last] == pairs;
    forall i | 0 <= i < |pairs| && LastWithKey(pairs, i)
      ensures m[pairs[i].0] == pairs[i].1
    {
      if i < |init| {
        assert pairs[i].0 != last.0;
        assert init[i] == pairs[i];
        assert LastWithKey(init, i) by {
          forall j | i < j < |init| ensures init[j].0 != init[i].0 {
            assert init[j] == pairs[j];
          }
        }
      }
    }
  }

  /** The blocked-account state `mapBalances` works with: the canonical
      addresses of the blocked accounts and the funnel's canonical address. */
  datatype Blocking = Blocking(blockedSet: set<string>, funnel: Option<string>)

  /** `blocked ? makeBlockedSet(blocked) : new Set()` and `blocked?.funnel.value`. */
  function BlockingOf(blocked: Option<BlockedAccounts>): (ctx: Blocking)
    ensures blocked.None? ==> ctx.blockedSet == {} && ctx.funnel.None?
    ensures blocked.Some? ==> ctx.funnel == Some(blocked.value.funnel.value)
    ensures blocked.Some? ==> forall i :: 0 <= i < |blocked.value.accounts| ==> blocked.value.accounts[i].value in ctx.blockedSet
    ensures blocked.Some? ==> forall v :: v in ctx.blockedSet ==>
              exists i :: 0 <= i < |blocked.value.accounts| && blocked.value.accounts[i].value == v
  {
    match blocked
    case None => Blocking({}, None)
    case Some(b) => Blocking(MakeBlockedSet(b), Some(b.funnel.value))
  }

  /** The funnel test `funnel && ...`: an absent or empty funnel is falsy. */
  predicate FunnelActive(ctx: Blocking) {
    ctx.funnel.Some? && ctx.funnel.value != ""
  }

  predicate IsFunnelKey(ctx: Blocking, k: string) {
    FunnelActive(ctx) && k == ctx.funnel.value
  }

  /** Whether the record with this raw address goes to the funnel: its
      normalised identity is blocked and a funnel is configured. */
  predicate Redirected(codec: Codec, ctx: Blocking, address: string) {
    && FunnelActive(ctx)
    && AccountIdFrom(codec, address).Success?
    && AccountIdFrom(codec, address).value.value in ctx.blockedSet
  }

  /** Add `amount` to the entry of `k`, starting from 0 when it is absent. */
  function Credit(m: BalanceMap, k: string, amount: int): (m': BalanceMap)
    ensures m' == m[k := Get0(m, k) + amount]
    ensures MapSum(m') == MapSum(m) + amount
  {
    MapSumUpdate(m, k, Get0(m, k) + amount);
    m[k := Get0(m, k) + amount]
  }

  /** The entry a record's total goes to: the funnel for a redirected
      record, otherwise the record's raw address (not its normalised one). */
  function Target(codec: Codec, ctx: Blocking, address: string): string {
    if Redirected(codec, ctx, address) then ctx.funnel.value else address
  }

  /** The body of the record loop of `mapBalances`. A blocked record adds its
      total to the funnel's entry; any other record is stored under its raw
      address, unless that address already holds a non-zero amount (a zero
      amount is falsy and is silently overwritten). Either way, on success
      the total lands on the target entry, which before held 0 or nothing in
      the non-blocked case. */
  function ApplyRecord(codec: Codec, ctx: Blocking, m: BalanceMap, rec: Record): (r: Result<BalanceMap, MigrationError>)
    ensures AccountIdFrom(codec, rec.key.address).Failure? ==> r == Failure(InvalidAccountId(rec.key.address))
    ensures r.Failure? <==>
              || AccountIdFrom(codec, rec.key.address).Failure?
              || (!Redirected(codec, ctx, rec.key.address) && Get0(m, rec.key.address) != 0)
    ensures r.Failure? && AccountIdFrom(codec, rec.key.address).Success? ==> r.error == DuplicateAccount(rec.key.address)
    ensures r.Success? ==>
              var t := Target(codec, ctx, rec.key.address);
              r.value == m[t := Get0(m, t) + Total(rec.data)]
    ensures r.Success? ==> MapSum(r.value) == MapSum(m) + Total(rec.data)
  {
    var address := rec.key.address;
    var id := AccountIdFrom(codec, address);
    if id.Failure? then Failure(id.error)
    else if Redirected(codec, ctx, address) then Success(Credit(m, ctx.funnel.value, Total(rec.data)))
    else if Get0(m, address) != 0 then Failure(DuplicateAccount(address))
    else Success(Credit(m, address, Total(rec.data)))
  }

  /** The record loop over a run of records, stopping at the first error;
      on success every address was valid, no entry disappeared and the sum
      grew by exactly the records' totals. */
  function ApplyRecords(codec: Codec, ctx: Blocking, m: BalanceMap, records: seq<Record>): (r: Result<BalanceMap, MigrationError>)
    ensures r.Success? ==> MapSum(r.value) == MapSum(m) + TotalOf(records)
    ensures r.Success? ==> m.Keys <= r.value.Keys
    decreases |records|
  {
    if |records| == 0 then Success(m)
    else
      match ApplyRecord(codec, ctx, m, records[0])
      case Failure(e) => Failure(e)
      case Success(m') =>
        ApplyRecords(codec, ctx, m', records[1..])
  }

  /** A non-zero entry other than the funnel's is never changed: a record
      aiming at it is a duplicate. */
  lemma {:induction false} NonZeroEntriesKept(codec: Codec, ctx: Blocking, m: BalanceMap, records: seq<Record>, k: string)
    requires k in m && m[k] != 0 && !IsFunnelKey(ctx, k)
    requires ApplyRecords(codec, ctx, m, records).Success?
    ensures ApplyRecords(codec, ctx, m, records).value[k] == m[k]
    decreases |records|
  {
    if |records| > 0 {
      var m' := ApplyRecord(codec, ctx, m, records[0]).value;
      NonZeroEntriesKept(codec, ctx, m', records[1..], k);
    }
  }

  /** A positive entry stays positive: the funnel only ever gains. */
  lemma {:induction false} PositiveEntriesStayPositive(codec: Codec, ctx: Blocking, m: BalanceMap, records: seq<Record>, k: string)
    requires k in m && m[k] > 0
    requires ApplyRecords(codec, ctx, m, records).Success?
    ensures ApplyRecords(codec, ctx, m, records).value[k] > 0
    decreases |records|
  {
    if |records| > 0 {
      var m' := ApplyRecord(codec, ctx, m, records[0]).value;
      PositiveEntriesStayPositive(codec, ctx, m', records[1..], k);
    }
  }

  /** Every entry the records create is the funnel's or the raw address of a
      record that was not redirected: a blocked address never gets an entry. */
  lemma {:induction false} NewEntriesAreTargets(codec: Codec, ctx: Blocking, m: BalanceMap, records: seq<Record>, k: string)
    requires ApplyRecords(codec, ctx, m, records).Success?
    requires k in ApplyRecords(codec, ctx, m, records).value && k !in m
    ensures IsFunnelKey(ctx, k) || exists i :: 0 <= i < |records| && records[i].key.address == k && !Redirected(codec, ctx, k)
    decreases |records|
  {
    var a := records[0].key.address;
    var m' := ApplyRecord(codec, ctx, m, records[0]).value;
    if k !in m' {
      NewEntriesAreTargets(codec, ctx, m', records[1..], k);
      if !IsFunnelKey(ctx, k) {
        var i :| 0 <= i < |records[1..]| && records[1..][i].key.address == k && !Redirected(codec, ctx, k);
        assert records[i + 1].key.address == k;
      }
    } else if !IsFunnelKey(ctx, k) {
      assert k == a && !Redirected(codec, ctx, k);
    }
  }

  /** Processing two runs of records is processing the first, then the second. */
  lemma {:induction false} ApplyRecordsConcat(codec: Codec, ctx: Blocking, m: BalanceMap, a: seq<Record>, b: seq<Record>)
    ensures ApplyRecords(codec, ctx, m, a + b) ==
              match ApplyRecords(codec, ctx, m, a)
              case Failure(e) => Failure(e)
              case Success(m') => ApplyRecords(codec, ctx, m', b)
    decreases |a|
  {
    if |a| == 0 {
      assert a + b == b;
    } else {
      assert (a + b)[0] == a[0] && (a + b)[1..] == a[1..] + b;
      match ApplyRecord(codec, ctx, m, a[0])
      case Failure(_) =>
      case Success(m') =>
        ApplyRecordsConcat(codec, ctx, m', a[1..], b);
    }
  }

  /** The records `mapBalances` processes: all fetched pages but the first. */
  function ProcessedRecords(pages: seq<seq<Record>>): seq<Record> {
    if |pages| == 0 then [] else Flatten(pages[1..])
  }

  lemma ProcessedRecordsExtend(pages: seq<seq<Record>>, more: seq<seq<Record>>)
    requires |pages| >= 1
    ensures ProcessedRecords(pages + more) == ProcessedRecords(pages) + Flatten(more)
  {
    assert (pages + more)[1..] == pages[1..] + more;
    FlattenConcat(pages[1..], more);
  }

  /** What `mapBalances` computes, stated over the walk: the seed, updated by
      every record of the pages after the first; the first error wins, and
      records are processed before the next page is fetched. The walk must
      end within `bound` fetches. */
  function MapBalancesSpec(source: PageSource, codec: Codec, initial: Option<seq<(string, int)>>,
                           ctx: Blocking, bound: nat): (r: Result<BalanceMap, MigrationError>)
    requires !Walk(source, None, bound).ending.OutOfFuel?
    ensures r.Success? ==> Walk(source, None, bound).ending.Exhausted?
    ensures r.Success? ==>
              MapSum(r.value) == MapSum(SeedMap(initial.GetOr([]))) + TotalOf(ProcessedRecords(Walk(source, None, bound).pages))
    ensures source(None).Failure? ==> r == Failure(source(None).error)
    ensures source(None) == Success([]) ==> r == Success(SeedMap(initial.GetOr([])))
  {
    var w := Walk(source, None, bound);
    assert source(None).Failure? || source(None) == Success([]) ==> w.pages == [];
    match ApplyRecords(codec, ctx, SeedMap(initial.GetOr([])), ProcessedRecords(w.pages))
    case Failure(e) => Failure(e)
    case Success(m) => if w.ending.SourceFailed? then Failure(w.ending.error) else Success(m)
  }

  /** Processing the records of the pages of `tail` on top of `m`, then
      reporting the failed fetch that ended it, if one did. */
  function Settle(codec: Codec, ctx: Blocking, m: BalanceMap, tail: Trace): Result<BalanceMap, MigrationError> {
    match ApplyRecords(codec, ctx, m, Flatten(tail.pages))
    case Failure(e) => Failure(e)
    case Success(m') => if tail.ending.SourceFailed? then Failure(tail.ending.error) else Success(m')
  }

  /** After the first page, the rest of `mapBalances` settles the walk that
      continues from that page's last key. */
  lemma SpecAfterFirstPage(source: PageSource, codec: Codec, initial: Option<seq<(string, int)>>,
                           ctx: Blocking, bound: nat, page: seq<Record>)
    requires !Walk(source, None, bound).ending.OutOfFuel?
    requires source(None) == Success(page) && |page| > 0
    ensures bound > 0 && !Walk(source, Some(LastKey(page)), bound - 1).ending.OutOfFuel?
    ensures MapBalancesSpec(source, codec, initial, ctx, bound) ==
              Settle(codec, ctx, SeedMap(initial.GetOr([])), Walk(source, Some(LastKey(page)), bound - 1))
  {
    WalkStep(source, None, bound, page);
    var rest := Walk(source, Some(LastKey(page)), bound - 1);
    assert ([page] + rest.pages)[1..] == rest.pages;
  }

  /** Settling a walk whose next fetch returns a non-empty page: process the
      page, then settle the walk after it. */
  lemma SettleStep(codec: Codec, ctx: Blocking, m: BalanceMap, source: PageSource,
                   cursor: Option<StorageKey>, fuel: nat, page: seq<Record>)
    requires fuel > 0 && source(cursor) == Success(page) && |page| > 0
    ensures Settle(codec, ctx, m, Walk(source, cursor, fuel)) ==
              match ApplyRecords(codec, ctx, m, page)
              case Failure(e) => Failure(e)
              case Success(m') => Settle(codec, ctx, m', Walk(source, Some(LastKey(page)), fuel - 1))
  {
    WalkStep(source, cursor, fuel, page);
    var rest := Walk(source, Some(LastKey(page)), fuel - 1);
    assert ([page] + rest.pages)[1..] == rest.pages;
    assert Flatten([page] + rest.pages) == page + Flatten(rest.pages);
    ApplyRecordsConcat(codec, ctx, m, page, Flatten(rest.pages));
  }

  /** How a run of the loop of `mapBalances` with a limited number of
      fetches ended: with the loop's result, or with fetches left to do. */
  datatype RunEnd = Finished(result: Result<BalanceMap, MigrationError>) | Unfinished

  /** The loop of `mapBalances` from `cursor` with at most `fuel` fetches:
      fetch the page after the cursor, stop on a failed fetch or an empty
      page, process the page, stop on its first error, and continue after
      its last key. A source whose walk never ends can still finish the run,
      for instance by repeating a page that the duplicate test refuses. */
  function Run(source: PageSource, codec: Codec, ctx: Blocking, m: BalanceMap,
               cursor: Option<StorageKey>, fuel: nat): (r: RunEnd)
    ensures r.Finished? ==> fuel > 0
    ensures r.Finished? && source(cursor).Failure? ==> r.result == Failure(source(cursor).error)
    ensures r.Finished? && source(cursor) == Success([]) ==> r.result == Success(m)
    decreases fuel
  {
    if fuel == 0 then Unfinished
    else
      match source(cursor)
      case Failure(e) => Finished(Failure(e))
      case Success(page) =>
        if |page| == 0 then Finished(Success(m))
        else
          match ApplyRecords(codec, ctx, m, page)
          case Failure(e) => Finished(Failure(e))
          case Success(m') => Run(source, codec, ctx, m', Some(LastKey(page)), fuel - 1)
  }

  /** `mapBalances` as a run: the first fetch, then the loop after the first
      page's last key, within `bound` fetches in all. */
  function MapBalancesRun(source: PageSource, codec: Codec, initial: Option<seq<(string, int)>>,
                          ctx: Blocking, bound: nat): (r: RunEnd)
    ensures r.Finished? ==> bound > 0
    ensures r.Finished? && source(None).Failure? ==> r.result == Failure(source(None).error)
    ensures r.Finished? && source(None) == Success([]) ==> r.result == Success(SeedMap(initial.GetOr([])))
  {
    if bound == 0 then Unfinished
    else
      match source(None)
      case Failure(e) => Finished(Failure(e))
      case Success(page) =>
        if |page| == 0 then Finished(Success(SeedMap(initial.GetOr([]))))
        else Run(source, codec, ctx, SeedMap(initial.GetOr([])), Some(LastKey(page)), bound - 1)
  }

  /** When the walk from a cursor ends within the fuel, the run from there
      finishes, with the walk's pages settled. */
  lemma {:induction false} RunSettlesWalk(source: PageSource, codec: Codec, ctx: Blocking, m: BalanceMap,
                                          cursor: Option<StorageKey>, fuel: nat)
    requires !Walk(source, cursor, fuel).ending.OutOfFuel?
    ensures Run(source, codec, ctx, m, cursor, fuel) == Finished(Settle(codec, ctx, m, Walk(source, cursor, fuel)))
    decreases fuel
  {
    match source(cursor)
    case Failure(e) =>
    case Success(page) =>
      if |page| > 0 {
        WalkStep(source, cursor, fuel, page);
        SettleStep(codec, ctx, m, source, cursor, fuel, page);
        match ApplyRecords(codec, ctx, m, page)
        case Failure(e) =>
        case Success(m') =>
          RunSettlesWalk(source, codec, ctx, m', Some(LastKey(page)), fuel - 1);
      }
  }

  /** On every source whose walk ends within the bound, the run of
      `mapBalances` finishes with the walk-based result. */
  lemma RunAgreesWithSpec(source: PageSource, codec: Codec, initial: Option<seq<(string, int)>>,
                          ctx: Blocking, bound: nat)
    requires !Walk(source, None, bound).ending.OutOfFuel?
    ensures MapBalancesRun(source, codec, initial, ctx, bound) == Finished(MapBalancesSpec(source, codec, initial, ctx, bound))
  {
    match source(None)
    case Failure(e) =>
    case Success(page) =>
      if |page| > 0 {
        SpecAfterFirstPage(source, codec, initial, ctx, bound, page);
        RunSettlesWalk(source, codec, ctx, SeedMap(initial.GetOr([])), Some(LastKey(page)), bound - 1);
      }
  }

  /** A run that finishes successfully saw an empty page, so the walk from
      the same cursor ends within the same fuel. */
  lemma {:induction false} RunSuccessEndsWalk(source: PageSource, codec: Codec, ctx: Blocking, m: BalanceMap,
                                              cursor: Option<StorageKey>, fuel: nat)
    requires Run(source, codec, ctx, m, cursor, fuel).Finished?
    requires Run(source, codec, ctx, m, cursor, fuel).result.Success?
    ensures Walk(source, cursor, fuel).ending.Exhausted?
    decreases fuel
  {
    match source(cursor)
    case Failure(e) =>
    case Success(page) =>
      if |page| > 0 {
        WalkStep(source, cursor, fuel, page);
        var m' := ApplyRecords(codec, ctx, m, page).value;
        RunSuccessEndsWalk(source, codec, ctx, m', Some(LastKey(page)), fuel - 1);
      }
  }

  /** Every successful run of `mapBalances` comes from a walk that ended on
      an empty page within the bound. */
  lemma MapBalancesRunSuccessEndsWalk(source: PageSource, codec: Codec, initial: Option<seq<(string, int)>>,
                                      ctx: Blocking, bound: nat)
    requires MapBalancesRun(source, codec, initial, ctx, bound).Finished?
    requires MapBalancesRun(source, codec, initial, ctx, bound).result.Success?
    ensures Walk(source, None, bound).ending.Exhausted?
  {
    match source(None)
    case Failure(e) =>
    case Success(page) =>
      if |page| > 0 {
        WalkStep(source, None, bound, page);
        RunSuccessEndsWalk(source, codec, ctx, SeedMap(initial.GetOr([])), Some(LastKey(page)), bound - 1);
      }
  }

  /** The record loop of `mapBalances` over one page. */
  method ApplyPage(codec: Codec, ctx: Blocking, m: BalanceMap, records: seq<Record>)
    returns (r: Result<BalanceMap, MigrationError>)
    ensures r == ApplyRecords(codec, ctx, m, records)
  {
    var balances := m;
    var i := 0;
    while i < |records|
      invariant 0 <= i <= |records|
      invariant ApplyRecords(codec, ctx, m, records) == ApplyRecords(codec, ctx, balances, records[i..])
    {
      assert records[i..][1..] == records[i + 1..];
      var step := ApplyRecord(codec, ctx, balances, records[i]);
      if step.Failure? {
        return Failure(step.error);
      }
      balances := step.value;
      i := i + 1;
    }
    return Success(balances);
  }

  /** `mapBalances`: seed the map, fetch the first page, then repeatedly fetch
      the page after the last key and process it. The fetch comes before the
      processing, so the records of the first page are never processed. The
      loop must finish within `bound` fetches; when the walk alone ends that
      soon, the result is the walk-based one and the sum is conserved. */
  method MapBalances(source: PageSource, codec: Codec, initial: Option<seq<(string, int)>>,
                     blocked: Option<BlockedAccounts>, ghost bound: nat)
    returns (r: Result<BalanceMap, MigrationError>)
    requires MapBalancesRun(source, codec, initial, BlockingOf(blocked), bound).Finished?
    ensures r == MapBalancesRun(source, codec, initial, BlockingOf(blocked), bound).result
    ensures !Walk(source, None, bound).ending.OutOfFuel? ==> r == MapBalancesSpec(source, codec, initial, BlockingOf(blocked), bound)
    ensures r.Success? && !Walk(source, None, bound).ending.OutOfFuel? ==>
              MapSum(r.value) == MapSum(SeedMap(initial.GetOr([]))) + TotalOf(ProcessedRecords(Walk(source, None, bound).pages))
    ensures r.Success? ==>
              && Walk(source, None, bound).ending.Exhausted?
              && r == MapBalancesSpec(source, codec, initial, BlockingOf(blocked), bound)
              && MapSum(r.value) == MapSum(SeedMap(initial.GetOr([]))) + TotalOf(ProcessedRecords(Walk(source, None, bound).pages))
  {
    var balances := SeedMap(initial.GetOr([]));
    var ctx := BlockingOf(blocked);
    ghost var spec := MapBalancesRun(source, codec, initial, ctx, bound).result;
    if spec.Success? {
      MapBalancesRunSuccessEndsWalk(source, codec, initial, ctx, bound);
    }
    if !Walk(source, None, bound).ending.OutOfFuel? {
      RunAgreesWithSpec(source, codec, initial, ctx, bound);
    }

    var fetched := source(None);
    if fetched.Failure? {
      return Failure(fetched.error);
    }
    var accounts := fetched.value;
    ghost var fuel: nat := bound - 1;

    while |accounts| > 0
      invariant |accounts| == 0 ==> spec == Success(balances)
      invariant |accounts| > 0 ==> Run(source, codec, ctx, balances, Some(LastKey(accounts)), fuel) == Finished(spec)
      decreases fuel
    {
      var lastKey := accounts[|accounts| - 1].key;
      fetched := source(Some(lastKey));
      if fetched.Failure? {
        return Failure(fetched.error);
      }
      accounts := fetched.value;
      var processed := ApplyPage(codec, ctx, balances, accounts);
      if processed.Failure? {
        return Failure(processed.error);
      }
      balances := processed.value;
      fuel := fuel - 1;
    }
    return Success(balances);
  }

  /** A source that serves a page again right after it, where the page holds
      a record that is not redirected and has a positive total, stops the
      run with an error on the second serving, whether or not its walk ever
      ends. */
  lemma RepeatedPageStopsRun(source: PageSource, codec: Codec, ctx: Blocking, m: BalanceMap,
                             cursor: Option<StorageKey>, page: seq<Record>, i: nat, fuel: nat)
    requires fuel >= 2 && source(cursor) == Success(page) && i < |page|
    requires source(Some(LastKey(page))) == Success(page)
    requires !Redirected(codec, ctx, page[i].key.address) && Total(page[i].data) > 0
    ensures Run(source, codec, ctx, m, cursor, fuel).Finished?
    ensures Run(source, codec, ctx, m, cursor, fuel).result.Failure?
  {
    var first := ApplyRecords(codec, ctx, m, page);
    if first.Success? {
      ProcessedRecordHolds(codec, ctx, m, page, i);
      PositiveEntryRefusesRecord(codec, ctx, first.value, page, i);
    }
  }

  /** A source that serves the same page first and again after that page's
      own last key repeats it forever: its walk never ends, whatever the
      bound... */
  lemma {:induction false} RepeatingWalkNeverEnds(source: PageSource, page: seq<Record>, cursor: Option<StorageKey>, fuel: nat)
    requires |page| > 0
    requires source(None) == Success(page) && source(Some(LastKey(page))) == Success(page)
    requires cursor.None? || cursor == Some(LastKey(page))
    ensures Walk(source, cursor, fuel).ending.OutOfFuel?
    decreases fuel
  {
    if fuel > 0 {
      WalkStep(source, cursor, fuel, page);
      RepeatingWalkNeverEnds(source, page, Some(LastKey(page)), fuel - 1);
    }
  }

  /** ...and an in-memory fetcher whose one record carries the key -1 is
      such a source, yet `mapBalances` stops on it after three fetches: the
      second serving of the record is refused as a duplicate. */
  lemma RepeatingSourceStops()
    ensures var rec := Record(StorageKey("5A", IndexKey(-1)), BalanceData(5, 0, 0, 0));
      var source := LocalSource(LocalAccountFetcher([rec], DefaultPageSize));
      var codec := Codec(_ => true, s => Some(s));
      && (forall bound :: Walk(source, None, bound).ending.OutOfFuel?)
      && MapBalancesRun(source, codec, None, Blocking({}, None), 3) == Finished(Failure(DuplicateAccount("5A")))
  {
    var rec := Record(StorageKey("5A", IndexKey(-1)), BalanceData(5, 0, 0, 0));
    var f := LocalAccountFetcher([rec], DefaultPageSize);
    var codec := Codec(_ => true, s => Some(s));
    var ctx := Blocking({}, None);
    assert LocalSource(f)(None) == FetchAccounts(f, None);
    assert LocalSource(f)(Some(rec.key)) == FetchAccounts(f, Some(rec.key));
    assert Min(DefaultPageSize, 1) == 1 && [rec][..1] == [rec][0..1] == [rec];
    assert LocalSource(f)(None) == Success([rec]);
    assert LocalSource(f)(Some(rec.key)) == Success([rec]);
    assert [rec][1..] == [];
    assert LastKey([rec]) == rec.key;
    forall bound: nat ensures Walk(LocalSource(f), None, bound).ending.OutOfFuel? {
      RepeatingWalkNeverEnds(LocalSource(f), [rec], None, bound);
    }
    assert SeedMap([]) == map[];
    var once := ApplyRecords(codec, ctx, map[], [rec]);
    assert [rec][0] == rec && LastKey([rec]) == rec.key;
    assert ApplyRecords(codec, ctx, map["5A" := 5], []) == Success(map["5A" := 5]);
    assert ApplyRecord(codec, ctx, map[], rec) == Success(map["5A" := 5]);
    assert once == Success(map["5A" := 5]);
    assert ApplyRecord(codec, ctx, map["5A" := 5], rec) == Failure(DuplicateAccount("5A"));
    assert ApplyRecords(codec, ctx, map["5A" := 5], [rec]) == Failure(DuplicateAccount("5A"));
  }

  /** After a successful run, the raw address of a record that was not
      redirected and had a positive total holds a positive amount. */
  lemma ProcessedRecordHolds(codec: Codec, ctx: Blocking, m: BalanceMap, records: seq<Record>, i: nat)
    requires i < |records| && ApplyRecords(codec, ctx, m, records).Success?
    requires !Redirected(codec, ctx, records[i].key.address) && Total(records[i].data) > 0
    ensures var a := records[i].key.address;
            a in ApplyRecords(codec, ctx, m, records).value && ApplyRecords(codec, ctx, m, records).value[a] > 0
  {
    var a := records[i].key.address;
    assert records == records[..i] + [records[i]] + records[i + 1..];
    ApplyRecordsConcat(codec, ctx, m, records[..i] + [records[i]], records[i + 1..]);
    ApplyRecordsConcat(codec, ctx, m, records[..i], [records[i]]);
    var before := ApplyRecords(codec, ctx, m, records[..i]).value;
    var at := ApplyRecords(codec, ctx, before, [records[i]]).value;
    assert ApplyRecord(codec, ctx, before, records[i]).value == at;
    assert at[a] == Total(records[i].data);
    PositiveEntriesStayPositive(codec, ctx, at, records[i + 1..], a);
  }

  /** The sum of the totals of the records whose total lands on `k`. */
  function TotalTo(codec: Codec, ctx: Blocking, records: seq<Record>, k: string): nat {
    if |records| == 0 then 0
    else
      (if Target(codec, ctx, records[0].key.address) == k then Total(records[0].data) else 0)
      + TotalTo(codec, ctx, records[1..], k)
  }

  /** On success every entry ends as its starting amount (0 when absent)
      plus the totals of the records aimed at it. For the funnel these are
      the blocked records (and, at most once, a record of its own raw
      address); for a blocked address that is not the funnel, none. */
  lemma {:induction false} EntryGrowsByTargetedTotals(codec: Codec, ctx: Blocking, m: BalanceMap, records: seq<Record>, k: string)
    requires ApplyRecords(codec, ctx, m, records).Success?
    ensures Get0(ApplyRecords(codec, ctx, m, records).value, k) == Get0(m, k) + TotalTo(codec, ctx, records, k)
    decreases |records|
  {
    if |records| > 0 {
      var m' := ApplyRecord(codec, ctx, m, records[0]).value;
      EntryGrowsByTargetedTotals(codec, ctx, m', records[1..], k);
    }
  }

  /** A record whose normalised identity is one of the configured blocked
      accounts goes to the funnel when the funnel is non-empty. This is the
      lookup by canonical value; by object identity it would never match. */
  lemma BlockedRecordFunneled(codec: Codec, blocked: BlockedAccounts, address: string, i: nat)
    requires i < |blocked.accounts| && blocked.funnel.value != ""
    requires AccountIdFrom(codec, address) == Success(blocked.accounts[i])
    ensures Redirected(codec, BlockingOf(Some(blocked)), address)
    ensures Target(codec, BlockingOf(Some(blocked)), address) == blocked.funnel.value
  {
  }

  /** A key holding a positive amount refuses any later record of that raw
      address that is not redirected: "duplicate account". */
  lemma {:induction false} PositiveEntryRefusesRecord(codec: Codec, ctx: Blocking, m: BalanceMap, records: seq<Record>, j: nat)
    requires j < |records|
    requires var a := records[j].key.address; a in m && m[a] > 0 && !Redirected(codec, ctx, a)
    ensures ApplyRecords(codec, ctx, m, records).Failure?
    decreases j
  {
    var a := records[j].key.address;
    var step := ApplyRecord(codec, ctx, m, records[0]);
    if j > 0 && step.Success? {
      var t := Target(codec, ctx, records[0].key.address);
      assert step.value == m[t := Get0(m, t) + Total(records[0].data)];
      assert records[1..][j - 1] == records[j];
      PositiveEntryRefusesRecord(codec, ctx, step.value, records[1..], j - 1);
    }
  }

  /** Two records of the same raw address, neither redirected, the first
      with a positive total, make the run fail. Two zero-total records of
      one address pass, since a zero entry is falsy. */
  lemma {:induction false} RepeatedAddressRefused(codec: Codec, ctx: Blocking, m: BalanceMap, records: seq<Record>, i: nat, j: nat)
    requires i < j < |records|
    requires records[i].key.address == records[j].key.address
    requires !Redirected(codec, ctx, records[i].key.address)
    requires Total(records[i].data) > 0
    ensures ApplyRecords(codec, ctx, m, records).Failure?
    decreases i
  {
    var step := ApplyRecord(codec, ctx, m, records[0]);
    if step.Success? {
      assert records[1..][j - 1] == records[j];
      if i > 0 {
        assert records[1..][i - 1] == records[i];
        RepeatedAddressRefused(codec, ctx, step.value, records[1..], i - 1, j - 1);
      } else {
        PositiveEntryRefusesRecord(codec, ctx, step.value, records[1..], j - 1);
      }
    }
  }

  /** Only `free` and `reserved` count: records that differ only in their
      frozen balances are processed identically. */
  predicate SameButFrozen(a: seq<Record>, b: seq<Record>) {
    && |a| == |b|
    && forall i :: 0 <= i < |a| ==>
         a[i].key == b[i].key && a[i].data.free == b[i].data.free && a[i].data.reserved == b[i].data.reserved
  }

  lemma {:induction false} FrozenBalancesIgnored(codec: Codec, ctx: Blocking, m: BalanceMap, a: seq<Record>, b: seq<Record>)
    requires SameButFrozen(a, b)
    ensures ApplyRecords(codec, ctx, m, a) == ApplyRecords(codec, ctx, m, b)
    decreases |a|
  {
    if |a| > 0 {
      assert ApplyRecord(codec, ctx, m, a[0]) == ApplyRecord(codec, ctx, m, b[0]);
      if ApplyRecord(codec, ctx, m, a[0]).Success? {
        assert SameButFrozen(a[1..], b[1..]) by {
          forall i | 0 <= i < |a| - 1 ensures a[1..][i] == a[i + 1] && b[1..][i] == b[i + 1] { }
        }
        FrozenBalancesIgnored(codec, ctx, ApplyRecord(codec, ctx, m, a[0]).value, a[1..], b[1..]);
      }
    }
  }

  /** For an in-memory fetcher the records `mapBalances` processes are the
      array minus its first page. */
  lemma LocalProcessedRecords(f: LocalAccountFetcher, fuel: nat)
    requires KeysAreIndices(f.accounts) && f.pageSize >= 1
    requires fuel > (|f.accounts| + f.pageSize - 1) / f.pageSize
    ensures !Walk(LocalSource(f), None, fuel).ending.OutOfFuel?
    ensures ProcessedRecords(Walk(LocalSource(f), None, fuel).pages) == f.accounts[Min(f.pageSize, |f.accounts|)..]
  {
    var w := Walk(LocalSource(f), None, fuel);
    LocalWalkCoversAll(f, fuel);
    if |f.accounts| > 0 {
      PageCountIsCeiling(|f.accounts|, f.pageSize);
      assert PageCount(|f.accounts|, f.pageSize) > 0;
      WalkFollowsCursors(LocalSource(f), None, fuel);
      LocalFetchAt(f, 0);
      assert w.pages[0] == f.accounts[..Min(f.pageSize, |f.accounts|)];
      assert Flatten(w.pages) == w.pages[0] + Flatten(w.pages[1..]);
    } else {
      assert PageCount(0, f.pageSize) == 0;
      PageCountIsCeiling(0, f.pageSize);
    }
  }

  /** What `mapBalances` evidently means to compute: the seed updated by the
      records of EVERY fetched page, the first included. */
  function AggregateAllPages(source: PageSource, codec: Codec, initial: Option<seq<(string, int)>>,
                             ctx: Blocking, bound: nat): (r: Result<BalanceMap, MigrationError>)
    requires !Walk(source, None, bound).ending.OutOfFuel?
    ensures r.Success? ==> Walk(source, None, bound).ending.Exhausted?
    ensures r.Success? ==>
              MapSum(r.value) == MapSum(SeedMap(initial.GetOr([]))) + TotalOf(Flatten(Walk(source, None, bound).pages))
  {
    Settle(codec, ctx, SeedMap(initial.GetOr([])), Walk(source, None, bound))
  }

  /** The two differ exactly by the first page: both settle the walk after
      it, but only the corrected one processes that page first. */
  lemma FirstPageOnlyWhenCorrected(source: PageSource, codec: Codec, initial: Option<seq<(string, int)>>,
                                   ctx: Blocking, bound: nat, page: seq<Record>)
    requires !Walk(source, None, bound).ending.OutOfFuel?
    requires source(None) == Success(page) && |page| > 0
    ensures bound > 0
    ensures var seed := SeedMap(initial.GetOr([]));
      var rest := Walk(source, Some(LastKey(page)), bound - 1);
      && MapBalancesSpec(source, codec, initial, ctx, bound) == Settle(codec, ctx, seed, rest)
      && AggregateAllPages(source, codec, initial, ctx, bound) ==
           match ApplyRecords(codec, ctx, seed, page)
           case Failure(e) => Failure(e)
           case Success(m) => Settle(codec, ctx, m, rest)
  {
    SpecAfterFirstPage(source, codec, initial, ctx, bound, page);
    SettleStep(codec, ctx, SeedMap(initial.GetOr([])), source, None, bound, page);
  }

  /** One account of 5 behind an in-memory fetcher, nothing seeded, nothing
      blocked: as written the account is lost; corrected, it is migrated. */
  lemma FirstPageDroppedExample()
    ensures var rec := Record(StorageKey("5A", IndexKey(0)), BalanceData(5, 0, 0, 0));
      var source := LocalSource(LocalAccountFetcher([rec], DefaultPageSize));
      var codec := Codec(_ => true, s => Some(s));
      && !Walk(source, None, 2).ending.OutOfFuel?
      && MapBalancesSpec(source, codec, None, Blocking({}, None), 2) == Success(map[])
      && AggregateAllPages(source, codec, None, Blocking({}, None), 2) == Success(map["5A" := 5])
  {
    var rec := Record(StorageKey("5A", IndexKey(0)), BalanceData(5, 0, 0, 0));
    var f := LocalAccountFetcher([rec], DefaultPageSize);
    var codec := Codec(_ => true, s => Some(s));
    var ctx := Blocking({}, None);
    assert KeysAreIndices(f.accounts);
    assert (1 + DefaultPageSize - 1) / DefaultPageSize == 1;
    LocalWalkCoversAll(f, 2);
    LocalProcessedRecords(f, 2);
    var w := Walk(LocalSource(f), None, 2);
    assert w.pages == [[rec]] by {
      assert |w.pages| == 1;
      assert w.pages[1..] == [];
      assert Flatten(w.pages[1..]) == [];
      assert Flatten(w.pages) == w.pages[0] + Flatten(w.pages[1..]);
      assert w.pages[0] == [rec];
    }
    assert ProcessedRecords(w.pages) == [];
    assert AccountIdFrom(codec, "5A") == Success(AccountId("5A"));
    assert ApplyRecord(codec, ctx, map[], rec) == Success(map["5A" := 5]);
    assert ApplyRecords(codec, ctx, map[], [rec]) == Success(map["5A" := 5]) by {
      assert [rec][1..] == [];
    }
    assert Flatten(w.pages) == [rec];
  }
}
