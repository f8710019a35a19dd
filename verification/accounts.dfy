/** The account source of account-fetch.ts: balance records, their storage
    keys, the `AccountFetcher` pagination contract, the in-memory
    `LocalAccountFetcher`, and the walk that drains a source page by page. */
module Accounts {
  import opened Outcomes
  import opened Errors
  import opened JsSemantics
  import opened Arith

  /** `BalanceData`: the four balances stored for an account. */
  datatype BalanceData = BalanceData(free: nat, reserved: nat, miscFrozen: nat, feeFrozen: nat)

  /** The opaque `key` of a storage key: the in-memory fetcher stores its
      array index (a JavaScript number); the network source stores an
      encoded storage key, which the in-memory fetcher refuses. */
  datatype KeyToken = IndexKey(index: int) | OpaqueKey(encoded: string)

  /** `AccountStorageKey`: the continuation cursor of a record, together with
      the raw address string (`key.args[0].toString()`) it belongs to. */
  datatype StorageKey = StorageKey(address: string, token: KeyToken)

  datatype Record = Record(key: StorageKey, data: BalanceData)

  /** `AccountFetcher.fetchAccounts`: the page after the given cursor, or the
      first page without one; an empty page means the source is exhausted.
      An RPC-backed source reports its own failures as `FetchFailed`; the
      in-memory fetcher fails only with `InvalidStartKey`. */
  type PageSource = Option<StorageKey> -> Result<seq<Record>, MigrationError>

  function LastKey(page: seq<Record>): StorageKey
    requires |page| > 0
  {
    page[|page| - 1].key
  }

  const DefaultPageSize: int := 1000

  /** `LocalAccountFetcher`: pages over a fixed array. */
  datatype LocalAccountFetcher = LocalAccountFetcher(accounts: seq<Record>, pageSize: int)

  /** The constructor, whose page size defaults to 1000. */
  function NewLocalAccountFetcher(accounts: seq<Record>, pageSize: Option<int>): (f: LocalAccountFetcher)
    ensures f.accounts == accounts
    ensures pageSize.None? ==> f.pageSize == 1000
    ensures pageSize.Some? ==> f.pageSize == pageSize.value
  {
    LocalAccountFetcher(accounts, pageSize.GetOr(DefaultPageSize))
  }

  /** `LocalAccountFetcher.fetchAccounts`: without a key, the first
      `pageSize` records; with the numeric key k, the `pageSize` records
      after index k (none once k + 1 reaches the end); any other key throws. */
  function FetchAccounts(f: LocalAccountFetcher, startKey: Option<StorageKey>): (r: Result<seq<Record>, MigrationError>)
    ensures startKey.None? && f.pageSize >= 0 ==>
              r == Success(f.accounts[..Min(f.pageSize, |f.accounts|)])
    ensures startKey.Some? && startKey.value.token.IndexKey? && startKey.value.token.index + 1 >= |f.accounts| ==>
              r == Success([])
    ensures startKey.Some? && startKey.value.token.IndexKey? && f.pageSize >= 0 ==>
              var k := startKey.value.token.index;
              -1 <= k && k + 1 < |f.accounts| ==> r == Success(f.accounts[k + 1..Min(k + 1 + f.pageSize, |f.accounts|)])
    ensures startKey.Some? && startKey.value.token.OpaqueKey? ==> r == Failure(InvalidStartKey)
    ensures r.Success? ==> |r.value| <= |f.accounts|
  {
    match startKey
    case None => Success(Slice(f.accounts, 0, f.pageSize))
    case Some(key) =>
      match key.token
      case IndexKey(k) =>
        if k + 1 >= |f.accounts| then Success([])
        else Success(Slice(f.accounts, k + 1, k + 1 + f.pageSize))
      case OpaqueKey(_) => Failure(InvalidStartKey)
  }

  /** Where in the backing array a well-keyed fetch begins. */
  function PageStart(f: LocalAccountFetcher, startKey: Option<StorageKey>): (lo: nat)
    requires startKey.Some? ==> startKey.value.token.IndexKey? && startKey.value.token.index >= -1
    ensures lo <= |f.accounts|
  {
    if startKey.None? then 0
    else Min(startKey.value.token.index + 1, |f.accounts|)
  }

  /** A fetch from the start or after a key k >= -1 returns a contiguous run
      of the backing array, starting at index k + 1 and no longer than the
      page size. (A key below -1 would make `slice` count from the end of
      the array.) */
  lemma FetchIsContiguousSlice(f: LocalAccountFetcher, startKey: Option<StorageKey>)
    requires f.pageSize >= 0
    requires startKey.Some? ==> startKey.value.token.IndexKey? && startKey.value.token.index >= -1
    ensures FetchAccounts(f, startKey).Success?
    ensures var page := FetchAccounts(f, startKey).value;
      var lo := PageStart(f, startKey);
      && |page| <= f.pageSize
      && lo + |page| <= |f.accounts|
      && page == f.accounts[lo..lo + |page|]
  {
  }

  function Flatten(pages: seq<seq<Record>>): (records: seq<Record>)
  {
    if |pages| == 0 then [] else pages[0] + Flatten(pages[1..])
  }

  lemma {:induction false} FlattenConcat(a: seq<seq<Record>>, b: seq<seq<Record>>)
    ensures Flatten(a + b) == Flatten(a) + Flatten(b)
  {
    if |a| > 0 {
      assert (a + b)[1..] == a[1..] + b;
      FlattenConcat(a[1..], b);
    } else {
      assert a + b == b;
    }
  }

  /** How a walk over a source ended. `OutOfFuel` means the walk was cut off
      after its allotted number of fetches, which the migration excludes. */
  datatype Ending = Exhausted | SourceFailed(error: MigrationError) | OutOfFuel

  /** The non-empty pages a walk fetched, in order, and how it ended. */
  datatype Trace = Trace(pages: seq<seq<Record>>, ending: Ending)

  /** Drain `source` starting at `cursor`, each later fetch taking the last
      key of the previous page, until a page comes back empty or a fetch
      fails; at most `fuel` fetches are made. */
  function Walk(source: PageSource, cursor: Option<StorageKey>, fuel: nat): (w: Trace)
    ensures forall i :: 0 <= i < |w.pages| ==> |w.pages[i]| > 0
    ensures |w.pages| + (if w.ending.OutOfFuel? then 0 else 1) <= fuel
    decreases fuel
  {
    if fuel == 0 then Trace([], OutOfFuel)
    else
      match source(cursor)
      case Failure(e) => Trace([], SourceFailed(e))
      case Success(page) =>
        if |page| == 0 then Trace([], Exhausted)
        else
          var rest := Walk(source, Some(LastKey(page)), fuel - 1);
          Trace([page] + rest.pages, rest.ending)
  }

  /** The cursor a walk that started at `cursor` and fetched `pages` passes
      to its final fetch. */
  function FinalCursor(cursor: Option<StorageKey>, pages: seq<seq<Record>>): Option<StorageKey>
    requires forall i :: 0 <= i < |pages| ==> |pages[i]| > 0
  {
    if |pages| == 0 then cursor else Some(LastKey(pages[|pages| - 1]))
  }

  /** Every page of a walk is what the source returned for the previous
      page's last key, and the walk stops exactly at the first empty page or
      failed fetch. */
  lemma {:induction false} WalkFollowsCursors(source: PageSource, cursor: Option<StorageKey>, fuel: nat)
    ensures var w := Walk(source, cursor, fuel);
      && (|w.pages| > 0 ==> source(cursor) == Success(w.pages[0]))
      && (forall i :: 1 <= i < |w.pages| ==> source(Some(LastKey(w.pages[i - 1]))) == Success(w.pages[i]))
      && (w.ending.Exhausted? ==> source(FinalCursor(cursor, w.pages)) == Success([]))
      && (w.ending.SourceFailed? ==> source(FinalCursor(cursor, w.pages)) == Failure(w.ending.error))
    decreases fuel
  {
    var w := Walk(source, cursor, fuel);
    if fuel > 0 && source(cursor).Success? && |source(cursor).value| > 0 {
      var page := source(cursor).value;
      var rest := Walk(source, Some(LastKey(page)), fuel - 1);
      WalkFollowsCursors(source, Some(LastKey(page)), fuel - 1);
      assert w.pages == [page] + rest.pages;
      forall i | 1 <= i < |w.pages|
        ensures source(Some(LastKey(w.pages[i - 1]))) == Success(w.pages[i])
      {
        if i > 1 {
          assert w.pages[i - 1] == rest.pages[i - 2] && w.pages[i] == rest.pages[i - 1];
        }
      }
      if |rest.pages| > 0 {
        assert FinalCursor(cursor, w.pages) == FinalCursor(Some(LastKey(page)), rest.pages);
      }
    }
  }

  /** One step of a walk that gets a non-empty page. */
  lemma WalkStep(source: PageSource, cursor: Option<StorageKey>, fuel: nat, page: seq<Record>)
    requires fuel > 0 && source(cursor) == Success(page) && |page| > 0
    ensures var rest := Walk(source, Some(LastKey(page)), fuel - 1);
      Walk(source, cursor, fuel) == Trace([page] + rest.pages, rest.ending)
  {
  }

  /** A walk that gets an empty page stops there. */
  lemma WalkStop(source: PageSource, cursor: Option<StorageKey>, fuel: nat)
    requires fuel > 0 && source(cursor) == Success([])
    ensures Walk(source, cursor, fuel) == Trace([], Exhausted)
  {
  }

  /** The source an in-memory fetcher presents. */
  function LocalSource(f: LocalAccountFetcher): PageSource {
    k => FetchAccounts(f, k)
  }

  /** Records whose keys are their own indices, as the in-memory fetcher
      expects of the array it is given. */
  predicate KeysAreIndices(accounts: seq<Record>) {
    forall i :: 0 <= i < |accounts| ==> accounts[i].key.token == IndexKey(i)
  }

  /** The number of non-empty pages of size `pageSize` that `n` records fill. */
  function PageCount(n: int, pageSize: int): nat
    requires pageSize >= 1
    decreases n
  {
    if n <= 0 then 0 else 1 + PageCount(n - pageSize, pageSize)
  }

  lemma {:induction false} PageCountIsCeiling(n: nat, pageSize: int)
    requires pageSize >= 1
    ensures PageCount(n, pageSize) == (n + pageSize - 1) / pageSize
    decreases n
  {
    if n > pageSize {
      PageCountIsCeiling(n - pageSize, pageSize);
      DivShift(n - 1, pageSize);
    } else if n > 0 {
      assert PageCount(n - pageSize, pageSize) == 0;
      DivOne(n + pageSize - 1, pageSize);
    }
  }

  lemma DivOne(x: nat, d: int)
    requires d >= 1 && d <= x < 2 * d
    ensures x / d == 1
  {
    assert x == 1 * d + (x - d);
  }

  /** The cursor at which the walk reaches index `s` of an index-keyed array. */
  function CursorAt(accounts: seq<Record>, s: nat): Option<StorageKey>
    requires s <= |accounts|
  {
    if s == 0 then None else Some(accounts[s - 1].key)
  }

  /** The page an index-keyed in-memory fetcher returns at index `s`. */
  lemma LocalFetchAt(f: LocalAccountFetcher, s: nat)
    requires KeysAreIndices(f.accounts) && f.pageSize >= 1 && s <= |f.accounts|
    ensures LocalSource(f)(CursorAt(f.accounts, s)) == Success(f.accounts[s..Min(s + f.pageSize, |f.accounts|)])
  {
    var n := |f.accounts|;
    if s == 0 {
      assert FetchAccounts(f, None) == Success(f.accounts[..Min(f.pageSize, n)]);
    } else {
      var key := f.accounts[s - 1].key;
      assert key.token == IndexKey(s - 1);
      if s == n {
        assert FetchAccounts(f, Some(key)) == Success([]);
        assert f.accounts[s..Min(s + f.pageSize, n)] == [];
      } else {
        assert FetchAccounts(f, Some(key)) == Success(f.accounts[s..Min(s + f.pageSize, n)]);
      }
    }
  }

  /** A source that, at the cursor for index `s`, returns the next
      `pageSize` records of `accounts` from index `s` on. */
  ghost predicate SlicesBy(source: PageSource, accounts: seq<Record>, pageSize: int) {
    pageSize >= 1 &&
    forall s: nat :: s <= |accounts| ==>
      source(CursorAt(accounts, s)) == Success(accounts[s..Min(s + pageSize, |accounts|)])
  }

  lemma {:induction false} SlicingWalkFrom(source: PageSource, accounts: seq<Record>, pageSize: int, s: nat, fuel: nat)
    requires pageSize >= 1 && s <= |accounts| && SlicesBy(source, accounts, pageSize)
    requires fuel > PageCount(|accounts| - s, pageSize)
    ensures var w := Walk(source, CursorAt(accounts, s), fuel);
      && w.ending == Exhausted
      && Flatten(w.pages) == accounts[s..]
      && |w.pages| == PageCount(|accounts| - s, pageSize)
    decreases |accounts| - s
  {
    var n := |accounts|;
    var next := Min(s + pageSize, n);
    var page := accounts[s..next];
    var cursor := CursorAt(accounts, s);
    assert source(cursor) == Success(page);
    if s < n {
      assert PageCount(n - s, pageSize) == 1 + PageCount(n - next, pageSize);
      SlicingWalkFrom(source, accounts, pageSize, next, fuel - 1);
      assert CursorAt(accounts, next) == Some(LastKey(page));
      WalkStep(source, cursor, fuel, page);
      var rest := Walk(source, Some(LastKey(page)), fuel - 1);
      assert accounts[s..] == page + accounts[next..];
      assert ([page] + rest.pages)[1..] == rest.pages;
    } else {
      assert page == [];
      WalkStop(source, cursor, fuel);
    }
  }

  /** Walking an in-memory fetcher from no key, re-feeding each page's last
      key, yields the whole array in order, in ceil(n / pageSize) non-empty
      pages followed by one empty page. */
  lemma LocalWalkCoversAll(f: LocalAccountFetcher, fuel: nat)
    requires KeysAreIndices(f.accounts) && f.pageSize >= 1
    requires fuel > (|f.accounts| + f.pageSize - 1) / f.pageSize
    ensures var w := Walk(LocalSource(f), None, fuel);
      && w.ending == Exhausted
      && Flatten(w.pages) == f.accounts
      && |w.pages| == (|f.accounts| + f.pageSize - 1) / f.pageSize
  {
    PageCountIsCeiling(|f.accounts|, f.pageSize);
    forall s: nat | s <= |f.accounts|
      ensures LocalSource(f)(CursorAt(f.accounts, s)) == Success(f.accounts[s..Min(s + f.pageSize, |f.accounts|)])
    {
      LocalFetchAt(f, s);
    }
    SlicingWalkFrom(LocalSource(f), f.accounts, f.pageSize, 0, fuel);
  }
}
