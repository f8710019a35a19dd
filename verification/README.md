# Balance migration: a Dafny model

This project models the core of the cc3 balance-migration tool. The tool
walks a paginated source of account records from the old chain and adds
up each account's free and reserved balance. It sends the balances of a
configured set of blocked accounts to one funnel account and refuses
duplicate accounts. The result is written into the balances list of a
genesis chain spec. Four small helpers are modelled as well: the
in-memory account pager, the import-path rewriter of the type generator,
the credo/CTC unit conversion, and endpoint aliasing.

Modules, one per file:

- `Outcomes` (outcomes.dfy) defines `Option` and `Result`. `Errors` (errors.dfy) defines the error conditions the program throws.
- `JsSemantics` (js_semantics.dfy) spells out the JavaScript built-ins the code relies on:
  - `Array.prototype.slice` with relative indices;
  - BigInt `/`, which truncates toward zero;
  - `startsWith`/`endsWith`/`indexOf`;
  - `replace` with a string pattern, which replaces only the first occurrence.

  `Arith` (arith.dfy) holds the division facts used to reason about them.
- `Ss58` (ss58.dfy) models `Ss58AccountId`. The SS58 codec is a parameter made of two functions: whether `decodeAddress` accepts a string, and what `encodeAddress` returns.
- `Config` (config.dfy) models the mapping step of `parseConfig` and `makeBlockedSet`. It also shows how the blocked lookup behaves as written.
- `Accounts` (accounts.dfy) covers:
  - `BalanceData`, the storage keys, and the `AccountFetcher` contract as a page source;
  - `LocalAccountFetcher`;
  - the walk that drains a source page by page.
- `Balances` (balances.dfy) covers `mapBalances`:
  - a reference function `MapBalancesSpec`, stated over the walk of the source;
  - a fuelled run of the fetch-then-process loop, `MapBalancesRun`, which also stops when processing fails;
  - the loop as a method, `MapBalances`, proved equal to the run and, when the walk ends, to the reference;
  - conservation, duplicate and funnel properties;
  - the corrected aggregation that also counts the first page.
- `ChainSpec` (chain_spec.dfy) covers `readSpec`, reading the merge seed, `makeBalancesConfig` and `doMigrateBalances` over a JSON datatype.
- `Util` (util.dfy), `Api` (api.dfy) and `Typegen` (typegen.dfy) model util.ts, api.ts and typegen.ts.

Parameters instead of effects:

- The RPC account query becomes a `PageSource`: a function from an optional cursor (the last key of the previous page) to a page of records or an error.
- Termination is a requirement: the loop of `mapBalances` must finish within a ghost bound of fetches, either on an empty page, on a failed fetch, or on the first processing error. The walk and the run are written with fuel.
- Reading and writing files is replaced by the parsed values. The spec is a `Json` value and the configuration is a `RawConfig`.

The model follows the code in these places:

- Only the pages after the first are processed by `MapBalances` (see Findings).
- Non-blocked entries are keyed by the raw address string of the storage key, not by the normalised identity. The duplicate test is likewise on the raw address.
- The duplicate test is JavaScript truthiness, so an existing entry of 0 is overwritten rather than reported.
- Seed amounts are arbitrary integers, not only unsigned ones.
- Property reads and the final assignment on the spec follow strict-mode JavaScript. Reading through `undefined` or `null` throws. A list read off an array or a scalar is `undefined`. Assigning the list onto an array parent succeeds but does not show in the JSON output.

One deliberate correction: membership in the blocked set is decided by canonical address. The code compares object references and never matches; see Findings.

## Model

| member | source | states |
|---|---|---|
| Ss58.AccountIdFrom | main.ts:57-67 | A string `decodeAddress` accepts is kept verbatim. Otherwise the result is `encodeAddress`'s output. If both reject it, the result is an "invalid account id" error naming the input, and only then. |
| Ss58.AccountIdFromIdempotent | main.ts:57-67 | With a codec whose encoder yields decodable addresses, a normalised address is decodable and normalising it again changes nothing. |
| Config.MapAccountIds | main.ts:240-245 | `accounts.map(Ss58AccountId.from)` succeeds iff every address normalises. Its output is element-wise the normalised identities. A failure is the error of the first invalid address. |
| Config.ParseConfig | main.ts:239-246 | No `blocked` section gives an empty config. Otherwise the config fails iff some blocked account or the funnel is invalid. The error is "invalid account id" naming the first invalid account, or the funnel when every account is valid. On success every account and the funnel are their normalised identities. |
| Config.MakeBlockedSet | main.ts:84-90 | The blocked set holds exactly the canonical addresses of the configured accounts (the corrected lookup). |
| Config.BlockedLookupAsWritten | main.ts:84-90 | A `Set` of identity objects never contains a freshly constructed identity, so the lookup at line 143 is always false. |
| Config.BlockedLookupMissesConfiguredAccount | main.ts:140-143 | Concrete case: the configured account "5Blocked" is not found by a lookup with its own address. |
| Accounts.NewLocalAccountFetcher | account-fetch.ts:72-75 | The page size defaults to 1000; the accounts are kept as given. |
| Accounts.FetchAccounts | account-fetch.ts:79-95 | Behaviour by start key: <br>• none: the first min(pageSize, n) records; <br>• numeric key k with k+1 >= n: an empty page; <br>• numeric key k with -1 <= k and k+1 < n: records k+1 up to min(k+1+pageSize, n); <br>• any other key: "Invalid startKey". <br>A page is never longer than the array. |
| Accounts.FetchIsContiguousSlice | account-fetch.ts:82-92 | For no key or a key k >= -1, the page is a contiguous run of the array starting at k+1, no longer than the page size. |
| Accounts.Walk | main.ts:125-131 | The walk's pages are all non-empty. With fuel f it makes at most f fetches. |
| Accounts.WalkFollowsCursors | main.ts:125-131 | The first page is the fetch without a cursor; every later page is the fetch after the previous page's last key. The walk stops exactly at the first empty page or failed fetch. |
| Accounts.SlicingWalkFrom | account-fetch.ts:82-92 | Suppose a source returns at each index the next `pageSize` records. Then the walk from that index ends exhausted, concatenates to the rest of the array, and has ceil(rest / pageSize) pages. |
| Accounts.LocalWalkCoversAll | account-fetch.ts:82-92 | Walking an index-keyed in-memory fetcher from no key yields the whole array in order, in ceil(n / pageSize) pages, and then an empty page. |
| Accounts.PageCountIsCeiling | account-fetch.ts:82-92 | The number of non-empty pages n records fill is (n + pageSize - 1) / pageSize. |
| Balances.SeedMap | main.ts:118 | `new Map(initial ?? [])` has exactly the seed's keys. Each key holds the value of its last pair. |
| Balances.BlockingOf | main.ts:120-123 | With no blocked section nothing is blocked and there is no funnel. Otherwise the blocked set is exactly the configured accounts' canonical addresses, and the funnel is its canonical address. |
| Balances.Credit | main.ts:144-145 | Adding to an entry that starts at 0 when absent raises the map's sum by exactly the amount. |
| Balances.ApplyRecord | main.ts:139-151 | For one record: <br>• an invalid address fails with its error; <br>• otherwise the record fails iff it is not redirected and its raw address holds a non-zero amount ("duplicate account"); <br>• on success the target (funnel or raw address) gains the total and the sum grows by it. |
| Balances.ApplyRecords | main.ts:133-152 | Over a run of records, stopping at the first error: on success the sum grows by the records' totals and no key disappears. |
| Balances.ApplyRecordsConcat | main.ts:129-152 | Processing two runs in a row is processing their concatenation. |
| Balances.NonZeroEntriesKept | main.ts:146-150 | A non-zero entry other than the funnel's is never changed by a successful run. |
| Balances.PositiveEntriesStayPositive | main.ts:143-150 | A positive entry stays positive. |
| Balances.NewEntriesAreTargets | main.ts:143-150 | Every key a run creates is the funnel's or the raw address of a record that was not redirected, so a blocked address gets no entry of its own. |
| Balances.EntryGrowsByTargetedTotals | main.ts:143-150 | On success each entry is its starting amount plus the totals of the records aimed at it. For the funnel, these are the redirected records, plus any non-redirected record whose raw address equals the funnel string. |
| Balances.BlockedRecordFunneled | main.ts:120-143 | A record whose normalised identity is a configured blocked account goes to the funnel when the funnel is non-empty. |
| Balances.PositiveEntryRefusesRecord | main.ts:147-148 | A later non-redirected record of an address holding a positive amount makes the run fail. This covers an address from the merge seed. |
| Balances.RepeatedAddressRefused | main.ts:146-150 | Two non-redirected records of one raw address, the first with a positive total, make the run fail. |
| Balances.FrozenBalancesIgnored | main.ts:136-141 | Records that differ only in `miscFrozen`/`feeFrozen` are processed identically. |
| Balances.MapBalancesSpec | main.ts:113-158 | On success the walk ended on an empty page. The final sum is the seed's sum plus the totals of the processed records (every page but the first). A failed first fetch is its error; an empty first page gives the seed map. |
| Balances.SpecAfterFirstPage | main.ts:125-133 | After a non-empty first page, the result is the seed settled against the walk that continues after that page's last key. |
| Balances.SettleStep | main.ts:129-152 | Settling a walk whose next page is non-empty is processing that page, then settling the walk after it; the first error wins. |
| Balances.ApplyPage | main.ts:133-152 | The record loop over one page computes exactly `ApplyRecords`. |
| Balances.Run | main.ts:125-152 | A run finishes only with fuel left. A failed fetch ends it with that fetch's error, and an empty page ends it with the map unchanged. |
| Balances.MapBalancesRun | main.ts:113-158 | A finished run used at least one fetch. A failed first fetch is its error, and an empty first page leaves the seed map as the result. |
| Balances.RunSettlesWalk | main.ts:125-152 | If the walk from a cursor ends within the fuel, the run from there finishes with the walk's pages processed in order; the first error wins. |
| Balances.RunAgreesWithSpec | main.ts:113-158 | On every source whose walk ends within the bound, the run of `mapBalances` finishes with exactly the walk-based result `MapBalancesSpec`. |
| Balances.MapBalances | main.ts:113-158 | The loop of `mapBalances` (fetch the next page, then process it) computes exactly the run's result whenever the run finishes within the bound. Every success comes from a walk that ended on an empty page; it then equals `MapBalancesSpec` and conserves the sum. |
| Balances.RunSuccessEndsWalk | main.ts:125-131 | A run that finishes successfully implies that the walk from the same cursor ends on an empty page within the same fuel. |
| Balances.MapBalancesRunSuccessEndsWalk | main.ts:113-131 | A successful run of `mapBalances` implies that the walk from no cursor is exhausted within the bound. |
| Balances.ProcessedRecordHolds | main.ts:146-150 | After a successful run of records, the raw address of any non-redirected record with a positive total holds a positive amount. |
| Balances.RepeatedPageStopsRun | main.ts:129-150 | A source may serve a page again right after it, where the page holds a non-redirected record with a positive total. The run then finishes with an error, whether or not the walk ever ends. |
| Balances.RepeatingWalkNeverEnds | main.ts:125-131 | A source that serves the same page first and again after that page's last key never returns an empty page, so its walk runs out of any fuel. |
| Balances.RepeatingSourceStops | account-fetch.ts:82-92 | An in-memory fetcher whose one record carries the key -1 is such a source: no bound lets the walk end, yet the run of `mapBalances` stops after three fetches with "duplicate account: 5A". |
| Balances.LocalProcessedRecords | main.ts:125-133 | Over an in-memory fetcher, the records processed are the array without its first `pageSize` records. |
| Balances.AggregateAllPages | main.ts:125-133 | Corrected aggregation: on success the sum is the seed's plus the totals of all fetched records, the first page included. |
| Balances.FirstPageOnlyWhenCorrected | main.ts:125-133 | After the same first page, as written the walk after it is settled from the seed. Corrected, the first page is processed first. |
| Balances.FirstPageDroppedExample | main.ts:125-133 | One account holding 5: as written the result is the empty map; corrected it is {"5A": 5}. |
| ChainSpec.ReadSpec | main.ts:92-103 | A parsed document is a spec iff it is an object (not null, not an array, not a scalar); otherwise "invalid spec". |
| ChainSpec.SetSucceedsIffParentsExist | main.ts:177 | An assignment to a path succeeds iff every object on the way exists and the target's parent is an object or an array. `null`, scalars and missing values throw. |
| ChainSpec.GetAfterSet | main.ts:177 | After an assignment onto an object parent, the target path reads back as the assigned value. Onto an array parent, the document is unchanged. |
| ChainSpec.SetLeavesOthers | main.ts:177 | An assignment leaves every path that parts ways with the target unchanged. |
| ChainSpec.PairsToJson | main.ts:105-111 | The list has one `[address, amount]` entry per pair, in order. |
| ChainSpec.PairsFromJson | main.ts:118 | A list is accepted iff it is an array of `[string, integer]` entries. It reads back element-wise. |
| ChainSpec.PairsRoundTrip | main.ts:105-118 | Writing pairs as a JSON list and reading them back gives the same pairs. |
| ChainSpec.Prop | main.ts:169 | A property read throws iff the value is `undefined` or `null`. It yields a value iff the value is an object holding that field; arrays and scalars yield `undefined`. |
| ChainSpec.ReadPathBelow | main.ts:169 | Reading one property below a path throws iff the path leads nowhere or to `null`. Otherwise it yields the field of an object and `undefined` for an array or scalar. |
| ChainSpec.ReadSeed | main.ts:169 | In merge mode, reading the list throws ("invalid spec") iff `genesis.runtime.balances` is missing or null. If it holds anything else and the list is absent or null, nothing is seeded; this includes an array or scalar parent. A present non-null list is read as pairs. |
| ChainSpec.MakeBalancesConfig | main.ts:105-111 | One pair per entry with that entry's amount. Keys are distinct and cover the map, so `new Map(config)` gives back the map. |
| ChainSpec.WriteBalances | main.ts:173-177 | The assignment succeeds iff the objects above the list exist and the list's parent is an object or an array. Onto an object, the list reads back as the map. Onto an array, the spec is unchanged. Diverging paths are untouched either way. |
| ChainSpec.DoMigrateBalances | main.ts:160-180 | Seeds from the spec only in merge mode, with an unreadable seed failing first. It requires only that the run of `mapBalances` finishes within the bound. It succeeds iff that run succeeds, the objects above `genesis.runtime.balances` exist, and that value is an object or an array. A failed run surfaces its own error unchanged. A successful run with a missing, null or scalar parent gives "invalid spec". For an object, the balances list then reads back as the migrated map. For an array, the spec comes back unchanged. Every path that parts ways with `genesis.runtime.balances.balances` is unchanged. |
| Util.CtcIsTenToTheEighteenth | util.ts:16 | CTC is 10^18 credo. |
| Util.ToCtc | util.ts:18-20 | A non-negative amount is rounded down to whole CTC and a negative one up, as BigInt division truncates. |
| Util.ToCredo | util.ts:29-31 | The result is a whole number of CTC with the sign of the input. |
| Util.CtcCredoRoundTrip | util.ts:18-31 | `toCtc(toCredo(x)) == x` for every integer x. |
| Util.CredoCtcFloor | util.ts:18-31 | For credo >= 0: toCredo(toCtc(credo)) <= credo < toCredo(toCtc(credo)) + CTC. |
| Util.ToCtcTruncatesTowardZero | util.ts:19 | The conversion is symmetric about zero: -1 credo is 0 CTC, where Euclidean division gives -1. |
| Util.ArrayRange | util.ts:9-14 | An omitted step is 1. Element i is start + i*step. The length is the truncated `(stop - start) / step + 1`, clamped at 0. A zero step with a positive span, or a length past the array limit, is a RangeError (`None`). A zero step with no positive span gives the empty array. |
| Util.ArrayRangeExact | util.ts:9-14 | With step > 0 and stop - start = k*step, the range has k+1 elements, first `start`, last `stop`. |
| Util.ArrayRangeStopsBeforeOvershoot | util.ts:9-14 | With step > 0 and start <= stop, the last element is at most `stop` and a further step would pass it. |
| Util.ArrayRangeEmpty | util.ts:9-14 | With step > 0 and stop < start, the range is empty. |
| Util.ArrayRangeDefaultStep | util.ts:9-14 | Without a step, the range is start, start+1, …, stop, for start <= stop within the array limit. |
| Api.ToEndpoint | api.ts:14-29 | "dev", "test", "main", "local" and "cc3-dev" map to their fixed URLs. Any other string is returned unchanged. No alias maps to an alias. |
| Api.ToEndpointIdempotent | api.ts:14-29 | Resolving an endpoint twice is resolving it once. |
| Api.MakeApiEndpoint | api.ts:31-35 | An omitted endpoint resolves to "ws://127.0.0.1:9944"; a given one resolves through `toEndpoint`. |
| Typegen.CountSlashes | typegen.ts:82-90 | The count is the number of '/' characters, at most the length. |
| Typegen.WithThing | typegen.ts:92-94 | The output is the keyword, a space, the quoted path and a ";" iff `semi`, at the stated positions. |
| Typegen.WithThingInjective | typegen.ts:92-94 | The quoted path can be recovered from the statement. |
| Typegen.RewritePath | typegen.ts:104-127 | Branch by branch, in the source's order: <br>• ".ts" unchanged; <br>• ".js" gets its first ".js" replaced; <br>• the five index packages get "/index.ts"; <br>• an interfaces path with three slashes gets "/types.ts"; <br>• "."-relative with one slash gets ".ts"; <br>• any other one-slash path gets "/mod.ts"; <br>• anything else gets ".ts". <br>Every branch but ".js" ends in ".ts". |
| Typegen.ReplaceImport | typegen.ts:104-127 | The statement is exactly the keyword, a space, the rewritten path in single quotes, and a ";" iff `semi` is omitted or true. |
| Typegen.JsExtensionRewritten | typegen.ts:108-109 | When the extension is the only ".js", it becomes ".ts". |
| Typegen.JsFirstOccurrenceRewritten | typegen.ts:108-109 | "./a.js/b.js" becomes "./a.ts/b.js": only the first ".js" is replaced, and the result does not end in ".ts". |
| JsSemantics.Slice | account-fetch.ts:83 | `slice` returns at most the whole array. For 0 <= start <= end it is the clamped sub-range. |
| JsSemantics.TruncDiv | util.ts:19 | BigInt division: the remainder has the sign of the dividend and is smaller than the divisor. |
| JsSemantics.IndexOf | typegen.ts:109 | `indexOf` reports the first occurrence, or none when there is no occurrence. |
| JsSemantics.ReplaceFirst | typegen.ts:109 | `replace` with a string pattern replaces the first occurrence only, and changes nothing when there is none. |

## Left out

- Network and RPC code is outside the model. This covers `fetchAccounts` (main.ts:18-28), `migrateBalances` with its finalized-head lookup, `ApiAccountFetcher`, `makeApi`'s connection and `withApi`, `sendAndWait` and the metadata fetch of typegen.ts. These are external services; their results enter only as the `PageSource` parameter.
- The SS58 base-58 and checksum algorithms are not modelled. They belong to a foreign library and are the `Codec` parameter.
- File reading and writing, `jsonParse`/`jsonStringify` (json.ts), zod's `Config.parse`, the typegen directory walk and its regex rewriting, and the CLI wiring of `main()` are not modelled. The model starts from parsed values.
- `RateLogger` and `toCtcApprox` are left out: one is logging and timing, the other floating point.
- Accounts.Walk: the walk is cut off after a ghost number of fetches. It models the fetching alone, so a source that never returns an empty page has no finished walk.
- Balances.MapBalancesSpec: defined only for sources whose walk ends within the bound. The program also stops on sources whose walk never ends, when processing fails first; a page served twice is refused as a duplicate. Those sources are covered by `Balances.MapBalancesRun`, which `MapBalances` and `DoMigrateBalances` follow. `Balances.RunAgreesWithSpec` relates the two wherever both are defined.
- Config.ParseConfig: models lines 239-246, from a parsed raw config onward. As written, main.ts:238 passes the file's raw text to `Config.parse`. zod rejects a string where it expects an object, so every `--config` file fails there. That call is not modelled.
- ChainSpec.PairsFromJson: `new Map` accepts more entry shapes than `[string, integer]` pairs, for example longer arrays or non-string keys. It also accepts the empty string as an empty iterable. The model rejects all of these as "invalid spec".
- ChainSpec.MakeBalancesConfig: the pairs follow the map's insertion order in JavaScript; Dafny maps are unordered, so the model states only the content.
- Util.ArrayRange: the arguments are JavaScript numbers; the model takes integers, so fractional arguments and rounding are not modelled.
- Accounts.FetchAccounts: for a numeric key below -1, `slice` counts from the end of the array. The body models this through `JsSemantics.Slice`, but the contract states only that the page is no longer than the array. The same holds for a negative page size: the contract's cases for no key and for keys >= -1 assume a page size >= 0.
- JsSemantics.Slice: the contract pins down the result only for 0 <= start <= end. Negative or crossed bounds are computed by the body, and the contract bounds only their length.
- Balances.MapBalances: amounts are unbounded integers, as BigInts are. The `rate.inc` progress counter is not modelled. A source on which the loop never finishes is excluded by the requirement that the run finishes within the ghost bound; the program does not terminate on such a source either.

## Findings

| source | as written | input that shows it | evidently intended | confidence | as-written member | corrected member |
|---|---|---|---|---|---|---|
| main.ts:84-90, main.ts:143 | `makeBlockedSet` puts the `Ss58AccountId` objects in a `Set`. The lookup probes with a new object, and `Set.has` compares references, so blocked accounts are never redirected. | blocked accounts ["5Blocked"], funnel "5Funnel", a record with address "5Blocked" | the record's total goes to the funnel | high, not executed | Config.BlockedLookupMissesConfiguredAccount | Balances.BlockedRecordFunneled |
| main.ts:125-133 | The loop fetches the next page before processing the current one, so the first page's records are never added. | a chain whose accounts all fit on the first page (fewer than 1000), e.g. one account with free balance 5, no seed, nothing blocked: the migrated list is empty | the migrated map holds every account, here that one with 5 | high, not executed | Balances.FirstPageDroppedExample | Balances.AggregateAllPages |

The model uses each corrected definition differently:

- The blocked-set lookup by canonical address (`Config.MakeBlockedSet`) is the one `MapBalances` uses.
- For the first page, `MapBalances` and `DoMigrateBalances` keep the order of fetches the program performs. `Balances.AggregateAllPages` is the corrected aggregation. `Balances.FirstPageOnlyWhenCorrected` relates the two for every source.
