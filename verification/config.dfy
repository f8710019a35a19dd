/** The configuration of main.ts after schema validation: the optional list
    of blocked accounts and the funnel that receives their balances. */
module Config {
  import opened Outcomes
  import opened Errors
  import opened Ss58

  /** The configuration as the schema admits it: plain strings. */
  datatype RawBlocked = RawBlocked(accounts: seq<string>, funnel: string)
  datatype RawConfig = RawConfig(blocked: Option<RawBlocked>)

  /** `BlockedAccounts` and `Config` after every string is normalised. */
  datatype BlockedAccounts = BlockedAccounts(accounts: seq<AccountId>, funnel: AccountId)
  datatype Config = Config(blocked: Option<BlockedAccounts>)

  /** `values.map(Ss58AccountId.from)`: stops at the first invalid address. */
  function MapAccountIds(codec: Codec, values: seq<string>): (r: Result<seq<AccountId>, MigrationError>)
    ensures r.Success? <==> forall i :: 0 <= i < |values| ==> AccountIdFrom(codec, values[i]).Success?
    ensures r.Success? ==> |r.value| == |values|
    ensures r.Success? ==> forall i :: 0 <= i < |values| ==> Success(r.value[i]) == AccountIdFrom(codec, values[i])
    ensures r.Failure? ==> exists i :: 0 <= i < |values| && AccountIdFrom(codec, values[i]) == Failure(r.error)
                                       && forall j :: 0 <= j < i ==> AccountIdFrom(codec, values[j]).Success?
  {
    if |values| == 0 then Success([])
    else
      match AccountIdFrom(codec, values[0])
      case Failure(e) => Failure(e)
      case Success(id) =>
        match MapAccountIds(codec, values[1..])
        case Failure(e) =>
          Failure(e)
        case Success(rest) =>
          Success([id] + rest)
  }

  /** The mapping step of `parseConfig`: every blocked account, then the
      funnel, is normalised; any invalid address rejects the configuration. */
  function ParseConfig(codec: Codec, raw: RawConfig): (r: Result<Config, MigrationError>)
    ensures raw.blocked.None? ==> r == Success(Config(None))
    ensures r.Failure? <==>
              raw.blocked.Some?
              && ((exists i :: 0 <= i < |raw.blocked.value.accounts| && AccountIdFrom(codec, raw.blocked.value.accounts[i]).Failure?)
                  || AccountIdFrom(codec, raw.blocked.value.funnel).Failure?)
    ensures r.Success? && raw.blocked.Some? ==>
              && r.value.blocked.Some?
              && |r.value.blocked.value.accounts| == |raw.blocked.value.accounts|
              && (forall i :: 0 <= i < |raw.blocked.value.accounts| ==>
                    AccountIdFrom(codec, raw.blocked.value.accounts[i]) == Success(r.value.blocked.value.accounts[i]))
              && AccountIdFrom(codec, raw.blocked.value.funnel) == Success(r.value.blocked.value.funnel)
    ensures r.Failure? && raw.blocked.Some? ==>
              var b := raw.blocked.value;
              || (exists i :: 0 <= i < |b.accounts| && AccountIdFrom(codec, b.accounts[i]).Failure?
                                && r.error == InvalidAccountId(b.accounts[i])
                                && forall j :: 0 <= j < i ==> AccountIdFrom(codec, b.accounts[j]).Success?)
              || ((forall i :: 0 <= i < |b.accounts| ==> AccountIdFrom(codec, b.accounts[i]).Success?)
                  && r.error == InvalidAccountId(b.funnel))
  {
    match raw.blocked
    case None => Success(Config(None))
    case Some(b) =>
      var accounts :- MapAccountIds(codec, b.accounts);
      var funnel :- AccountIdFrom(codec, b.funnel);
      Success(Config(Some(BlockedAccounts(accounts, funnel))))
  }

  /** `makeBlockedSet`, with membership decided by the canonical address.
      The source stores the `Ss58AccountId` objects themselves in a `Set`,
      whose `has` compares references, so a freshly constructed identity is
      never found (see `BlockedLookupAsWritten`); the model keeps the set of
      canonical strings, the same representation the funnel key uses. */
  function MakeBlockedSet(blocked: BlockedAccounts): (s: set<string>)
    ensures forall i :: 0 <= i < |blocked.accounts| ==> blocked.accounts[i].value in s
    ensures forall v :: v in s ==> exists i :: 0 <= i < |blocked.accounts| && blocked.accounts[i].value == v
  {
    set i | 0 <= i < |blocked.accounts| :: blocked.accounts[i].value
  }

  /** An `Ss58AccountId` object as JavaScript sees it: a reference. */
  class AccountIdObject {
    const value: string

    constructor(value: string)
      ensures this.value == value
    {
      this.value := value;
    }
  }

  /** The lookup `blockedSet.has(new Ss58AccountId(address))` as written: the
      probe is a new object, so it is never in the set, even when the set
      holds an identity with the very same address. */
  method BlockedLookupAsWritten(blockedSet: set<AccountIdObject>, address: string) returns (found: bool)
    ensures !found
  {
    var probe := new AccountIdObject(address);
    found := probe in blockedSet;
  }

  /** A concrete instance: the configured account "5Blocked" is not found by
      a lookup with its own address. */
  method BlockedLookupMissesConfiguredAccount() returns (found: bool, configured: string)
    ensures configured == "5Blocked" && !found
  {
    var account := new AccountIdObject("5Blocked");
    configured := account.value;
    found := BlockedLookupAsWritten({account}, configured);
  }
}
