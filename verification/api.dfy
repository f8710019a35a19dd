/** Endpoint aliasing from api.ts: a handful of short names stand for the
    WebSocket URLs of known networks; anything else is taken as a URL. */
module Api {
  import opened Outcomes

  // The alias names of `KnownEndpoint`.
  const Dev: string := "dev"
  const Test: string := "test"
  const Main: string := "main"
  const Local: string := "local"
  const Cc3Dev: string := "cc3-dev"

  predicate IsAlias(endpoint: string) {
    endpoint == Dev || endpoint == Test || endpoint == Main || endpoint == Local || endpoint == Cc3Dev
  }

  /** `toEndpoint`: resolve an alias to its URL, pass any other string through. */
  function ToEndpoint(endpoint: string): (url: string)
    ensures endpoint == Dev ==> url == "wss://rpc.devnet.creditcoin.network/ws"
    ensures endpoint == Test ==> url == "wss://rpc.testnet.creditcoin.network/ws"
    ensures endpoint == Main ==> url == "wss://mainnet.creditcoin.network/ws"
    ensures endpoint == Local ==> url == "ws://127.0.0.1:9944"
    ensures endpoint == Cc3Dev ==> url == "wss://rpc.cc3-devnet.creditcoin.network"
    ensures !IsAlias(endpoint) ==> url == endpoint
    ensures IsAlias(endpoint) ==> !IsAlias(url)
  {
    if endpoint == Dev then "wss://rpc.devnet.creditcoin.network/ws"
    else if endpoint == Test then "wss://rpc.testnet.creditcoin.network/ws"
    else if endpoint == Main then "wss://mainnet.creditcoin.network/ws"
    else if endpoint == Local then "ws://127.0.0.1:9944"
    else if endpoint == Cc3Dev then "wss://rpc.cc3-devnet.creditcoin.network"
    else endpoint
  }

  /** Resolving twice is resolving once: no URL is itself an alias. */
  lemma ToEndpointIdempotent(endpoint: string)
    ensures ToEndpoint(ToEndpoint(endpoint)) == ToEndpoint(endpoint)
  {
  }

  /** The URL `makeApi` connects to; an omitted endpoint defaults to "local". */
  function MakeApiEndpoint(endpoint: Option<string>): (url: string)
    ensures endpoint.None? ==> url == "ws://127.0.0.1:9944"
    ensures endpoint.Some? ==> url == ToEndpoint(endpoint.value)
  {
    ToEndpoint(endpoint.GetOr(Local))
  }
}
