/** Types every component shares: optional values and the ways a storage call can end. */
module Common {

  datatype Option<+T> = None | Some(value: T)

  function Min(a: nat, b: nat): nat {
    if a <= b then a else b
  }

  /** How one storage call ends, seen from the service that awaits it.
    - Fine: the statement took effect and the caller saw its answer;
    - Lost: the statement never took effect and the caller saw a backend error;
    - LostAck: the statement took effect, but the caller saw a backend error. */
  datatype Fault = Fine | Lost | LostAck

  /** Timestamps are nanoseconds since the Unix epoch. */
  const SECOND: nat := 1_000_000_000

  /** Where a service keeps its rows: a store that keeps instants exactly, or the Postgres adapters,
      which keep them in whole epoch seconds. */
  datatype Adapter = Exact | Postgres

  /** The instant the Postgres adapters read back after storing `t` as whole epoch seconds. */
  function WholeSeconds(t: nat): nat {
    t / SECOND * SECOND
  }

  function Kept(adapter: Adapter, t: nat): (r: nat)
    ensures r <= t < r + SECOND
    ensures adapter == Exact ==> r == t
    ensures adapter == Postgres ==> r % SECOND == 0
  {
    if adapter == Exact then t else WholeSeconds(t)
  }
}
