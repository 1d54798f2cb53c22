/**
 * The remote GraphQL service, seen only through the mutations the core
 * issues. Whether a request succeeds is not computed here: it is read from
 * an oracle fixed when the service is created, so that every outcome can
 * be reasoned about.
 */
module Remote {

  /** Request number `n` (counting from 0 over the life of the service) succeeds; requests past the oracle do. */
  predicate Succeeds(outcomes: seq<bool>, n: nat) {
    n >= |outcomes| || outcomes[n]
  }

  class Service<Request> {
    /** Every request issued so far, in order. */
    var requests: seq<Request>
    /** The oracle: `outcomes[n]` is whether request number `n` succeeds. */
    const outcomes: seq<bool>

    constructor (outcomes: seq<bool>)
      ensures requests == [] && this.outcomes == outcomes
    {
      requests := [];
      this.outcomes := outcomes;
    }

    /** Issues one mutation and awaits it: `ok` is false when the awaited promise rejects. */
    method Call(request: Request) returns (ok: bool)
      modifies this
      ensures requests == old(requests) + [request]
      ensures ok == Succeeds(outcomes, |old(requests)|)
    {
      ok := Succeeds(outcomes, |requests|);
      requests := requests + [request];
    }
  }
}
