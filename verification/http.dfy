/**
 * The requester the paginators are given (`self.http`), replaced by a script: the k-th call
 * answers with the k-th scripted response. Every call is logged, so the number of requests
 * and the arguments of each one can be observed.
 */
module Http {
  import opened Wrappers

  class ScriptedRequester<Q, R> {
    /** The responses, one per call, in order. */
    const script: seq<R>
    /** The requests made so far, in order. */
    var log: seq<Q>

    constructor (script: seq<R>)
      ensures this.script == script && log == []
    {
      this.script := script;
      log := [];
    }

    /** The answer to the call made when `k` calls came before it; a call past the script fails. */
    function Respond(k: nat): (r: Result<R>)
      ensures r.Ok? <==> k < |script|
      ensures r.Ok? ==> r.value == script[k]
      ensures r.Err? ==> r.error == TransportError
    {
      if k < |script| then Ok(script[k]) else Err(TransportError)
    }

    /** One request: it is logged, then answered from the script. */
    method Get(q: Q) returns (r: Result<R>)
      modifies this
      ensures log == old(log) + [q]
      ensures r == Respond(|old(log)|)
    {
      r := Respond(|log|);
      log := log + [q];
    }
  }
}
