/**
 * Bookkeeping of the session-server ("has joined") requests the server has
 * sent while logging players in: a list of pending entries that grows by one
 * per request and is filtered by `Clean`.
 */
module Mojang {
  import opened Wrappers
  import opened Wire

  datatype RequestType = HasJoined

  /**
   * The HTTP request in flight. Its contents are never inspected here; the
   * handle only tells one request from another.
   */
  datatype RequestFuture = RequestFuture(handle: nat)

  datatype HasJoinedProperty = HasJoinedProperty(name: string, value: string, signature: string)

  /** The session server's answer: the player's id, name and profile properties. */
  datatype HasJoinedResponse = HasJoinedResponse(id: string, name: string, properties: seq<HasJoinedProperty>)

  datatype Pending<R> = Pending(clientId: U32, requestType: RequestType, future: RequestFuture, result: Option<R>)

  /** `Pending::new`: a request that has no result yet. */
  function NewPending<R>(clientId: U32, future: RequestFuture, requestType: RequestType): (p: Pending<R>)
    ensures p.clientId == clientId && p.future == future && p.requestType == requestType
    ensures !Completed(p)
  {
    Pending(clientId, requestType, future, None)
  }

  predicate Completed<R>(p: Pending<R>)
  {
    p.result.Some?
  }

  /** The entries `Vec::retain(|p| p.result.is_some())` keeps, in their order. */
  function KeepCompleted<R(!new)>(ps: seq<Pending<R>>): (r: seq<Pending<R>>)
    ensures |r| <= |ps|
    ensures forall p :: p in r <==> p in ps && Completed(p)
  {
    if ps == [] then []
    else if Completed(ps[0]) then [ps[0]] + KeepCompleted(ps[1..])
    else KeepCompleted(ps[1..])
  }

  /** Filtering splits over concatenation, so the kept entries stay in their relative order. */
  lemma {:induction false} KeepCompletedAppend<R(!new)>(a: seq<Pending<R>>, b: seq<Pending<R>>)
    ensures KeepCompleted(a + b) == KeepCompleted(a) + KeepCompleted(b)
  {
    if a != [] {
      assert (a + b)[1..] == a[1..] + b;
      KeepCompletedAppend(a[1..], b);
    } else {
      assert a + b == b;
    }
  }

  /** Cleaning twice is cleaning once. */
  lemma {:induction false} KeepCompletedIdempotent<R(!new)>(ps: seq<Pending<R>>)
    ensures KeepCompleted(KeepCompleted(ps)) == KeepCompleted(ps)
  {
    if ps != [] {
      KeepCompletedIdempotent(ps[1..]);
      if Completed(ps[0]) {
        assert ([ps[0]] + KeepCompleted(ps[1..]))[1..] == KeepCompleted(ps[1..]);
      }
    }
  }

  /** Nothing is removed exactly when every entry has its result. */
  lemma {:induction false} KeepCompletedUnchanged<R(!new)>(ps: seq<Pending<R>>)
    ensures KeepCompleted(ps) == ps <==> forall k :: 0 <= k < |ps| ==> Completed(ps[k])
  {
    if ps != [] {
      KeepCompletedUnchanged(ps[1..]);
      if !Completed(ps[0]) {
        assert |KeepCompleted(ps)| < |ps|;
      } else {
        assert forall k :: 1 <= k < |ps| ==> ps[k] == ps[1..][k - 1];
      }
    }
  }

  /** A request that was just sent has no result yet, so the next `Clean` drops it. */
  lemma SentRequestIsCleaned<R(!new)>(ps: seq<Pending<R>>, clientId: U32, future: RequestFuture)
    ensures KeepCompleted(ps + [NewPending(clientId, future, HasJoined)]) == KeepCompleted(ps)
  {
    KeepCompletedAppend(ps, [NewPending(clientId, future, HasJoined)]);
  }

  /** The session-server client (`reqClient` is the HTTP connection and is not modelled). */
  class Mojang {
    var hasJoinedPending: seq<Pending<HasJoinedResponse>>

    /** `Mojang::new` */
    constructor ()
      ensures hasJoinedPending == []
    {
      hasJoinedPending := [];
    }

    /**
     * `Mojang::send_has_joined`. The request to the session server for
     * `username` is made by the caller's HTTP client and arrives as `future`.
     */
    method SendHasJoined(username: string, clientId: U32, future: RequestFuture)
      modifies this
      ensures hasJoinedPending == old(hasJoinedPending) + [NewPending(clientId, future, HasJoined)]
    {
      var pending := NewPending(clientId, future, HasJoined);
      hasJoinedPending := hasJoinedPending + [pending];
    }

    /** `Mojang::clean`: keeps, in order, the entries whose result has arrived. */
    method Clean()
      modifies this
      ensures hasJoinedPending == KeepCompleted(old(hasJoinedPending))
    {
      var ps := hasJoinedPending;
      var kept := [];
      var k := 0;
      while k < |ps|
        invariant k <= |ps|
        invariant kept == KeepCompleted(ps[..k])
      {
        var p := ps[k];
        KeepCompletedAppend(ps[..k], [p]);
        assert [p][1..] == [];
        assert ps[..k + 1] == ps[..k] + [p];
        if p.result.Some? {
          kept := kept + [p];
        }
        k := k + 1;
      }
      assert ps[..k] == ps;
      hasJoinedPending := kept;
    }
  }
}
