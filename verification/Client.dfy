/**
 The protocol client: correlation ids, and one call with its retries against a transport that may
 answer anything. The replay-window clock is a choice of the environment.
 */
module Client {
  import opened Common
  import Catalog

  const ID_MAX: nat := 0xFFFF_FFFF

  type Bytes = seq<byte>

  datatype Status =
    | OkStatus | InvalidArgument | Unsupported | Unauthorized | Conflict | Busy | Unavailable
    | Timeout | ResourceExhausted | MalformedRequest | InternalError

  predicate NoRetry(s: Status) {
    s == Conflict || s == Unauthorized || s == InvalidArgument
  }

  /** What the transport does with one request; a raise carries a protocol status or is another exception. */
  datatype Reaction =
    | Responds(correlation: nat, status: Status, payload: Bytes)
    | RaisesStatus(status: Status)
    | RaisesOther

  /** One attempt: whether the replay window has expired by then, and the reaction if it is sent. */
  datatype Attempt = Attempt(expired: bool, reaction: Reaction)

  datatype Outcome = Payload(data: Bytes) | Raised(status: Status)

  // ----- correlation ids

  function Successor(id: nat): nat {
    if id == ID_MAX then 1 else id + 1
  }

  /** The id reached after `k` steps. */
  function Advance(id: nat, k: nat): nat
    decreases k
  {
    if k == 0 then id else Successor(Advance(id, k - 1))
  }

  predicate IsId(id: nat) {
    1 <= id <= ID_MAX
  }

  lemma {:induction false} AdvanceIs(id: nat, k: nat)
    requires IsId(id)
    ensures k <= ID_MAX - id ==> Advance(id, k) == id + k
    ensures ID_MAX - id < k <= ID_MAX ==> Advance(id, k) == id + k - ID_MAX
  {
    if k > 0 {
      AdvanceIs(id, k - 1);
    }
  }

  /** One search passes every id exactly once. */
  lemma SearchVisitsEveryId(start: nat, id: nat) returns (k: nat)
    requires IsId(start) && IsId(id)
    ensures 1 <= k <= ID_MAX && Advance(start, k) == id
    ensures forall j :: 1 <= j <= ID_MAX && Advance(start, j) == id ==> j == k
  {
    k := if id > start then id - start else id + ID_MAX - start;
    AdvanceIs(start, k);
    forall j | 1 <= j <= ID_MAX && Advance(start, j) == id
      ensures j == k
    {
      AdvanceIs(start, j);
    }
  }

  predicate NeverRepeats(start: nat, k: nat, recent: map<nat, Bytes>) {
    forall j :: 1 <= j < k ==> Advance(start, j) in recent
  }

  // ----- one call, as a value

  /** An attempt either decides the call or asks for another one; the last error is remembered. */
  datatype Verdict = Decided(outcome: Outcome) | Again(error: Status)

  function Judge(correlation: nat, reaction: Reaction): Verdict {
    match reaction
    case Responds(c, status, payload) =>
      if c != correlation then Again(InternalError)
      else if status == OkStatus then Decided(Payload(payload))
      else if NoRetry(status) then Decided(Raised(status))
      else Again(status)
    case RaisesStatus(status) => if NoRetry(status) then Decided(Raised(status)) else Again(status)
    case RaisesOther => Again(Unavailable)
  }

  /** How a call ends: its outcome, how often the request was sent, and whether the id stays reserved. */
  datatype Ended = Ended(outcome: Outcome, sent: nat, keepsId: bool)

  function Attempts(correlation: nat, booted: bool, attempts: seq<Attempt>, done: nat): Ended
    requires done < |attempts|
    decreases |attempts| - done
  {
    if booted && done > 0 && attempts[done].expired then Ended(Raised(Unavailable), done, true)
    else
      match Judge(correlation, attempts[done].reaction)
      case Decided(o) => Ended(o, done + 1, false)
      case Again(error) =>
        if done + 1 < |attempts| then Attempts(correlation, booted, attempts, done + 1)
        else Ended(Raised(error), done + 1, false)
  }

  /** A request is encoded unless its fields are out of range or its payload is too large. */
  type Encoder = (nat, nat, Bytes) -> Option<Bytes>

  class SpaghettiClient {
    const maxRetries: nat
    const encode: Encoder
    const catalog: Catalog.CatalogClient
    var nextCorrelation: nat
    var bootId: Option<nat>
    var closed: bool
    var recent: map<nat, Bytes>
    /** Every request handed to the transport, in order. */
    var sent: seq<Bytes>

    predicate Valid()
      reads this
    {
      IsId(nextCorrelation)
    }

    constructor (maxRetries: nat, encode: Encoder, catalog: Catalog.CatalogClient, first: nat)
      requires 1 <= first <= 0x7FFF_FFFF
      ensures Valid() && nextCorrelation == first && recent == map[] && sent == [] && !closed && bootId == None
      ensures this.maxRetries == maxRetries && this.encode == encode && this.catalog == catalog
    {
      this.maxRetries, this.encode, this.catalog := maxRetries, encode, catalog;
      nextCorrelation, bootId, closed, recent, sent := first, None, false, map[], [];
    }

    method Close()
      modifies this`closed
      ensures closed
    {
      closed := true;
    }

    /** `_observe_boot_id`: a rebooted peer has forgotten all requests and may have another catalog. */
    method ObserveBootId(boot: nat)
      modifies this`bootId, this`recent, catalog`cache
      ensures bootId == Some(boot)
      ensures var rebooted := old(bootId).Some? && old(bootId).value != boot;
              && recent == (if rebooted then map[] else old(recent))
              && catalog.cache == (if rebooted then None else old(catalog.cache))
    {
      if bootId.Some? && bootId.value != boot {
        catalog.Invalidate(None);
        recent := map[];
      }
      bootId := Some(boot);
    }

    /** `_allocate_correlation_id` */
    method AllocateCorrelationId() returns (r: Option<nat>)
      requires Valid()
      modifies this`nextCorrelation
      ensures Valid()
      ensures r.Some? ==> IsId(r.value) && r.value !in recent && nextCorrelation == r.value
      ensures r.Some? ==> exists k :: 1 <= k <= ID_MAX && r.value == Advance(old(nextCorrelation), k)
                                      && NeverRepeats(old(nextCorrelation), k, recent)
      ensures r.None? <==> forall id :: IsId(id) ==> id in recent
    {
      ghost var start := nextCorrelation;
      for i := 0 to 0xFFFF_FFFF
        invariant Valid() && nextCorrelation == Advance(start, i)
        invariant NeverRepeats(start, i + 1, recent)
      {
        // the source tests the result for zero once more; a successor is never zero
        nextCorrelation := if nextCorrelation == 0xFFFF_FFFF then 1 else nextCorrelation + 1;
        if nextCorrelation !in recent {
          return Some(nextCorrelation);
        }
      }
      forall id | IsId(id)
        ensures id in recent
      {
        var k := SearchVisitsEveryId(start, id);
        assert Advance(start, k) in recent;
      }
      r := None;
    }

    /** `_call`; `attempts` says what the environment does on each attempt that is made. */
    method Call(operation: nat, payload: Bytes, attempts: seq<Attempt>) returns (r: Outcome)
      requires Valid() && |attempts| == maxRetries + 1
      modifies this`nextCorrelation, this`recent, this`sent
      ensures Valid()
      ensures closed ==> r == Raised(Unavailable) && recent == old(recent) && sent == old(sent)
      ensures !closed && (forall id :: IsId(id) ==> id in old(recent)) ==>
                r == Raised(ResourceExhausted) && recent == old(recent) && sent == old(sent)
      ensures !closed && !(forall id :: IsId(id) ==> id in old(recent)) ==>
                var id := nextCorrelation;
                && IsId(id) && id !in old(recent)
                && match encode(id, operation, payload)
                   case None => r == Raised(MalformedRequest) && recent == old(recent) && sent == old(sent)
                   case Some(request) =>
                     var e := Attempts(id, bootId.Some?, attempts, 0);
                     && r == e.outcome && sent == old(sent) + Copies(request, e.sent)
                     && recent == if e.keepsId then old(recent)[id := request] else old(recent)
    {
      if closed {
        return Raised(Unavailable);
      }
      var freshId := AllocateCorrelationId();
      if freshId.None? {
        return Raised(ResourceExhausted);
      }
      var id := freshId.value;
      var encoded := encode(id, operation, payload);
      if encoded.None? {
        return Raised(MalformedRequest);
      }
      var request := encoded.value;
      ghost var before, sentBefore := recent, sent;
      recent := recent[id := request];
      assert recent - {id} == before;
      var lastError := Timeout;
      ghost var whole := Attempts(id, bootId.Some?, attempts, 0);
      var attempt := 0;
      while attempt < maxRetries + 1
        invariant 0 <= attempt <= maxRetries + 1
        invariant attempt <= maxRetries ==> whole == Attempts(id, bootId.Some?, attempts, attempt)
        invariant attempt == maxRetries + 1 ==> whole == Ended(Raised(lastError), attempt, false)
        invariant sent == sentBefore + Copies(request, attempt)
        invariant recent == before[id := request] && nextCorrelation == id
      {
        if bootId.Some? && attempt > 0 && attempts[attempt].expired {
          return Raised(Unavailable);
        }
        sent := sent + [request];
        assert Copies(request, attempt + 1) == Copies(request, attempt) + [request];
        match Judge(id, attempts[attempt].reaction)
        case Decided(outcome) =>
          recent := recent - {id};
          return outcome;
        case Again(error) =>
          lastError := error;
        attempt := attempt + 1;
      }
      recent := recent - {id};
      r := Raised(lastError);
    }
  }

  function Copies(request: Bytes, n: nat): (r: seq<Bytes>)
    ensures |r| == n && forall i :: 0 <= i < n ==> r[i] == request
  {
    seq(n, _ => request)
  }

  // ----- what a call promises, for every transport

  predicate Decides(correlation: nat, reaction: Reaction) {
    match reaction
    case Responds(c, status, _) => c == correlation && (status == OkStatus || NoRetry(status))
    case RaisesStatus(status) => NoRetry(status)
    case RaisesOther => false
  }

  /** Everything a caller can rely on, whatever the transport does. */
  lemma {:induction false} CallPromises(correlation: nat, booted: bool, attempts: seq<Attempt>, done: nat)
    requires done < |attempts|
    requires forall k :: 0 <= k < done ==> !Decides(correlation, attempts[k].reaction)
    ensures var e := Attempts(correlation, booted, attempts, done);
            // never more than the allowed attempts
            && done <= e.sent <= |attempts| && (done == 0 ==> e.sent >= 1)
            // nothing is sent after a deciding reaction
            && (forall k :: 0 <= k < e.sent - 1 ==> !Decides(correlation, attempts[k].reaction))
            // a payload is the one a matching ok response carried on the last attempt
            && (e.outcome.Payload? ==>
                  e.sent >= 1 && attempts[e.sent - 1].reaction == Responds(correlation, OkStatus, e.outcome.data))
            // an error is the one the last reaction stands for
            && (e.outcome.Raised? && !e.keepsId ==>
                  match attempts[e.sent - 1].reaction
                  case Responds(c, status, _) => e.outcome.status == if c != correlation then InternalError else status
                  case RaisesStatus(status) => e.outcome.status == status
                  case RaisesOther => e.outcome.status == Unavailable)
            // giving up early has a reason: a deciding reaction or an expired window
            && (e.sent < |attempts| && !e.keepsId ==>
                  e.sent >= 1 && Decides(correlation, attempts[e.sent - 1].reaction))
            // the id stays reserved exactly when a retry was refused
            && (e.keepsId <==> booted && 0 < e.sent < |attempts| && attempts[e.sent].expired
                               && e.outcome == Raised(Unavailable)
                               && !Decides(correlation, attempts[e.sent - 1].reaction))
    decreases |attempts| - done
  {
    if !(booted && done > 0 && attempts[done].expired) && Judge(correlation, attempts[done].reaction).Again?
       && done + 1 < |attempts| {
      CallPromises(correlation, booted, attempts, done + 1);
    }
  }

  /** An answered call: if some allowed attempt gets the matching ok response and none before it decides or expires. */
  lemma {:induction false} AnswerIsReturned(correlation: nat, booted: bool, attempts: seq<Attempt>,
                                            done: nat, k: nat, data: Bytes)
    requires done <= k < |attempts| && attempts[k].reaction == Responds(correlation, OkStatus, data)
    requires forall j :: done <= j < k ==> !Decides(correlation, attempts[j].reaction)
    requires booted ==> forall j :: 0 < j <= k ==> !attempts[j].expired
    ensures Attempts(correlation, booted, attempts, done) == Ended(Payload(data), k + 1, false)
    decreases k - done
  {
    if done < k {
      AnswerIsReturned(correlation, booted, attempts, done + 1, k, data);
    }
  }

  /**
   Which statuses end a call at once: of a matching error response or a raised error, exactly conflict,
   unauthorized and invalid argument; all others are tried again as long as attempts are left.
   */
  lemma OnlyThreeErrorsEndACall(correlation: nat, attempts: seq<Attempt>, status: Status, payload: Bytes)
    requires |attempts| >= 2 && status != OkStatus
    requires attempts[0].reaction in {Responds(correlation, status, payload), RaisesStatus(status)}
    ensures var e := Attempts(correlation, false, attempts, 0);
            && (e.sent == 1 <==> status == Conflict || status == Unauthorized || status == InvalidArgument)
            && (e.sent == 1 ==> e.outcome == Raised(status) && !e.keepsId)
  {
    if Judge(correlation, attempts[0].reaction).Again? {
      LaterAttemptsSendMore(correlation, false, attempts, 1);
    }
  }

  lemma {:induction false} LaterAttemptsSendMore(correlation: nat, booted: bool, attempts: seq<Attempt>, done: nat)
    requires done < |attempts|
    ensures var sent := Attempts(correlation, booted, attempts, done).sent;
            sent >= done && (!(booted && done > 0 && attempts[done].expired) ==> sent > done)
    decreases |attempts| - done
  {
    if done + 1 < |attempts| {
      LaterAttemptsSendMore(correlation, booted, attempts, done + 1);
    }
  }
}
