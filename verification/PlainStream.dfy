/**
 * A finite stream of items, PCM frames or bytes, that ends or fails, and what
 * reads of any size get from it.
 */
module PlainStream {
  import opened Arithmetic

  datatype Failure =
    | BadArgument | RangeAfterStream | ConsumerThrew
    | SourceThrew | DecoderFailed | DecoderAborted | OutOfMemory
    | BlockTooLarge | FrameCountMismatch
    | StillPending | OutputOverrun | PartialFrame

  /** How what is ahead ends. */
  datatype Stop = Finished | Failing(cause: Failure)

  datatype ReadResult = Count(count: int) | Threw(cause: Failure)

  /** What is left, how it ends, and how many items went out already. */
  datatype Flow<T> = Flow(remaining: seq<T>, stop: Stop, emitted: nat)

  datatype Reply<T> = Reply(result: ReadResult, delivered: seq<T>, flow: Flow<T>)

  /** The declared total is met, or unknown. */
  predicate CountMet(total: nat, emitted: nat) {
    total == 0 || emitted >= total
  }

  /** The flow once `taken` items have left its front. */
  ghost function After<T>(flow: Flow<T>, taken: nat): Flow<T>
    requires taken <= |flow.remaining|
  {
    Flow(flow.remaining[taken..], flow.stop, flow.emitted + taken)
  }

  lemma AfterParts<T>(flow: Flow<T>, taken: nat)
    requires taken <= |flow.remaining|
    ensures After(flow, taken).remaining == flow.remaining[taken..]
    ensures After(flow, taken).stop == flow.stop && After(flow, taken).emitted == flow.emitted + taken
  {
  }

  lemma AfterAfter<T>(flow: Flow<T>, first: nat, second: nat)
    requires first <= |flow.remaining| && second <= |After(flow, first).remaining|
    ensures first + second <= |flow.remaining|
    ensures After(After(flow, first), second) == After(flow, first + second)
  {
  }

  lemma AfterMore<T>(flow: Flow<T>, first: nat, second: nat)
    requires first <= |flow.remaining| && second <= |After(flow, first).remaining|
    ensures flow.remaining[..first] + After(flow, first).remaining[..second] == flow.remaining[..first + second]
  {
  }

  /** Taking from the part in front. */
  lemma AfterFront<T>(flow: Flow<T>, front: seq<T>, back: seq<T>, taken: nat)
    requires flow.remaining == front + back && taken <= |front|
    ensures After(flow, taken) == Flow(front[taken..] + back, flow.stop, flow.emitted + taken)
    ensures flow.remaining[..taken] == front[..taken]
  {
  }

  /** One read of `request` items. */
  ghost function Serve<T>(flow: Flow<T>, total: nat, request: nat): (reply: Reply<T>)
    requires request > 0
  {
    var left := |flow.remaining|;
    if request <= left then
      Reply(Count(request), flow.remaining[..request], After(flow, request))
    else
      var drained := After(flow, left);
      match flow.stop
      case Failing(cause) => Reply(Threw(cause), [], drained)
      case Finished =>
        if CountMet(total, flow.emitted + left)
        then Reply(Count(if left == 0 then -1 else left), flow.remaining, drained)
        else Reply(Threw(FrameCountMismatch), [], drained)
  }

  /** The stream ends by itself and meets its declared total. */
  ghost predicate Healthy<T>(flow: Flow<T>, total: nat) {
    flow.stop == Finished && CountMet(total, flow.emitted + |flow.remaining|)
  }

  lemma ServeSuccess<T>(flow: Flow<T>, total: nat, request: nat, written: nat)
    requires request > 0 && written <= request && written <= |flow.remaining|
    requires written < request ==> Healthy(flow, total) && written == |flow.remaining|
    ensures Serve(flow, total, request)
         == Reply(Count(if written == 0 then -1 else written), flow.remaining[..written], After(flow, written))
  {
    assert flow.remaining[..|flow.remaining|] == flow.remaining;
  }

  /** A read past the end, written out: the stream's own failure, a missing total, the rest, or -1. */
  lemma EndAnswer<T>(flow: Flow<T>, total: nat, request: nat)
    requires request > |flow.remaining|
    ensures Serve(flow, total, request).result ==
      if flow.stop.Failing? then Threw(flow.stop.cause)
      else if 0 < total && flow.emitted + |flow.remaining| < total then Threw(FrameCountMismatch)
      else Count(if flow.remaining == [] then -1 else |flow.remaining|)
  {
  }

  lemma ServeFailure<T>(flow: Flow<T>, total: nat, request: nat)
    requires request > |flow.remaining| && !Healthy(flow, total)
    ensures Serve(flow, total, request).flow == After(flow, |flow.remaining|)
    ensures Serve(flow, total, request).result
         == Threw(if flow.stop.Failing? then flow.stop.cause else FrameCountMismatch)
  {
  }

  ghost function Total(requests: seq<nat>): nat {
    if requests == [] then 0 else Total(requests[..|requests| - 1]) + requests[|requests| - 1]
  }

  ghost predicate Positive(requests: seq<nat>) {
    forall i :: 0 <= i < |requests| ==> requests[i] > 0
  }

  /** The flow after a run of reads. */
  ghost function Served<T>(flow: Flow<T>, total: nat, requests: seq<nat>): Flow<T>
    requires Positive(requests)
  {
    if requests == [] then flow else
      var earlier := Served(flow, total, requests[..|requests| - 1]);
      Serve(earlier, total, requests[|requests| - 1]).flow
  }

  /** Everything a run of reads put into the callers' arrays, in order. */
  ghost function Output<T>(flow: Flow<T>, total: nat, requests: seq<nat>): seq<T>
    requires Positive(requests)
  {
    if requests == [] then [] else
      var last := |requests| - 1;
      Output(flow, total, requests[..last])
      + Serve(Served(flow, total, requests[..last]), total, requests[last]).delivered
  }

  lemma AfterNothing<T>(flow: Flow<T>)
    ensures After(flow, 0) == flow
  {
  }

  lemma ServeAfter<T>(flow: Flow<T>, total: nat, taken: nat, request: nat)
    requires taken <= |flow.remaining| && request > 0
    requires taken + request <= |flow.remaining| || Healthy(flow, total)
    ensures var upTo := Min(taken + request, |flow.remaining|);
      && Serve(After(flow, taken), total, request).flow == After(flow, upTo)
      && flow.remaining[..taken] + Serve(After(flow, taken), total, request).delivered == flow.remaining[..upTo]
  {
  }

  /**
   * Any run of reads that stays inside the good part of the stream delivers
   * exactly its prefix, whatever the sizes of the reads.
   */
  lemma {:induction false} ReadsDeliverPrefix<T>(flow: Flow<T>, total: nat, requests: seq<nat>)
    requires Positive(requests)
    requires Total(requests) <= |flow.remaining| || Healthy(flow, total)
    ensures var taken := Min(Total(requests), |flow.remaining|);
      && Output(flow, total, requests) == flow.remaining[..taken]
      && Served(flow, total, requests) == After(flow, taken)
  {
    hide Serve, After, Healthy;
    if requests == [] {
      AfterNothing(flow);
    } else {
      var last := |requests| - 1;
      ReadsDeliverPrefix(flow, total, requests[..last]);
      ServeAfter(flow, total, Min(Total(requests[..last]), |flow.remaining|), requests[last]);
    }
  }

  /**
   * The answer to one more read after such a run: short reads, -1 and failures each happen
   * exactly when they should.
   */
  lemma {:induction false} NextRead<T>(flow: Flow<T>, total: nat, requests: seq<nat>, request: nat)
    requires Positive(requests) && request > 0
    requires Total(requests) <= |flow.remaining| || Healthy(flow, total)
    ensures var left := |flow.remaining| - Min(Total(requests), |flow.remaining|);
      var result := Serve(Served(flow, total, requests), total, request).result;
      && (result.Threw? <==> request > left && !Healthy(flow, total))
      && (result == Count(-1) <==> left == 0 && Healthy(flow, total))
      && (result.Count? && result != Count(-1) ==> result == Count(Min(request, left)) && left > 0)
  {
    ReadsDeliverPrefix(flow, total, requests);
  }

  /** Once -1 has been answered, every later read answers -1 and delivers nothing. */
  lemma EndIsStable<T>(flow: Flow<T>, total: nat, request: nat, later: nat)
    requires request > 0 && later > 0
    requires Serve(flow, total, request).result == Count(-1)
    ensures var again := Serve(Serve(flow, total, request).flow, total, later);
      again.result == Count(-1) && again.delivered == [] && again.flow == flow
  {
  }

  /** A missing item never goes unnoticed: asking for more than there is of a short stream throws. */
  lemma ShortStreamThrows<T>(flow: Flow<T>, total: nat, requests: seq<nat>, request: nat)
    requires Positive(requests) && request > 0
    requires flow.stop == Finished && total > flow.emitted + |flow.remaining|
    requires Total(requests) <= |flow.remaining| < Total(requests) + request
    ensures Serve(Served(flow, total, requests), total, request).result == Threw(FrameCountMismatch)
  {
    ReadsDeliverPrefix(flow, total, requests);
  }
}
