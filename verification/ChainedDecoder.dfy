/**
 * Chained Ogg FLAC: several complete FLAC links behind one another, decoded
 * as one PCM stream with a count check for every link.
 */
module ChainedDecoder {
  import opened CodecScript
  import opened Interleaving
  import opened PlainStream
  import opened RangeDecoder
  import opened Wrappers

  datatype Format = Format(sampleRate: nat, channels: nat, bitsPerSample: nat)

  /** One link: its STREAMINFO, what its frames do, and whether finish_link accepts it. */
  datatype Link<T> = Link(format: Format, total: nat, events: seq<Event<T>>, finishes: bool)

  ghost predicate LinkKept<T>(link: Link<T>) {
    Honest(link.events, link.format.channels) && Legal(link.events, link.format.channels)
  }

  ghost predicate ChainKept<T>(links: seq<Link<T>>) {
    forall i :: 0 <= i < |links| ==> LinkKept(links[i])
  }

  ghost function Frames<T>(link: Link<T>): seq<seq<T>>
    requires LinkKept(link)
  {
    Ahead(link.events, link.format.channels)
  }

  /** All frames of the chain, link after link. */
  ghost function ChainFrames<T>(links: seq<Link<T>>): seq<seq<T>>
    requires ChainKept(links)
  {
    if links == [] then [] else
      assert LinkKept(links[|links| - 1]);
      ChainFrames(links[..|links| - 1]) + Frames(links[|links| - 1])
  }

  ghost function DeclaredTotal<T>(links: seq<Link<T>>): nat {
    if links == [] then 0 else DeclaredTotal(links[..|links| - 1]) + links[|links| - 1].total
  }

  /**
   * A link the decoder can pass: the common format, no fault, its declared count, and a clean
   * finish unless it is last.
   */
  ghost predicate LinkPasses<T>(link: Link<T>, format: Format, last: bool) {
    && link.format == format
    && StopOf(link.events, format.channels) == Finished
    && (LinkKept(link) && link.total > 0 ==> |Frames(link)| == link.total)
    && (!last ==> link.finishes)
  }

  ghost predicate LinksPass<T>(links: seq<Link<T>>, upTo: nat)
    requires upTo <= |links|
  {
    forall i :: 0 <= i < upTo ==> LinkPasses(links[i], links[0].format, i == |links| - 1)
  }

  /**
   * A chain passes exactly if its links share one format, none faults, each has its declared
   * frames, and all but the last finish.
   */
  lemma ChainPassesIff<T>(links: seq<Link<T>>)
    requires ChainKept(links)
    ensures LinksPass(links, |links|) <==>
      forall i :: 0 <= i < |links| ==>
        && links[i].format == links[0].format && NoFault(links[i].events)
        && (links[i].total == 0 || (LinkKept(links[i]) && |Frames(links[i])| == links[i].total))
        && (i == |links| - 1 || links[i].finishes)
  {
    hide Honest, Legal, Ahead, StopOf;
    forall i | 0 <= i < |links|
      ensures StopOf(links[i].events, links[i].format.channels) == Finished <==> NoFault(links[i].events)
    {
      assert LinkKept(links[i]);
      EndsByItself(links[i].events, links[i].format.channels);
    }
  }

  ghost predicate NoFault<T>(events: seq<Event<T>>) {
    forall j :: 0 <= j < |events| ==> !events[j].Fault?
  }

  lemma EndsByItself<T>(events: seq<Event<T>>, channels: nat)
    requires Honest(events, channels) && Legal(events, channels)
    ensures StopOf(events, channels) == Finished <==> NoFault(events)
  {
    hide Ahead, StopOf, Samples;
    StopCause(events, channels);
    forall j | 0 <= j < |events| && events[j].Block?
      ensures !Stops(events[j], channels)
    {
      NeverTooLarge(channels, events[j].frames);
    }
  }

  /** When every link of a decoded chain declares its length, the chain is as long as the lengths together. */
  lemma PassedFrames<T>(links: seq<Link<T>>)
    requires ChainKept(links) && LinksPass(links, |links|)
    requires forall i :: 0 <= i < |links| ==> links[i].total > 0
    ensures |ChainFrames(links)| == DeclaredTotal(links)
  {
    forall i | 0 <= i < |links|
      ensures LinkKept(links[i]) && |Frames(links[i])| == links[i].total
    {
      assert LinkPasses(links[i], links[0].format, i == |links| - 1);
    }
    CountedFrames(links);
  }

  lemma {:induction false} CountedFrames<T>(links: seq<Link<T>>)
    requires ChainKept(links)
    requires forall i :: 0 <= i < |links| ==> LinkKept(links[i]) && |Frames(links[i])| == links[i].total
    ensures |ChainFrames(links)| == DeclaredTotal(links)
  {
    if links != [] {
      CountedFrames(links[..|links| - 1]);
    }
  }

  class ChainedDecoder<T(0)> {
    const links: seq<Link<T>>
    const context: DecodeContext<T>

    var linkCount: nat
    var currentLinkTotal: nat
    var currentLinkStart: nat
    var firstFormat: Format

    constructor (links: seq<Link<T>>, context: DecodeContext<T>)
      ensures this.links == links && this.context == context && linkCount == 0
    {
      this.links, this.context := links, context;
      linkCount, currentLinkTotal, currentLinkStart, firstFormat := 0, 0, 0, Format(0, 0, 0);
    }

    /** `passed` links are behind: their frames, and only they, have gone to the handler. */
    ghost predicate Between(passed: nat)
      reads this, context, context.consumer
    {
      && ChainKept(links) && links != []
      && context.channels == links[0].format.channels
      && passed <= |links| && linkCount == passed
      && context.InStep() && !context.rangeLimited && !context.rangeComplete
      && (passed > 0 ==> firstFormat == links[0].format)
      && context.delivered == ChainFrames(links[..passed])
    }

    /** libFLAC's metadata callback for a link's STREAMINFO. */
    method OnStreamInfo(format: Format, total: nat) returns (failure: Option<Failure>)
      modifies this
      ensures currentLinkTotal == total && currentLinkStart == context.emitted
      ensures failure.Some? <==> old(linkCount) > 0 && format != old(firstFormat)
      ensures failure.None? ==>
        && linkCount == old(linkCount) + 1
        && firstFormat == if old(linkCount) == 0 then format else old(firstFormat)
    {
      currentLinkTotal, currentLinkStart := total, context.emitted;
      if linkCount > 0 {
        if format.sampleRate != firstFormat.sampleRate || format.channels != firstFormat.channels
           || format.bitsPerSample != firstFormat.bitsPerSample {
          return Some(DecoderFailed);
        }
        linkCount := linkCount + 1;
        return None;
      }
      linkCount, firstFormat := 1, format;
      return None;
    }

    method ValidateLinkSampleCount() returns (ok: bool)
      requires currentLinkStart <= context.emitted
      ensures ok <==> currentLinkTotal == 0 || context.emitted == currentLinkStart + currentLinkTotal
    {
      if currentLinkTotal == 0 {
        return true;
      }
      var emittedForLink: nat := context.emitted - currentLinkStart;
      return emittedForLink == currentLinkTotal;
    }

    /** process_until_end_of_link, followed by the checks the wrapper makes before the next link. */
    method ProcessLink() returns (failure: Option<Failure>)
      requires Between(linkCount) && linkCount < |links|
      modifies this, context`upcoming, context`emitted, context`rangeComplete, context`delivered
      modifies context.consumer`totalFrames, context.consumer`chunks
      ensures failure.None? ==>
        && Between(old(linkCount) + 1)
        && LinkPasses(links[old(linkCount)], links[0].format, old(linkCount) == |links| - 1)
      ensures failure.Some? && !context.Interrupted(|ChainFrames(links[..old(linkCount) + 1])|) ==>
        !LinkPasses(links[old(linkCount)], links[0].format, old(linkCount) == |links| - 1)
      ensures failure.Some? ==> context.EmittedOf(ChainFrames(links[..old(linkCount) + 1]), context.firstSample)
    {
      hide Tiles, Ahead, StopOf, Honest, Legal;
      var link := links[linkCount];
      assert LinkKept(link);
      ghost var passed := linkCount;
      NextFrames(links, passed);
      failure := OnStreamInfo(link.format, link.total);
      if failure.Some? {
        return;
      }
      context.upcoming := link.events;
      ghost var whole := ChainFrames(links[..passed + 1]);
      failure := context.RunScript(whole, StopOf(link.events, link.format.channels));
      if failure.Some? {
        return;
      }
      var counted := ValidateLinkSampleCount();
      if !counted {
        return Some(FrameCountMismatch);
      }
      if linkCount < |links| && !link.finishes {
        return Some(DecoderFailed);
      }
    }

    /** The whole-stream decode of a chain. */
    method ProcessChain() returns (failure: Option<Failure>)
      requires Between(0)
      modifies this, context`upcoming, context`emitted, context`rangeComplete, context`delivered
      modifies context.consumer`totalFrames, context.consumer`chunks
      ensures failure.None? ==>
        && LinksPass(links, |links|)
        && context.emitted == |ChainFrames(links)|
        && Tiles(context.consumer.chunks, ChainFrames(links), context.firstSample)
      ensures failure.Some? ==> !LinksPass(links, |links|) || context.Interrupted(|ChainFrames(links)|)
      ensures context.EmittedOf(ChainFrames(links), context.firstSample)
    {
      hide Tiles, Ahead, StopOf, Honest, Legal, LinkPasses;
      while linkCount < |links|
        invariant Between(linkCount) && LinksPass(links, linkCount)
        invariant context.firstSample == old(context.firstSample)
        decreases |links| - linkCount
      {
        ChainGrows(links, linkCount + 1);
        ghost var passed := linkCount;
        failure := ProcessLink();
        if failure.Some? {
          return;
        }
      }
      assert links[..|links|] == links;
      return None;
    }
  }

  lemma NextFrames<T>(links: seq<Link<T>>, passed: nat)
    requires ChainKept(links) && passed < |links|
    ensures LinkKept(links[passed])
    ensures ChainFrames(links[..passed + 1]) == ChainFrames(links[..passed]) + Frames(links[passed])
  {
    assert links[..passed + 1][..passed] == links[..passed];
  }

  lemma {:induction false} ChainGrows<T>(links: seq<Link<T>>, upTo: nat)
    requires ChainKept(links) && upTo <= |links|
    ensures ChainFrames(links[..upTo]) <= ChainFrames(links)
    decreases |links| - upTo
  {
    if upTo < |links| {
      NextFrames(links, upTo);
      ChainGrows(links, upTo + 1);
    } else {
      assert links[..upTo] == links;
    }
  }
}
