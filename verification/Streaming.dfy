/** The broker and a client's writer together: whatever the interleaving of broadcasts,
    evictions, takes and frames, what is seen on a client's connection is a prefix of the
    broadcasts since it was accepted. */
module Streaming {
  import opened Broker
  import opened Separated
  import opened StreamWriter

  /** A run of the broker with the frames a client's writer has finished, and the messages it
      has taken for the frame it is packing. */
  datatype Link = Link(run: seq<Event>, frames: seq<string>, packing: seq<Message>)

  /** A step of the broker or of any writer; or the client's writer finishes its frame. */
  datatype LinkEvent = Step(e: Event) | Finish

  function LinkStep(l: Link, c: ClientId, le: LinkEvent): Link {
    match le
    case Step(e) =>
      var s := After(l.run);
      var takes := e == Take(c) && c in s.chans && s.chans[c].queue != [];
      Link(l.run + [e], l.frames, if takes then l.packing + [s.chans[c].queue[0]] else l.packing)
    case Finish =>
      if l.packing == [] then l else Link(l.run, l.frames + [Frame(l.packing)], [])
  }

  function LinkAfter(events: seq<LinkEvent>, c: ClientId): Link {
    if events == [] then Link([], [], [])
    else LinkStep(LinkAfter(events[..|events| - 1], c), c, events[|events| - 1])
  }

  function Taken(run: seq<Event>, c: ClientId): seq<Message> {
    if c in After(run).chans then After(run).chans[c].taken else []
  }

  /** Everything taken is in a finished frame or in the one being packed. */
  ghost predicate LinkInv(l: Link, c: ClientId) {
    Taken(l.run, c) == Seen(l.frames) + l.packing
  }

  lemma TakenStep(run: seq<Event>, e: Event, c: ClientId)
    ensures var s := After(run);
            Taken(run + [e], c) ==
              if e == Take(c) && c in s.chans && s.chans[c].queue != [] then Taken(run, c) + [s.chans[c].queue[0]]
              else Taken(run, c)
  {
    AfterSnoc(run, e);
  }

  /** A client's messages are broadcasts. */
  lemma TakenAreBroadcasts(run: seq<Event>, c: ClientId)
    requires OneLiners(Broadcasts(run))
    ensures OneLiners(Taken(run, c))
  {
    EveryRunKeepsInv(run);
    if c in After(run).registered {
      NobodyGetsAnythingElse(run, c);
      assert Taken(run, c) <= Share(run, c);
      assert forall k :: 0 <= k < |Taken(run, c)| ==> Taken(run, c)[k] == Broadcasts(run)[JoinedAt(run, c) + k];
    }
  }

  lemma FinishKeepsInv(l: Link, c: ClientId)
    requires LinkInv(l, c) && l.packing != [] && OneLiners(Taken(l.run, c))
    ensures LinkInv(LinkStep(l, c, Finish), c)
  {
    var frames := l.frames + [Frame(l.packing)];
    assert frames[..|frames| - 1] == l.frames;
    forall k | 0 <= k < |l.packing|
      ensures OneLine(l.packing[k])
    {
      assert l.packing[k] == Taken(l.run, c)[|Seen(l.frames)| + k];
    }
    SplitOfJoin(l.packing, NEWLINE);
    assert Seen(frames) + [] == Seen(l.frames) + l.packing;
  }

  lemma StepKeepsLinkInv(l: Link, c: ClientId, e: Event)
    requires LinkInv(l, c)
    ensures LinkInv(LinkStep(l, c, Step(e)), c)
  {
    TakenStep(l.run, e, c);
    var next := LinkStep(l, c, Step(e));
    if next.packing != l.packing {
      assert Seen(l.frames) + next.packing == (Seen(l.frames) + l.packing) + [After(l.run).chans[c].queue[0]];
    }
  }

  lemma {:induction false} BroadcastsOfPrefix(l: Link, c: ClientId, le: LinkEvent)
    requires OneLiners(Broadcasts(LinkStep(l, c, le).run))
    ensures OneLiners(Broadcasts(l.run))
  {
    if le.Step? {
      assert (l.run + [le.e])[..|l.run|] == l.run;
      assert Broadcasts(l.run) <= Broadcasts(l.run + [le.e]);
    }
  }

  lemma {:induction false} EveryLinkKeepsInv(events: seq<LinkEvent>, c: ClientId)
    requires OneLiners(Broadcasts(LinkAfter(events, c).run))
    ensures LinkInv(LinkAfter(events, c), c)
  {
    if events != [] {
      var l, le := LinkAfter(events[..|events| - 1], c), events[|events| - 1];
      BroadcastsOfPrefix(l, c, le);
      EveryLinkKeepsInv(events[..|events| - 1], c);
      if le.Step? {
        StepKeepsLinkInv(l, c, le.e);
      } else if l.packing != [] {
        TakenAreBroadcasts(l.run, c);
        FinishKeepsInv(l, c);
      }
    }
  }

  /** Nothing is queued for the client, and every frame is finished. */
  predicate Drained(l: Link, c: ClientId) {
    var s := After(l.run);
    c in s.chans && s.chans[c].queue == [] && l.packing == []
  }

  /** Then its connection has had everything it was ever given. */
  lemma DrainedIsSeen(events: seq<LinkEvent>, c: ClientId)
    requires OneLiners(Broadcasts(LinkAfter(events, c).run)) && Drained(LinkAfter(events, c), c)
    ensures Seen(LinkAfter(events, c).frames) == Given(After(LinkAfter(events, c).run), c)
  {
    var l := LinkAfter(events, c);
    EveryLinkKeepsInv(events, c);
    assert Given(After(l.run), c) == Taken(l.run, c) == Seen(l.frames);
  }

  /** The lines on the connection of an accepted client are a prefix of the broadcasts since it
      was accepted, in every interleaving; and all of them, when it is live and its writer has
      caught up. */
  lemma ConnectionSeesItsShare(events: seq<LinkEvent>, c: ClientId)
    requires OneLiners(Broadcasts(LinkAfter(events, c).run)) && c in After(LinkAfter(events, c).run).registered
    ensures var l := LinkAfter(events, c);
            && Seen(l.frames) <= Share(l.run, c)
            && (Drained(l, c) && c in After(l.run).clients ==> Seen(l.frames) == Share(l.run, c))
  {
    var l := LinkAfter(events, c);
    EveryLinkKeepsInv(events, c);
    NobodyGetsAnythingElse(l.run, c);
    if Drained(l, c) && c in After(l.run).clients {
      DrainedIsSeen(events, c);
      LiveClientsMissNothing(l.run, c);
    }
  }

  lemma {:induction false} RunGrows(events: seq<LinkEvent>, later: seq<LinkEvent>, c: ClientId)
    returns (more: seq<Event>)
    ensures LinkAfter(events + later, c).run == LinkAfter(events, c).run + more
    decreases |later|
  {
    if later == [] {
      assert events + later == events;
      assert LinkAfter(events, c).run + [] == LinkAfter(events, c).run;
      more := [];
    } else {
      var front, le := later[..|later| - 1], later[|later| - 1];
      more := RunGrows(events, front, c);
      assert (events + later)[..|events + later| - 1] == events + front;
      if le.Step? {
        assert (LinkAfter(events, c).run + more) + [le.e] == LinkAfter(events, c).run + (more + [le.e]);
        more := more + [le.e];
      }
    }
  }

  lemma LastStep(events: seq<LinkEvent>, e: Event, c: ClientId)
    ensures LinkAfter(events + [Step(e)], c).run == LinkAfter(events, c).run + [e]
  {
    assert (events + [Step(e)])[..|events|] == events;
  }

  /** Once a client that was evicted, or has unregistered, has drained its closed channel and
      finished its frames, its connection has had exactly its share at the moment of its
      removal. */
  lemma RemovedConnectionSawItsShare(events: seq<LinkEvent>, e: Event, later: seq<LinkEvent>, c: ClientId)
    requires c in After(LinkAfter(events, c).run).clients
    requires c !in After(LinkAfter(events, c).run + [e]).clients
    requires OneLiners(Broadcasts(LinkAfter(events + [Step(e)] + later, c).run))
    requires Drained(LinkAfter(events + [Step(e)] + later, c), c)
    ensures Seen(LinkAfter(events + [Step(e)] + later, c).frames) == Share(LinkAfter(events, c).run, c)
  {
    LastStep(events, e, c);
    var more := RunGrows(events + [Step(e)], later, c);
    DeliveryOrEviction(LinkAfter(events, c).run, e, more, c);
    DrainedIsSeen(events + [Step(e)] + later, c);
  }
}
