/** The streaming broker (server/pkg/pipeline/stream/broker.go and client.go): one loop owns
    the set of clients and hands every broadcast to each client's bounded channel, evicting
    the clients whose channel is full.  The loop's select branches are the events below;
    the writers of the clients take messages from the channels in between. */
module Broker {

  const SEND_QUEUE_LEN := 256

  type ClientId = nat
  type Message = string

  /** A client's send channel: what is queued, what its writer has taken, and how often it
      was closed. */
  datatype Chan = Chan(taken: seq<Message>, queue: seq<Message>, closes: nat)

  /** panicked: a closed channel was sent to or closed again. */
  datatype State = State(
    clients: set<ClientId>, chans: map<ClientId, Chan>, registered: set<ClientId>,
    registerCounter: nat, droppedCounter: nat, unregisterCounter: nat, panicked: bool)

  /** Connect creates the client and its channel; Register is the loop accepting it, once;
      Unregister is its reader giving up, possibly before the loop has accepted it; Take is
      its writer receiving one message. */
  datatype Event =
    | Connect(c: ClientId)
    | Register(c: ClientId)
    | Unregister(c: ClientId)
    | Broadcast(m: Message)
    | Take(c: ClientId)

  function Initial(): State {
    State({}, map[], {}, 0, 0, 0, false)
  }

  predicate Full(s: State, c: ClientId) {
    c in s.chans && |s.chans[c].queue| >= SEND_QUEUE_LEN
  }

  function FullClients(s: State): set<ClientId> {
    set c | c in s.clients && Full(s, c)
  }

  /** What the broadcast does to one channel. */
  function Offer(s: State, c: ClientId, m: Message): Chan
    requires c in s.chans
  {
    var ch := s.chans[c];
    if c !in s.clients then ch
    else if Full(s, c) then ch.(closes := ch.closes + 1)
    else ch.(queue := ch.queue + [m])
  }

  function BroadcastStep(s: State, m: Message): State {
    s.(clients := s.clients - FullClients(s),
       chans := map c | c in s.chans :: Offer(s, c, m),
       droppedCounter := s.droppedCounter + |FullClients(s)|,
       panicked := s.panicked || exists c :: c in s.clients && c in s.chans && s.chans[c].closes > 0)
  }

  function RegisterStep(s: State, c: ClientId): State {
    if c !in s.chans || c in s.registered then s
    else s.(clients := s.clients + {c}, registered := s.registered + {c}, registerCounter := s.registerCounter + 1)
  }

  function UnregisterStep(s: State, c: ClientId): State {
    if c !in s.clients || c !in s.chans then s
    else
      var ch := s.chans[c];
      s.(clients := s.clients - {c}, chans := s.chans[c := ch.(closes := ch.closes + 1)],
         unregisterCounter := s.unregisterCounter + 1, panicked := s.panicked || ch.closes > 0)
  }

  function Step(s: State, e: Event): State {
    match e
    case Connect(c) => if c in s.chans then s else s.(chans := s.chans[c := Chan([], [], 0)])
    case Register(c) => RegisterStep(s, c)
    case Unregister(c) => UnregisterStep(s, c)
    case Broadcast(m) => BroadcastStep(s, m)
    case Take(c) =>
      if c in s.chans && s.chans[c].queue != [] then
        var ch := s.chans[c];
        s.(chans := s.chans[c := ch.(taken := ch.taken + [ch.queue[0]], queue := ch.queue[1..])])
      else s
  }

  function After(run: seq<Event>): State {
    if run == [] then Initial() else Step(After(run[..|run| - 1]), run[|run| - 1])
  }

  lemma AfterSnoc(run: seq<Event>, e: Event)
    ensures After(run + [e]) == Step(After(run), e)
  {
    assert (run + [e])[..|run|] == run;
  }

  // ---------------------------------------------------------------------------
  // The broadcasts of a run, and when a client joined it
  // ---------------------------------------------------------------------------

  function Broadcasts(run: seq<Event>): (messages: seq<Message>) {
    if run == [] then []
    else
      var n := |run| - 1;
      Broadcasts(run[..n]) + (if run[n].Broadcast? then [run[n].m] else [])
  }

  /** How many broadcasts came before the client was accepted. */
  function JoinedAt(run: seq<Event>, c: ClientId): (at: nat)
    ensures at <= |Broadcasts(run)|
  {
    if run == [] then 0
    else
      var n := |run| - 1;
      if c in After(run[..n]).registered then JoinedAt(run[..n], c) else |Broadcasts(run)|
  }

  /** Everything a client has been given. */
  function Given(s: State, c: ClientId): seq<Message>
    requires c in s.chans
  {
    s.chans[c].taken + s.chans[c].queue
  }

  // ---------------------------------------------------------------------------
  // Invariants
  // ---------------------------------------------------------------------------

  ghost predicate Inv(s: State) {
    && s.clients <= s.registered <= s.chans.Keys
    && (forall c :: c in s.chans ==> |s.chans[c].queue| <= 256)
    && (forall c :: c in s.clients ==> s.chans[c].closes == 0)
    && (forall c :: c in s.registered && c !in s.clients ==> s.chans[c].closes == 1)
    && (forall c :: c in s.chans && c !in s.registered ==> s.chans[c] == Chan([], [], 0))
    && s.registerCounter == |s.registered|
    && s.registerCounter == |s.clients| + s.droppedCounter + s.unregisterCounter
    && !s.panicked
  }

  lemma SubsetSize(x: set<ClientId>, y: set<ClientId>)
    requires y <= x
    ensures |x - y| + |y| == |x|
  {
    assert x == (x - y) + y;
  }

  /** A broadcast finds every live client's channel open, and closes those that are full. */
  lemma OfferKeeps(s: State, m: Message, c: ClientId)
    requires Inv(s) && c in s.chans
    ensures |Offer(s, c, m).queue| <= 256
    ensures c in s.clients - FullClients(s) ==> Offer(s, c, m).closes == 0
    ensures c in s.registered && c !in s.clients - FullClients(s) ==> Offer(s, c, m).closes == 1
    ensures c !in s.registered ==> Offer(s, c, m) == Chan([], [], 0)
  {
  }

  lemma BroadcastKeepsInv(s: State, m: Message)
    requires Inv(s)
    ensures Inv(BroadcastStep(s, m))
  {
    SubsetSize(s.clients, FullClients(s));
    forall c | c in s.chans
      ensures BroadcastStep(s, m).chans[c] == Offer(s, c, m)
    {
      OfferKeeps(s, m, c);
    }
    forall c | c in s.chans {
      OfferKeeps(s, m, c);
    }
  }

  lemma UnregisterKeepsInv(s: State, c: ClientId)
    requires Inv(s)
    ensures Inv(UnregisterStep(s, c))
  {
  }

  lemma RegisterKeepsInv(s: State, c: ClientId)
    requires Inv(s)
    ensures Inv(RegisterStep(s, c))
  {
  }

  lemma ConnectKeepsInv(s: State, c: ClientId)
    requires Inv(s)
    ensures Inv(Step(s, Connect(c)))
  {
  }

  lemma TakeKeepsInv(s: State, c: ClientId)
    requires Inv(s)
    ensures Inv(Step(s, Take(c)))
  {
  }

  lemma StepKeepsInv(s: State, e: Event)
    requires Inv(s)
    ensures Inv(Step(s, e))
  {
    match e
    case Broadcast(m) => BroadcastKeepsInv(s, m);
    case Unregister(c) => UnregisterKeepsInv(s, c);
    case Connect(c) => ConnectKeepsInv(s, c);
    case Register(c) => RegisterKeepsInv(s, c);
    case Take(c) => TakeKeepsInv(s, c);
  }

  /** In every run: a live client's channel is open and the channel of every other registered
      client was closed exactly once; no closed channel is ever sent to or closed again; and
      registrations = live clients + dropped + unregistered. */
  lemma {:induction false} EveryRunKeepsInv(run: seq<Event>)
    ensures Inv(After(run))
  {
    if run != [] {
      EveryRunKeepsInv(run[..|run| - 1]);
      StepKeepsInv(After(run[..|run| - 1]), run[|run| - 1]);
    }
  }

  // ---------------------------------------------------------------------------
  // Gap-free delivery or eviction
  // ---------------------------------------------------------------------------

  lemma LastEvent(run: seq<Event>, later: seq<Event>)
    requires later != []
    ensures (run + later[..|later| - 1]) + [later[|later| - 1]] == run + later
  {
  }

  lemma JoinedStep(run: seq<Event>, e: Event, c: ClientId)
    ensures c in After(run).registered ==>
              c in After(run + [e]).registered && JoinedAt(run + [e], c) == JoinedAt(run, c)
    ensures c !in After(run).registered && c in After(run + [e]).registered ==>
              e == Register(c) && JoinedAt(run + [e], c) == |Broadcasts(run)|
  {
    assert (run + [e])[..|run|] == run;
  }

  lemma {:induction false} JoinedForGood(run: seq<Event>, later: seq<Event>, c: ClientId)
    requires c in After(run).registered
    ensures c in After(run + later).registered && JoinedAt(run + later, c) == JoinedAt(run, c)
    decreases |later|
  {
    if later == [] {
      assert run + later == run;
    } else {
      var n := |later| - 1;
      var before := run + later[..n];
      JoinedForGood(run, later[..n], c);
      JoinedStep(before, later[n], c);
      LastEvent(run, later);
    }
  }

  /** A client is accepted by the loop handling its registration, and whatever follows, its
      share of the broadcasts starts there. */
  lemma JoinsOnRegistration(run: seq<Event>, e: Event, later: seq<Event>, c: ClientId)
    requires c !in After(run).registered && c in After(run + [e]).registered
    ensures e == Register(c)
    ensures JoinedAt(run + [e] + later, c) == |Broadcasts(run)|
  {
    JoinedStep(run, e, c);
    JoinedForGood(run + [e], later, c);
  }

  lemma GivenStep(s: State, e: Event, c: ClientId)
    requires Inv(s) && c in s.registered
    ensures c in Step(s, e).registered
    ensures e.Broadcast? && c in Step(s, e).clients ==> Given(Step(s, e), c) == Given(s, c) + [e.m]
    ensures !e.Broadcast? || c !in Step(s, e).clients ==> Given(Step(s, e), c) == Given(s, c)
    ensures c !in s.clients ==> c !in Step(s, e).clients
  {
    if e == Take(c) && s.chans[c].queue != [] {
      var ch := s.chans[c];
      assert ch.queue == [ch.queue[0]] + ch.queue[1..];
      assert ch.taken + [ch.queue[0]] + ch.queue[1..] == ch.taken + ch.queue;
    }
    if e.Broadcast? && c in Step(s, e).clients {
      var ch := s.chans[c];
      assert ch.taken + (ch.queue + [e.m]) == (ch.taken + ch.queue) + [e.m];
    }
  }

  lemma SuffixSnoc(messages: seq<Message>, at: nat, m: Message)
    requires at <= |messages|
    ensures (messages + [m])[at..] == messages[at..] + [m]
  {
  }

  /** What a client should have been given: the broadcasts since it was accepted. */
  function Share(run: seq<Event>, c: ClientId): seq<Message> {
    Broadcasts(run)[JoinedAt(run, c)..]
  }

  lemma ShareStep(run: seq<Event>, e: Event, c: ClientId)
    ensures c in After(run).registered ==>
              Share(run + [e], c) == if e.Broadcast? then Share(run, c) + [e.m] else Share(run, c)
    ensures c !in After(run).registered && c in After(run + [e]).registered ==> Share(run + [e], c) == []
  {
    JoinedStep(run, e, c);
    assert (run + [e])[..|run|] == run;
    if e.Broadcast? {
      SuffixSnoc(Broadcasts(run), JoinedAt(run, c), e.m);
    }
  }

  lemma FirstGiven(s: State, c: ClientId)
    requires Inv(s) && c !in s.registered && c in s.chans
    ensures c in RegisterStep(s, c).chans && Given(RegisterStep(s, c), c) == []
  {
    assert s.chans[c] == Chan([], [], 0);
  }

  lemma OnlyRegisterAccepts(s: State, e: Event, c: ClientId)
    requires Inv(s) && c !in s.registered && c in Step(s, e).clients
    ensures e == Register(c) && c in s.chans
  {
  }

  lemma JoinStep(run: seq<Event>, e: Event, c: ClientId)
    requires c !in After(run).registered && c in After(run + [e]).clients
    ensures c in After(run + [e]).chans && Given(After(run + [e]), c) == Share(run + [e], c)
  {
    EveryRunKeepsInv(run);
    EveryRunKeepsInv(run + [e]);
    AfterSnoc(run, e);
    OnlyRegisterAccepts(After(run), e, c);
    FirstGiven(After(run), c);
    ShareStep(run, e, c);
  }

  lemma GivenAfter(run: seq<Event>, e: Event, c: ClientId)
    requires c in After(run).registered
    ensures c in After(run).chans && c in After(run + [e]).chans
    ensures Given(After(run + [e]), c) ==
            if e.Broadcast? && c in After(run + [e]).clients then Given(After(run), c) + [e.m] else Given(After(run), c)
  {
    EveryRunKeepsInv(run);
    EveryRunKeepsInv(run + [e]);
    AfterSnoc(run, e);
    GivenStep(After(run), e, c);
  }

  lemma LiveStep(run: seq<Event>, e: Event, c: ClientId)
    requires c in After(run).registered && c in After(run + [e]).clients
    requires c in After(run).chans && Given(After(run), c) == Share(run, c)
    ensures c in After(run + [e]).chans && Given(After(run + [e]), c) == Share(run + [e], c)
  {
    GivenAfter(run, e, c);
    ShareStep(run, e, c);
  }

  /** As long as a client is live, its writer has taken, and then finds queued, exactly the
      broadcasts since it was accepted: no gap, no repetition, in order. */
  lemma {:induction false} LiveClientsMissNothing(run: seq<Event>, c: ClientId)
    requires c in After(run).clients
    ensures c in After(run).chans && Given(After(run), c) == Share(run, c)
  {
    var before, e := run[..|run| - 1], run[|run| - 1];
    EveryRunKeepsInv(run);
    EveryRunKeepsInv(before);
    assert before + [e] == run;
    if c in After(before).registered {
      LiveBefore(before, e, c);
      LiveClientsMissNothing(before, c);
      LiveStep(before, e, c);
    } else {
      JoinStep(before, e, c);
    }
  }

  lemma LiveBefore(run: seq<Event>, e: Event, c: ClientId)
    requires c in After(run).registered && c in After(run + [e]).clients
    ensures c in After(run).clients
  {
    EveryRunKeepsInv(run);
    AfterSnoc(run, e);
    GivenStep(After(run), e, c);
  }

  /** A client that has left, and what it had been given by then. */
  ghost predicate Gone(s: State, c: ClientId, given: seq<Message>) {
    c in s.registered && c !in s.clients && c in s.chans && Given(s, c) == given
  }

  lemma GoneStep(s: State, e: Event, c: ClientId, given: seq<Message>)
    requires Inv(s) && Gone(s, c, given)
    ensures Gone(Step(s, e), c, given)
  {
    GivenStep(s, e, c);
    StepKeepsInv(s, e);
  }

  /** It stays gone, and keeps exactly that. */
  lemma {:induction false} GoneForGood(run: seq<Event>, later: seq<Event>, c: ClientId, given: seq<Message>)
    requires Gone(After(run), c, given)
    ensures Gone(After(run + later), c, given)
    decreases |later|
  {
    if later == [] {
      assert run + later == run;
    } else {
      var n := |later| - 1;
      var before := run + later[..n];
      GoneForGood(run, later[..n], c, given);
      EveryRunKeepsInv(before);
      GoneStep(After(before), later[n], c, given);
      AfterSnoc(before, later[n]);
      LastEvent(run, later);
    }
  }

  lemma Removal(run: seq<Event>, e: Event, c: ClientId)
    requires c in After(run).clients && c !in Step(After(run), e).clients
    ensures e == Unregister(c) || (e.Broadcast? && c in After(run).chans && |After(run).chans[c].queue| == 256)
    ensures Gone(Step(After(run), e), c, Share(run, c))
  {
    EveryRunKeepsInv(run);
    GivenStep(After(run), e, c);
    StepKeepsInv(After(run), e);
    LiveClientsMissNothing(run, c);
  }

  /** A client leaves only by its own unregistering or because a broadcast found its channel
      full; and whatever happens later, it keeps exactly the broadcasts from its acceptance
      to its removal, and its channel stays closed. */
  lemma DeliveryOrEviction(run: seq<Event>, e: Event, later: seq<Event>, c: ClientId)
    requires c in After(run).clients && c !in After(run + [e]).clients
    ensures e == Unregister(c) || (e.Broadcast? && c in After(run).chans && |After(run).chans[c].queue| == 256)
    ensures var s := After(run + [e] + later);
            && c in s.chans && c !in s.clients && s.chans[c].closes == 1
            && Given(s, c) == Share(run, c)
  {
    AfterSnoc(run, e);
    Removal(run, e, c);
    GoneForGood(run + [e], later, c, Share(run, c));
    EveryRunKeepsInv(run + [e] + later);
  }

  /** A broadcast removes a live client exactly if 256 messages are queued for it; for any other,
      the message joins the queue, and nothing else about the client changes. */
  lemma BroadcastRemovesIff(run: seq<Event>, m: Message, c: ClientId)
    requires c in After(run).clients
    ensures c in After(run).chans && |After(run).chans[c].queue| <= 256
    ensures c !in After(run + [Broadcast(m)]).clients <==> |After(run).chans[c].queue| == 256
    ensures |After(run).chans[c].queue| < 256 ==>
              var after, ch := After(run + [Broadcast(m)]), After(run).chans[c];
              c in after.chans && after.chans[c] == Chan(ch.taken, ch.queue + [m], 0)
  {
    EveryRunKeepsInv(run);
    AfterSnoc(run, Broadcast(m));
  }

  lemma GoneStaysPrefix(run: seq<Event>, e: Event, c: ClientId)
    requires c in After(run).registered && c !in After(run + [e]).clients
    requires c in After(run).chans && Given(After(run), c) <= Share(run, c)
    ensures c in After(run + [e]).chans && Given(After(run + [e]), c) <= Share(run + [e], c)
  {
    GivenAfter(run, e, c);
    ShareStep(run, e, c);
  }

  lemma RegisteredBefore(run: seq<Event>, e: Event, c: ClientId)
    requires c in After(run + [e]).registered && c !in After(run + [e]).clients
    ensures c in After(run).registered
  {
    EveryRunKeepsInv(run);
    AfterSnoc(run, e);
  }

  /** Live or gone, a client has been given a prefix of its share. */
  lemma {:induction false} NobodyGetsAnythingElse(run: seq<Event>, c: ClientId)
    requires c in After(run).registered
    ensures c in After(run).chans && Given(After(run), c) <= Share(run, c)
  {
    if c in After(run).clients {
      LiveClientsMissNothing(run, c);
    } else {
      var before, e := run[..|run| - 1], run[|run| - 1];
      assert before + [e] == run;
      RegisteredBefore(before, e, c);
      NobodyGetsAnythingElse(before, c);
      GoneStaysPrefix(before, e, c);
    }
  }

  // ---------------------------------------------------------------------------
  // Clients that stop reading, and readers that stop early
  // ---------------------------------------------------------------------------

  lemma {:induction false} BroadcastsConcat(x: seq<Event>, y: seq<Event>)
    ensures Broadcasts(x + y) == Broadcasts(x) + Broadcasts(y)
  {
    if y == [] {
      assert x + y == x;
    } else {
      var n := |y| - 1;
      BroadcastsConcat(x, y[..n]);
      assert (x + y)[..|x + y| - 1] == x + y[..n];
    }
  }

  lemma TakenStep(s: State, e: Event, c: ClientId)
    requires c in s.chans && e != Take(c)
    ensures c in Step(s, e).chans && Step(s, e).chans[c].taken == s.chans[c].taken
  {
  }

  lemma {:induction false} TakenStays(run: seq<Event>, later: seq<Event>, c: ClientId)
    requires c in After(run).chans && Take(c) !in later
    ensures c in After(run + later).chans && After(run + later).chans[c].taken == After(run).chans[c].taken
    decreases |later|
  {
    if later == [] {
      assert run + later == run;
    } else {
      var n := |later| - 1;
      var before := run + later[..n];
      TakenStays(run, later[..n], c);
      TakenStep(After(before), later[n], c);
      AfterSnoc(before, later[n]);
      LastEvent(run, later);
    }
  }

  lemma LiveThroughout(run: seq<Event>, later: seq<Event>, c: ClientId)
    requires c in After(run).registered && c in After(run + later).clients
    ensures c in After(run).clients && c in After(run).chans
  {
    EveryRunKeepsInv(run);
    if c !in After(run).clients {
      GoneForGood(run, later, c, Given(After(run), c));
    }
  }

  lemma QueueGrows(run: seq<Event>, later: seq<Event>, c: ClientId)
    requires c in After(run).registered && Take(c) !in later && c in After(run + later).clients
    ensures c in After(run + later).chans && |After(run + later).chans[c].queue| >= |Broadcasts(later)|
  {
    LiveThroughout(run, later, c);
    TakenStays(run, later, c);
    JoinedForGood(run, later, c);
    BroadcastsConcat(run, later);
    LiveClientsMissNothing(run, c);
    LiveClientsMissNothing(run + later, c);
    assert |Given(After(run), c)| == |Broadcasts(run)| - JoinedAt(run, c);
    assert |Given(After(run + later), c)| == |Broadcasts(run)| + |Broadcasts(later)| - JoinedAt(run, c);
  }

  /** A client whose writer has stopped is dropped before more broadcasts have passed than
      its channel can hold. */
  lemma StalledClientIsEvicted(run: seq<Event>, later: seq<Event>, c: ClientId)
    requires c in After(run).registered && Take(c) !in later && |Broadcasts(later)| > 256
    ensures c !in After(run + later).clients
  {
    EveryRunKeepsInv(run + later);
    if c in After(run + later).clients {
      QueueGrows(run, later, c);
    }
  }

  lemma EarlyUnregister(run: seq<Event>, c: ClientId)
    requires c in After(run).chans && c !in After(run).registered
    ensures c in After(run + [Unregister(c)] + [Register(c)]).clients
  {
    EveryRunKeepsInv(run);
    AfterSnoc(run, Unregister(c));
    AfterSnoc(run + [Unregister(c)], Register(c));
  }

  lemma Unregistered(run: seq<Event>, later: seq<Event>, c: ClientId)
    requires c in After(run).registered
    ensures c !in After(run + [Unregister(c)] + later).clients
  {
    EveryRunKeepsInv(run);
    AfterSnoc(run, Unregister(c));
    EveryRunKeepsInv(run + [Unregister(c)]);
    GoneForGood(run + [Unregister(c)], later, c, Given(After(run + [Unregister(c)]), c));
  }

  /** Unregistering keeps a client out for good exactly if the loop has accepted it before: a
      reader that gives up earlier is not heard, and there is a way to go on in which its
      client becomes live. */
  lemma UnregisterIsHeardIff(run: seq<Event>, c: ClientId)
    requires c in After(run).chans
    ensures (forall later :: c !in After(run + [Unregister(c)] + later).clients) <==> c in After(run).registered
  {
    if c in After(run).registered {
      forall later
        ensures c !in After(run + [Unregister(c)] + later).clients
      {
        Unregistered(run, later, c);
      }
    } else {
      EarlyUnregister(run, c);
    }
  }

  // ---------------------------------------------------------------------------
  // mainLoop
  // ---------------------------------------------------------------------------

  // A broadcast half done: the clients in todo have not been offered the message yet.

  ghost function ChansLeft(s: State, todo: set<ClientId>, m: Message): map<ClientId, Chan> {
    map c | c in s.chans :: if c in todo then s.chans[c] else Offer(s, c, m)
  }

  ghost function EvictedLeft(s: State, todo: set<ClientId>): set<ClientId> {
    FullClients(s) - todo
  }

  ghost function ClientsLeft(s: State, todo: set<ClientId>): set<ClientId> {
    s.clients - EvictedLeft(s, todo)
  }

  lemma AllLeft(s: State, m: Message)
    ensures ChansLeft(s, s.clients, m) == s.chans && ClientsLeft(s, s.clients) == s.clients
    ensures EvictedLeft(s, s.clients) == {}
  {
  }

  lemma NoneLeft(s: State, m: Message)
    requires Inv(s)
    ensures BroadcastStep(s, m) ==
            s.(clients := ClientsLeft(s, {}), chans := ChansLeft(s, {}, m),
               droppedCounter := s.droppedCounter + |EvictedLeft(s, {})|)
  {
    assert EvictedLeft(s, {}) == FullClients(s);
    assert ChansLeft(s, {}, m) == BroadcastStep(s, m).chans;
  }

  lemma OneLess(s: State, todo: set<ClientId>, c: ClientId, m: Message)
    requires c in todo && todo <= s.clients && c in s.chans
    ensures var rest := todo - {c};
            && c in ChansLeft(s, todo, m) && ChansLeft(s, todo, m)[c] == s.chans[c]
            && ChansLeft(s, rest, m) == ChansLeft(s, todo, m)[c := Offer(s, c, m)]
            && ClientsLeft(s, rest) == (if Full(s, c) then ClientsLeft(s, todo) - {c} else ClientsLeft(s, todo))
            && |EvictedLeft(s, rest)| == |EvictedLeft(s, todo)| + (if Full(s, c) then 1 else 0)
  {
    var rest := todo - {c};
    if Full(s, c) {
      assert EvictedLeft(s, rest) == EvictedLeft(s, todo) + {c};
    } else {
      assert EvictedLeft(s, rest) == EvictedLeft(s, todo);
    }
  }

  /** The state the loop owns.  Each method is one branch of its select statement. */
  class Loop {
    var clients: set<ClientId>
    var chans: map<ClientId, Chan>
    var clientRegisterCounter: nat
    var clientDroppedCounter: nat
    var clientUnRegisterCounter: nat
    ghost var registered: set<ClientId>

    ghost function View(): State
      reads this
    {
      State(clients, chans, registered, clientRegisterCounter, clientDroppedCounter, clientUnRegisterCounter, false)
    }

    constructor ()
      ensures View() == Initial()
    {
      clients, chans, registered := {}, map[], {};
      clientRegisterCounter, clientDroppedCounter, clientUnRegisterCounter := 0, 0, 0;
    }

    /** close(client.send): closing twice would panic. */
    method Close(c: ClientId)
      requires c in chans && chans[c].closes == 0
      modifies this`chans
      ensures chans == old(chans)[c := old(chans[c]).(closes := 1)]
    {
      chans := chans[c := chans[c].(closes := chans[c].closes + 1)];
    }

    /** The inner select: send if there is room, else evict. */
    method OfferTo(ghost s: State, client: ClientId, message: Message)
      requires client in s.clients && client in s.chans && s.chans[client].closes == 0
      requires client in chans && chans[client] == s.chans[client]
      modifies this`clients, this`chans, this`clientDroppedCounter
      ensures chans == old(chans)[client := Offer(s, client, message)]
      ensures clients == if Full(s, client) then old(clients) - {client} else old(clients)
      ensures clientDroppedCounter == old(clientDroppedCounter) + (if Full(s, client) then 1 else 0)
    {
      if |chans[client].queue| < SEND_QUEUE_LEN {
        chans := chans[client := chans[client].(queue := chans[client].queue + [message])];
      } else {
        clients := clients - {client};
        Close(client);
        clientDroppedCounter := clientDroppedCounter + 1;
      }
    }

    /** case message := <-b.broadcast.  The map is ranged over in any order. */
    method OnBroadcast(message: Message)
      requires Inv(View())
      modifies this`clients, this`chans, this`clientDroppedCounter
      ensures View() == BroadcastStep(old(View()), message)
    {
      ghost var s := View();
      var todo := clients;
      AllLeft(s, message);
      while todo != {}
        invariant todo <= s.clients
        invariant chans == ChansLeft(s, todo, message)
        invariant clients == ClientsLeft(s, todo)
        invariant clientDroppedCounter == s.droppedCounter + |EvictedLeft(s, todo)|
      {
        var client :| client in todo;
        OneLess(s, todo, client, message);
        OfferTo(s, client, message);
        todo := todo - {client};
      }
      NoneLeft(s, message);
    }

    /** case client := <-b.register, which the constructor of a client sends once. */
    method OnRegister(client: ClientId)
      requires Inv(View()) && client in chans && client !in registered
      modifies this
      ensures View() == RegisterStep(old(View()), client)
    {
      clients := clients + {client};
      registered := registered + {client};
      clientRegisterCounter := clientRegisterCounter + 1;
    }

    /** case client := <-b.unregister, which a client's reader sends when it ends. */
    method OnUnregister(client: ClientId)
      requires Inv(View())
      modifies this
      ensures View() == UnregisterStep(old(View()), client)
    {
      if client in clients {
        clients := clients - {client};
        Close(client);
        clientUnRegisterCounter := clientUnRegisterCounter + 1;
      }
    }
  }
}
