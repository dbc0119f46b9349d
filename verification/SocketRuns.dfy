/** Runs of the socket table: any sequence of critical sections, by any threads, between two
    modem restarts.  What every run keeps, and what offload_poll reports at its end. */
module SocketRuns {
  import opened Bytes
  import opened AtCommands
  import opened AtDecoders
  import opened SocketTable
  import SlotHistory

  /** One critical section with what the modem answers in it.  Slots may be stale. */
  datatype Event =
    | Socket(reply: seq<Byte>)
    | Close(slot: nat, reply: seq<Byte>)
    | Connect(slot: nat, addr: seq<Byte>)
    | Recv(slot: nat, reply: seq<Byte>)
    | Notify(fd: nat, bytes: nat)

  /** What an observer of the calls notes down. */
  datatype Note = Opened(slot: nat, id: int) | Read(slot: nat) | Announced(id: int, bytes: nat)

  datatype World = World(table: Table, notes: seq<Note>)

  /** Slots exist, and the modem names new sockets afresh. */
  ghost predicate Possible(t: Table, e: Event) {
    match e
    case Socket(reply) => GoodSocketReply(t, reply)
    case Close(i, _) => i < |t.slots|
    case Connect(i, _) => i < |t.slots|
    case Recv(i, _) => i < |t.slots|
    case Notify(_, _) => true
  }

  function Next(t: Table, e: Event): Table {
    match e
    case Socket(reply) => SocketOp(t, reply).0
    case Close(i, reply) => if i < |t.slots| then CloseOp(t, i, reply).0 else t
    case Connect(i, addr) => if i < |t.slots| then ConnectOp(t, i, addr).0 else t
    case Recv(i, reply) => if i < |t.slots| then RecvOp(t, i, reply).0 else t
    case Notify(fd, bytes) => NotifyOp(t, fd, bytes)
  }

  function NotesOf(t: Table, e: Event): seq<Note> {
    match e
    case Socket(reply) =>
      if SocketOp(t, reply).1.Ok? then [Opened(FirstFree(t.slots, 0), Decode(Nsocr(), NO_DESCRIPTOR, reply).ctx)]
      else []
    case Recv(i, reply) => if i < |t.slots| && ReturnsData(t, i, reply) then [Read(i)] else []
    case Notify(fd, bytes) => [Announced(fd, bytes)]
    case Close(_, _) => []
    case Connect(_, _) => []
  }

  function WorldStep(u: World, e: Event): World {
    World(Next(u.table, e), u.notes + NotesOf(u.table, e))
  }

  ghost predicate StepAt(run: seq<Event>, worlds: seq<World>, m: nat)
    requires m < |run| && |worlds| == |run| + 1
  {
    Possible(worlds[m].table, run[m]) && worlds[m + 1] == WorldStep(worlds[m], run[m])
  }

  /** The worlds that a run of possible events goes through. */
  ghost predicate Trace(run: seq<Event>, worlds: seq<World>) {
    && |worlds| == |run| + 1
    && worlds[0] == World(InitialTable(), [])
    && forall m :: 0 <= m < |run| ==> StepAt(run, worlds, m)
  }

  // ---------------------------------------------------------------------------
  // What was announced and not read
  // ---------------------------------------------------------------------------

  predicate Settles(n: Note, slot: nat) {
    (n.Opened? || n.Read?) && n.slot == slot
  }

  /** The bytes announced for a modem id since the slot was opened or last read. */
  function Pending(notes: seq<Note>, slot: nat, id: int): nat {
    if notes == [] then 0
    else
      var n := |notes| - 1;
      if Settles(notes[n], slot) then 0
      else Pending(notes[..n], slot, id) + (if notes[n].Announced? && notes[n].id == id then notes[n].bytes else 0)
  }

  /** A positive announcement for the id that nothing has settled since. */
  ghost predicate Outstanding(notes: seq<Note>, slot: nat, id: int, k: nat) {
    && k < |notes|
    && notes[k].Announced? && notes[k].id == id && notes[k].bytes > 0
    && forall j :: k < j < |notes| ==> !Settles(notes[j], slot)
  }

  lemma {:induction false} PendingIsOutstanding(notes: seq<Note>, slot: nat, id: int)
    ensures Pending(notes, slot, id) > 0 <==> exists k: nat :: Outstanding(notes, slot, id, k)
  {
    if notes != [] {
      var n := |notes| - 1;
      PendingIsOutstanding(notes[..n], slot, id);
      if Pending(notes, slot, id) > 0 {
        if notes[n].Announced? && notes[n].id == id && notes[n].bytes > 0 {
          assert Outstanding(notes, slot, id, n);
        } else {
          var k: nat :| Outstanding(notes[..n], slot, id, k);
          assert forall j :: k < j < n ==> notes[..n][j] == notes[j];
          assert Outstanding(notes, slot, id, k);
        }
      }
      if exists k: nat :: Outstanding(notes, slot, id, k) {
        var k: nat :| Outstanding(notes, slot, id, k);
        if k < n {
          assert forall j :: k < j < n ==> notes[..n][j] == notes[j];
          assert Outstanding(notes[..n], slot, id, k);
        }
      }
    }
  }

  // ---------------------------------------------------------------------------
  // What every run keeps
  // ---------------------------------------------------------------------------

  /** What the table believes about a slot is what was announced for it. */
  predicate Faithful(s: Slot, notes: seq<Note>, i: nat) {
    s.inUse ==> s.incoming == Pending(notes, i, s.id)
  }

  ghost predicate WorldInv(w: World) {
    Inv(w.table) && forall i :: 0 <= i < |w.table.slots| ==> Faithful(w.table.slots[i], w.notes, i)
  }

  lemma PendingSnoc(notes: seq<Note>, n: Note, slot: nat, id: int)
    ensures Pending(notes + [n], slot, id) ==
            if Settles(n, slot) then 0
            else Pending(notes, slot, id) + (if n.Announced? && n.id == id then n.bytes else 0)
  {
    assert (notes + [n])[..|notes|] == notes;
  }

  lemma NextKeepsInv(t: Table, e: Event)
    requires Inv(t) && Possible(t, e)
    ensures Inv(Next(t, e)) && |Next(t, e).slots| == |t.slots|
  {
    match e
    case Socket(reply) => SocketKeepsInv(t, reply);
    case Close(i, reply) => CloseKeepsInv(t, i, reply);
    case Connect(i, addr) => ConnectKeepsInv(t, i, addr);
    case Recv(i, reply) => RecvKeepsInv(t, i, reply);
    case Notify(fd, bytes) => NotifyKeepsInv(t, fd, bytes);
  }

  lemma NextKeepsFaith(t: Table, notes: seq<Note>, e: Event, i: nat)
    requires Inv(t) && Possible(t, e) && i < |t.slots| == |Next(t, e).slots| && Faithful(t.slots[i], notes, i)
    ensures Faithful(Next(t, e).slots[i], notes + NotesOf(t, e), i)
  {
    var id := Next(t, e).slots[i].id;
    match e
    case Socket(reply) =>
      if SocketOp(t, reply).1.Ok? {
        PendingSnoc(notes, NotesOf(t, e)[0], i, id);
      } else {
        assert notes + [] == notes;
      }
    case Recv(k, reply) =>
      RecvEmpties(t, k, reply);
      if ReturnsData(t, k, reply) {
        PendingSnoc(notes, Read(k), i, id);
      } else {
        assert notes + [] == notes;
      }
    case Notify(fd, bytes) => PendingSnoc(notes, Announced(fd, bytes), i, id);
    case Close(_, _) => assert notes + [] == notes;
    case Connect(_, _) => assert notes + [] == notes;
  }

  lemma StepKeepsInv(u: World, e: Event)
    requires WorldInv(u) && Possible(u.table, e)
    ensures WorldInv(WorldStep(u, e))
  {
    NextKeepsInv(u.table, e);
    var w := WorldStep(u, e);
    forall i: nat | i < |w.table.slots|
      ensures Faithful(w.table.slots[i], w.notes, i)
    {
      NextKeepsFaith(u.table, u.notes, e, i);
    }
  }

  /** In every run: a slot is in use exactly if its id is not -1; open slots have distinct
      non-negative ids and distinct local ports; free slots have nothing pending and no
      remote address; and what is pending on an open slot is what was announced for it since
      it was opened or last read. */
  lemma {:induction false} EveryRunKeepsInv(run: seq<Event>, worlds: seq<World>, n: nat)
    requires Trace(run, worlds) && n <= |run|
    ensures WorldInv(worlds[n])
  {
    if n > 0 {
      assert StepAt(run, worlds, n - 1);
      EveryRunKeepsInv(run, worlds, n - 1);
      StepKeepsInv(worlds[n - 1], run[n - 1]);
    }
  }

  /** For an open socket, the answer of offload_poll is POLLIN exactly if a positive number of
      bytes was announced for its modem id and neither its opening nor a read that returned data
      came after.  In particular no notification is lost to a read it races with: taking the
      semaphore after the read, it is outstanding. */
  lemma PollInIffOutstanding(run: seq<Event>, worlds: seq<World>, n: nat, i: nat)
    requires Trace(run, worlds) && n <= |run| && i < |worlds[n].table.slots| && worlds[n].table.slots[i].inUse
    ensures Sized(worlds[n].table)
    ensures Revent(worlds[n].table, 100 + i) ==
            Ready(exists k: nat :: Outstanding(worlds[n].notes, i, worlds[n].table.slots[i].id, k))
  {
    var w := worlds[n];
    EveryRunKeepsInv(run, worlds, n);
    assert Faithful(w.table.slots[i], w.notes, i);
    PendingIsOutstanding(w.notes, i, w.table.slots[i].id);
  }

  // ---------------------------------------------------------------------------
  // Since a slot was opened or last read
  // ---------------------------------------------------------------------------

  /** What an event means for a slot: it opens the slot, or is a read of it that returns data; or
      it announces bytes. */
  function EffectOf(t: Table, e: Event, slot: nat): SlotHistory.Effect {
    var notes := NotesOf(t, e);
    if notes == [] then SlotHistory.Nothing
    else if Settles(notes[0], slot) then SlotHistory.Settle
    else if notes[0].Announced? then SlotHistory.Announce(notes[0].id, notes[0].bytes)
    else SlotHistory.Nothing
  }

  predicate IsHistory(run: seq<Event>, worlds: seq<World>, slot: nat, history: seq<SlotHistory.Effect>) {
    && |history| == |run| && |worlds| == |run| + 1
    && forall m :: 0 <= m < |run| ==> history[m] == EffectOf(worlds[m].table, run[m], slot)
  }

  function History(run: seq<Event>, worlds: seq<World>, slot: nat): (history: seq<SlotHistory.Effect>)
    requires |worlds| == |run| + 1
    ensures IsHistory(run, worlds, slot, history)
  {
    seq(|run|, m requires 0 <= m < |run| => EffectOf(worlds[m].table, run[m], slot))
  }

  lemma PendingAfter(notes: seq<Note>, t: Table, e: Event, slot: nat, id: int)
    ensures Pending(notes + NotesOf(t, e), slot, id) ==
            match EffectOf(t, e, slot)
            case Settle => 0
            case Announce(i, bytes) => Pending(notes, slot, id) + (if i == id then bytes else 0)
            case Nothing => Pending(notes, slot, id)
  {
    if NotesOf(t, e) == [] {
      assert notes + [] == notes;
    } else {
      assert NotesOf(t, e) == [NotesOf(t, e)[0]];
      PendingSnoc(notes, NotesOf(t, e)[0], slot, id);
    }
  }

  lemma {:induction false} PendingOfHistory(run: seq<Event>, worlds: seq<World>, n: nat, slot: nat, id: int,
                                            history: seq<SlotHistory.Effect>)
    requires Trace(run, worlds) && n <= |run| && IsHistory(run, worlds, slot, history)
    ensures Pending(worlds[n].notes, slot, id) == SlotHistory.Pending(history, n, id)
  {
    if n > 0 {
      var u, e := worlds[n - 1], run[n - 1];
      assert StepAt(run, worlds, n - 1);
      assert history[n - 1] == EffectOf(u.table, e, slot);
      PendingOfHistory(run, worlds, n - 1, slot, id, history);
      PendingAfter(u.notes, u.table, e, slot, id);
      SlotHistory.PendingNext(history, n - 1, id);
    }
  }

  /** A slot comes into use only by being opened. */
  lemma OnlyOpeningUses(t: Table, e: Event, slot: nat)
    requires slot < |t.slots| == |Next(t, e).slots| && !t.slots[slot].inUse && Next(t, e).slots[slot].inUse
    ensures EffectOf(t, e, slot) == SlotHistory.Settle
  {
    assert e.Socket? && FirstFree(t.slots, 0) == slot;
  }

  predicate OpenIn(w: World, slot: nat) {
    slot < |w.table.slots| && w.table.slots[slot].inUse
  }

  lemma OpenBefore(u: World, e: Event, slot: nat)
    requires Inv(u.table) && Possible(u.table, e) && OpenIn(WorldStep(u, e), slot)
    requires EffectOf(u.table, e, slot) != SlotHistory.Settle
    ensures OpenIn(u, slot)
  {
    NextKeepsInv(u.table, e);
    if !u.table.slots[slot].inUse {
      OnlyOpeningUses(u.table, e, slot);
    }
  }

  /** Every open slot was opened some time. */
  lemma OpenSlotWasSettled(run: seq<Event>, worlds: seq<World>, slot: nat, history: seq<SlotHistory.Effect>)
    returns (k: nat)
    requires Trace(run, worlds) && OpenIn(worlds[|run|], slot) && IsHistory(run, worlds, slot, history)
    ensures SlotHistory.LastSettled(history, k, |run|)
  {
    var open := seq(|run| + 1, n requires 0 <= n <= |run| => OpenIn(worlds[n], slot));
    forall m | 0 <= m < |run| && open[m + 1] && history[m] != SlotHistory.Settle
      ensures open[m]
    {
      assert StepAt(run, worlds, m);
      EveryRunKeepsInv(run, worlds, m);
      OpenBefore(worlds[m], run[m], slot);
    }
    k := SlotHistory.WasSettled(history, open, |run|);
  }
}
