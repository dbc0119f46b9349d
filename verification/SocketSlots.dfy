/** What an open slot of the socket table remembers, in every run: the socket that was opened in it,
    and the address it was connected to last. */
module SocketSlots {
  import opened Bytes
  import opened Common
  import opened AtCommands
  import opened AtDecoders
  import opened SocketTable
  import opened SocketRuns

  /** The event opens a socket in the slot. */
  predicate Opens(t: Table, e: Event, i: nat) {
    e.Socket? && SocketOp(t, e.reply).1 == Ok(100 + i)
  }

  lemma OpenedSlot(t: Table, e: Event, i: nat)
    requires Inv(t) && Possible(t, e) && i < |t.slots| && Opens(t, e, i)
    ensures !t.slots[i].inUse && |Next(t, e).slots| == |t.slots|
    ensures Next(t, e).slots[i] == Slot(Decode(Nsocr(), -2, e.reply).ctx, true, false, t.nextPort, 0, None,
                                        t.slots[i].remoteLen)
    ensures Next(t, e).nextPort == t.nextPort + 1
  {
  }

  lemma KeptSlot(t: Table, e: Event, i: nat)
    requires Inv(t) && Possible(t, e) && i < |t.slots| == |Next(t, e).slots|
    requires !Opens(t, e, i) && Next(t, e).slots[i].inUse
    ensures var s, u := t.slots[i], Next(t, e).slots[i];
            && s.inUse && u.id == s.id && u.localPort == s.localPort
            && u.remoteAddr == (if e.Connect? && e.slot == i then Some(e.addr) else s.remoteAddr)
            && u.connected == ((e.Connect? && e.slot == i) || s.connected)
  {
    if e.Recv? {
      RecvEmpties(t, e.slot, e.reply);
    }
  }

  /** How many sockets the first n events have opened. */
  ghost function Openings(run: seq<Event>, worlds: seq<World>, n: nat): (count: nat)
    requires n <= |run| && |worlds| == |run| + 1
  {
    if n == 0 then 0
    else
      var e := run[n - 1];
      Openings(run, worlds, n - 1) + (if e.Socket? && SocketOp(worlds[n - 1].table, e.reply).1.Ok? then 1 else 0)
  }

  /** Local ports are given out one after the other, from 6000. */
  lemma {:induction false} PortsAreCounted(run: seq<Event>, worlds: seq<World>, n: nat)
    requires Trace(run, worlds) && n <= |run|
    ensures worlds[n].table.nextPort == 6000 + Openings(run, worlds, n)
  {
    if n > 0 {
      PortsAreCounted(run, worlds, n - 1);
      assert StepAt(run, worlds, n - 1);
    }
  }

  /** The slot has been open from the k-th to the n-th world. */
  ghost predicate OpenSince(worlds: seq<World>, k: nat, n: nat, i: nat) {
    n < |worlds| && forall m :: k <= m <= n ==> OpenIn(worlds[m], i)
  }

  lemma LastEvent(run: seq<Event>, worlds: seq<World>, n: nat, i: nat)
    requires Trace(run, worlds) && n <= |run| && OpenIn(worlds[n], i)
    ensures 0 < n && Inv(worlds[n - 1].table) && Possible(worlds[n - 1].table, run[n - 1])
    ensures worlds[n].table == Next(worlds[n - 1].table, run[n - 1]) && i < |worlds[n - 1].table.slots|
    ensures |worlds[n].table.slots| == |worlds[n - 1].table.slots|
  {
    assert n > 0;
    EveryRunKeepsInv(run, worlds, n);
    EveryRunKeepsInv(run, worlds, n - 1);
    assert StepAt(run, worlds, n - 1);
  }

  /** The k-th event opened the socket that is in the slot now. */
  ghost predicate OpenedBy(run: seq<Event>, worlds: seq<World>, n: nat, i: nat, k: nat)
    requires n <= |run| && |worlds| == |run| + 1 && OpenIn(worlds[n], i)
  {
    var slot := worlds[n].table.slots[i];
    && k < n && i < |worlds[k].table.slots| && Opens(worlds[k].table, run[k], i)
    && OpenSince(worlds, k + 1, n, i)
    && slot.id == Decode(Nsocr(), -2, run[k].reply).ctx
    && slot.localPort == 6000 + Openings(run, worlds, k)
  }

  lemma StillOpenedBy(run: seq<Event>, worlds: seq<World>, n: nat, i: nat, k: nat)
    requires 0 < n <= |run| && |worlds| == |run| + 1 && OpenIn(worlds[n], i) && OpenIn(worlds[n - 1], i)
    requires worlds[n].table.slots[i].id == worlds[n - 1].table.slots[i].id
    requires worlds[n].table.slots[i].localPort == worlds[n - 1].table.slots[i].localPort
    requires OpenedBy(run, worlds, n - 1, i, k)
    ensures OpenedBy(run, worlds, n, i, k)
  {
  }

  /** Every open slot was opened by some event and has been open ever since; its id is the one the
      modem gave then, and its local port 6000 plus the number of sockets opened before. */
  lemma {:induction false} OpenSlotWasOpened(run: seq<Event>, worlds: seq<World>, n: nat, i: nat) returns (k: nat)
    requires Trace(run, worlds) && n <= |run| && OpenIn(worlds[n], i)
    ensures OpenedBy(run, worlds, n, i, k)
  {
    LastEvent(run, worlds, n, i);
    var t, e := worlds[n - 1].table, run[n - 1];
    if Opens(t, e, i) {
      k := n - 1;
      OpenedSlot(t, e, i);
      PortsAreCounted(run, worlds, k);
    } else {
      KeptSlot(t, e, i);
      k := OpenSlotWasOpened(run, worlds, n - 1, i);
      StillOpenedBy(run, worlds, n, i, k);
    }
  }

  // ---------------------------------------------------------------------------
  // Whom a socket talks to
  // ---------------------------------------------------------------------------

  /** The k-th event connects the slot to the address, and since then the slot has been open and
      has not been connected again. */
  ghost predicate LastConnected(run: seq<Event>, worlds: seq<World>, n: nat, i: nat, addr: seq<Byte>, k: nat)
    requires n <= |run| && |worlds| == |run| + 1
  {
    && k < n && run[k] == Connect(i, addr) && OpenSince(worlds, k, n, i)
    && forall j :: k < j < n ==> !(run[j].Connect? && run[j].slot == i)
  }

  ghost predicate Remembers(run: seq<Event>, worlds: seq<World>, n: nat, i: nat, addr: seq<Byte>)
    requires n <= |run| && |worlds| == |run| + 1 && OpenIn(worlds[n], i)
  {
    var slot := worlds[n].table.slots[i];
    && (slot.remoteAddr == Some(addr) <==> exists k: nat :: LastConnected(run, worlds, n, i, addr, k))
    && (slot.connected <==> slot.remoteAddr.Some?)
  }

  /** Events that do not connect the slot change nothing about that. */
  lemma StillRemembers(run: seq<Event>, worlds: seq<World>, n: nat, i: nat, addr: seq<Byte>)
    requires 0 < n <= |run| && |worlds| == |run| + 1 && OpenIn(worlds[n], i) && OpenIn(worlds[n - 1], i)
    requires worlds[n].table.slots[i].remoteAddr == worlds[n - 1].table.slots[i].remoteAddr
    requires worlds[n].table.slots[i].connected == worlds[n - 1].table.slots[i].connected
    requires !(run[n - 1].Connect? && run[n - 1].slot == i) && Remembers(run, worlds, n - 1, i, addr)
    ensures Remembers(run, worlds, n, i, addr)
  {
    var before := n - 1;
    if k: nat :| LastConnected(run, worlds, before, i, addr, k) {
      assert LastConnected(run, worlds, n, i, addr, k);
    }
    if k: nat :| LastConnected(run, worlds, n, i, addr, k) {
      assert k < before;
      assert LastConnected(run, worlds, before, i, addr, k);
    }
  }

  /** In every run, an open slot holds an address exactly if it was connected to it, last, since it
      was opened; and it counts as connected exactly if it holds one. */
  lemma {:induction false} AddressIsLastConnected(run: seq<Event>, worlds: seq<World>, n: nat, i: nat, addr: seq<Byte>)
    requires Trace(run, worlds) && n <= |run| && OpenIn(worlds[n], i)
    ensures Remembers(run, worlds, n, i, addr)
  {
    LastEvent(run, worlds, n, i);
    var t, e := worlds[n - 1].table, run[n - 1];
    if Opens(t, e, i) {
      OpenedSlot(t, e, i);
      NotConnectedYet(run, worlds, n, i, addr);
    } else {
      KeptSlot(t, e, i);
      if e.Connect? && e.slot == i {
        ConnectedNow(run, worlds, n, i, addr);
      } else {
        AddressIsLastConnected(run, worlds, n - 1, i, addr);
        StillRemembers(run, worlds, n, i, addr);
      }
    }
  }

  lemma NotConnectedYet(run: seq<Event>, worlds: seq<World>, n: nat, i: nat, addr: seq<Byte>)
    requires 0 < n <= |run| && |worlds| == |run| + 1 && !OpenIn(worlds[n - 1], i)
    ensures !exists k: nat :: LastConnected(run, worlds, n, i, addr, k)
  {
  }

  lemma ConnectedNow(run: seq<Event>, worlds: seq<World>, n: nat, i: nat, addr: seq<Byte>)
    requires 0 < n <= |run| && |worlds| == |run| + 1 && OpenIn(worlds[n - 1], i) && OpenIn(worlds[n], i)
    requires run[n - 1].Connect? && run[n - 1].slot == i
    ensures (exists k: nat :: LastConnected(run, worlds, n, i, addr, k)) <==> run[n - 1].addr == addr
  {
    if run[n - 1].addr == addr {
      assert LastConnected(run, worlds, n, i, addr, n - 1);
    }
  }
}
