/** The socket table of the modem driver (Firmware/src/n2_offload.c).  Every function works
    on seven slots inside one critical section; those sections are the operations below, on
    values.  A section may find its slot in any state, because the descriptor is checked
    before the semaphore is taken. */
module SocketTable {
  import opened Bytes
  import opened Common
  import opened AtCommands
  import opened AtDecoders

  const MDM_MAX_SOCKETS := 7
  const NEXT_FREE_PORT := 6000
  const MAX_RECEIVE := 512
  const N2_MAX_PACKET_SIZE := 512

  datatype Errno = EINVAL | ENOMEM | EISCONN | EAFNOSUPPORT | ENOTSUP

  /** A return value: a count or descriptor, or a negative error. */
  datatype Ret = Ok(value: int) | Err(errno: Errno)

  datatype Slot = Slot(id: int, inUse: bool, connected: bool, localPort: int,
                       incoming: int, remoteAddr: Option<seq<Byte>>, remoteLen: int)

  datatype Table = Table(slots: seq<Slot>, nextPort: int)

  /** clear_socket */
  const CLEARED := Slot(-1, false, false, 0, 0, None, 0)

  predicate Sized(t: Table) {
    |t.slots| == MDM_MAX_SOCKETS
  }

  function WithSlot(t: Table, i: nat, s: Slot): Table
    requires i < |t.slots|
  {
    t.(slots := t.slots[i := s])
  }

  /** A decoder that only waits for the final result code. */
  function Generic(): Callbacks<()> {
    Callbacks((c, _, _, _, _) => c, (c, _, _) => c)
  }

  function ReplyCode(reply: seq<Byte>): Code {
    Decode(Generic(), (), reply).code
  }

  // ---------------------------------------------------------------------------
  // The critical sections
  // ---------------------------------------------------------------------------

  /** The first slot at or after i that is not in use, or the number of slots. */
  function FirstFree(slots: seq<Slot>, i: nat): (f: nat)
    requires i <= |slots|
    ensures i <= f <= |slots|
    ensures forall k :: i <= k < f ==> slots[k].inUse
    ensures f < |slots| ==> !slots[f].inUse
    decreases |slots| - i
  {
    if i == |slots| || !slots[i].inUse then i else FirstFree(slots, i + 1)
  }

  /** offload_socket: the port is written to the slot even if the modem then refuses. */
  function SocketOp(t: Table, reply: seq<Byte>): (r: (Table, Ret)) {
    var f := FirstFree(t.slots, 0);
    if f == |t.slots| then (t, Err(ENOMEM))
    else
      var s := t.slots[f].(localPort := t.nextPort);
      var r := Decode(Nsocr(), NO_DESCRIPTOR, reply);
      if r.code == AtOk then (WithSlot(t, f, s.(id := r.ctx, inUse := true)).(nextPort := t.nextPort + 1), Ok(f + 100))
      else (WithSlot(t, f, s), Err(ENOMEM))
  }

  /** offload_close */
  function CloseOp(t: Table, i: nat, reply: seq<Byte>): (r: (Table, Ret))
    requires i < |t.slots|
  {
    if ReplyCode(reply) == AtOk then (WithSlot(t, i, CLEARED), Ok(0)) else (t, Err(ENOMEM))
  }

  /** offload_connect */
  function ConnectOp(t: Table, i: nat, addr: seq<Byte>): (r: (Table, Ret))
    requires i < |t.slots|
  {
    if !t.slots[i].inUse then (t, Err(EISCONN))
    else (WithSlot(t, i, t.slots[i].(connected := true, remoteAddr := Some(addr))), Ok(0))
  }

  /** offload_recvfrom */
  function RecvOp(t: Table, i: nat, reply: seq<Byte>): (r: (Table, Ret))
    requires i < |t.slots|
  {
    if t.slots[i].incoming == 0 then (t, Ok(0))
    else
      var r := Decode(Nsorf(), NsorfStart(), reply);
      if r.code != AtOk then (t, Err(ENOMEM))
      else if r.ctx.received == 0 then (t, Ok(0))
      else (WithSlot(t, i, t.slots[i].(incoming := r.ctx.remaining)), Ok(r.ctx.received))
  }

  /** Whether offload_recvfrom hands data to its caller. */
  predicate ReturnsData(t: Table, i: nat, reply: seq<Byte>)
    requires i < |t.slots|
  {
    var r := Decode(Nsorf(), NsorfStart(), reply);
    t.slots[i].incoming != 0 && r.code == AtOk && r.ctx.received > 0
  }

  /** receive_cb */
  function NotifyOp(t: Table, fd: int, bytes: int): (after: Table)
  {
    t.(slots := seq(|t.slots|, i requires 0 <= i < |t.slots| =>
         if t.slots[i].id == fd then t.slots[i].(incoming := t.slots[i].incoming + bytes) else t.slots[i]))
  }

  /** The descriptor of an open socket. */
  predicate ValidSocket(t: Table, sfd: int)
    requires Sized(t)
  {
    100 <= sfd < 107 && t.slots[sfd - 100].inUse
  }

  /** What offload_poll answers: not a valid descriptor; or whether there is something to read. */
  datatype Revents = Unset | Nval | Ready(readable: bool)

  function Revent(t: Table, fd: int): Revents
    requires Sized(t)
  {
    if ValidSocket(t, fd) then Ready(t.slots[fd - 100].incoming > 0) else Nval
  }

  /** The range test of VALID_SOCKET. */
  predicate InRange(sfd: int) {
    100 <= sfd <= 100 + MDM_MAX_SOCKETS
  }

  /** VALID_SOCKET; past is what it reads as in_use one past the table. */
  predicate Guard(t: Table, sfd: int, past: bool)
    requires Sized(t)
  {
    InRange(sfd) && (if sfd - 100 < |t.slots| then t.slots[sfd - 100].inUse else past)
  }

  /** Of the descriptors that the range test admits, those below the strict bound, and no others,
      have their index in the table. */
  lemma GuardReadsTableIff(t: Table, sfd: int)
    requires Sized(t) && InRange(sfd)
    ensures 0 <= sfd - 100 < |t.slots| <==> sfd < 107
  {
  }

  /** The guard admits exactly the descriptors of open sockets if and only if what lies behind
      the table reads as zero. */
  lemma GuardIsExactIff(past: bool)
    ensures (forall t, sfd :: Sized(t) ==> (Guard(t, sfd, past) <==> ValidSocket(t, sfd))) <==> !past
  {
    var t := InitialTable();
    if past {
      assert Sized(t) && Guard(t, 107, past) && !ValidSocket(t, 107);
    }
  }

  // ---------------------------------------------------------------------------
  // The table's invariant
  // ---------------------------------------------------------------------------

  predicate SlotInv(s: Slot, nextPort: int) {
    && (s.inUse <==> s.id != -1)
    && (s.inUse ==> s.id >= 0 && 6000 <= s.localPort < nextPort && s.incoming >= 0)
    && (!s.inUse ==> s.incoming == 0 && s.remoteAddr == None && !s.connected)
  }

  ghost predicate Inv(t: Table) {
    && Sized(t)
    && t.nextPort >= 6000
    && (forall i :: 0 <= i < |t.slots| ==> SlotInv(t.slots[i], t.nextPort))
    && (forall i, j :: 0 <= i < j < |t.slots| && t.slots[i].inUse && t.slots[j].inUse ==>
          t.slots[i].id != t.slots[j].id && t.slots[i].localPort != t.slots[j].localPort)
  }

  function InitialTable(): Table {
    Table(seq(MDM_MAX_SOCKETS, i => CLEARED), NEXT_FREE_PORT)
  }

  /** A modem that reports success for a new socket names it with a fresh, non-negative
      number. */
  ghost predicate GoodSocketReply(t: Table, reply: seq<Byte>) {
    var r := Decode(Nsocr(), NO_DESCRIPTOR, reply);
    r.code == AtOk ==> r.ctx >= 0 && forall i :: 0 <= i < |t.slots| ==> t.slots[i].id != r.ctx
  }

  lemma SocketKeepsInv(t: Table, reply: seq<Byte>)
    requires Inv(t) && GoodSocketReply(t, reply)
    ensures Inv(SocketOp(t, reply).0)
    ensures SocketOp(t, reply).1.Ok? ==> 100 <= SocketOp(t, reply).1.value < 107
  {
  }

  /** A socket is refused exactly if every slot is in use or the modem does not say OK. */
  lemma SocketFailsIff(t: Table, reply: seq<Byte>)
    ensures SocketOp(t, reply).1.Err? <==>
            (forall k :: 0 <= k < |t.slots| ==> t.slots[k].inUse) || Decode(Nsocr(), NO_DESCRIPTOR, reply).code != AtOk
    ensures SocketOp(t, reply).1.Err? ==> SocketOp(t, reply).1 == Err(ENOMEM)
  {
    var f := FirstFree(t.slots, 0);
    assert f < |t.slots| ==> !t.slots[f].inUse;
  }

  /** Closing what was just opened frees that slot, and no other has changed; only the local
      port is used up. */
  lemma CloseUndoesSocket(t: Table, socr: seq<Byte>, socl: seq<Byte>)
    requires Inv(t) && SocketOp(t, socr).1.Ok? && ReplyCode(socl) == AtOk
    ensures var i := SocketOp(t, socr).1.value - 100;
            && 0 <= i < |t.slots| && !t.slots[i].inUse
            && CloseOp(SocketOp(t, socr).0, i, socl) == (WithSlot(t, i, CLEARED).(nextPort := t.nextPort + 1), Ok(0))
  {
    var i := FirstFree(t.slots, 0);
    var open := SocketOp(t, socr).0;
    assert open.slots[i := CLEARED] == t.slots[i := CLEARED];
  }

  lemma CloseKeepsInv(t: Table, i: nat, reply: seq<Byte>)
    requires Inv(t) && i < |t.slots|
    ensures Inv(CloseOp(t, i, reply).0)
  {
  }

  lemma ConnectKeepsInv(t: Table, i: nat, addr: seq<Byte>)
    requires Inv(t) && i < |t.slots|
    ensures Inv(ConnectOp(t, i, addr).0)
  {
  }

  lemma CharKeepsRemaining(c: NsorfCtx, b: Byte, urc: bool, space: bool)
    ensures NsorfChar(c, b, urc, space).remaining == c.remaining
  {
  }

  lemma {:induction false} CharsKeepRemaining(c: NsorfCtx, line: seq<Byte>, n: nat)
    requires n <= |line| && c.remaining == 0
    ensures Chars(Nsorf(), c, line, n).remaining == 0
    decreases n
  {
    if n > 0 {
      var b := line[n - 1];
      CharsKeepRemaining(c, line, n - 1);
      CharKeepsRemaining(Chars(Nsorf(), c, line, n - 1), b, Urc(line[..n]), IsSpace(b));
    }
  }

  /** The decoder reports nothing remaining, whatever the modem says. */
  lemma {:induction false} NothingRemains(c: NsorfCtx, input: seq<Byte>)
    requires c.remaining == 0
    ensures Decode(Nsorf(), c, input).ctx.remaining == 0
    decreases |input|
  {
    var e := EndOfLine(input, 0);
    if e == -1 {
      CharsKeepRemaining(c, input, |input|);
    } else {
      var line := input[..e];
      CharsKeepRemaining(c, line, e);
      if CodeOf(line) == AtTimeout {
        NothingRemains(AfterLine(Nsorf(), Chars(Nsorf(), c, line, e), line), input[e..]);
      }
    }
  }

  /** A read that returns data leaves nothing pending; any other leaves the table alone. */
  lemma RecvEmpties(t: Table, i: nat, reply: seq<Byte>)
    requires i < |t.slots|
    ensures RecvOp(t, i, reply).0 ==
            if ReturnsData(t, i, reply) then WithSlot(t, i, t.slots[i].(incoming := 0)) else t
  {
    NothingRemains(NsorfStart(), reply);
  }

  /** What a read returns: the number of bytes handed over, zero if there are none, and an error
      if the modem was asked and did not say OK. */
  lemma RecvReturns(t: Table, i: nat, reply: seq<Byte>)
    requires i < |t.slots|
    ensures var ret, out := RecvOp(t, i, reply).1, Decode(Nsorf(), NsorfStart(), reply);
            && (ReturnsData(t, i, reply) <==> ret.Ok? && ret.value > 0)
            && (ReturnsData(t, i, reply) ==> ret.value == |out.ctx.data| == out.ctx.received)
            && (ret.Err? <==> t.slots[i].incoming != 0 && out.code != AtOk)
            && (ret.Err? ==> ret == Err(ENOMEM))
  {
    CountIsLength(NsorfStart(), reply);
  }

  predicate Counted(c: NsorfCtx) {
    c.received == |c.data|
  }

  lemma CharCounts(c: NsorfCtx, b: Byte, urc: bool, space: bool)
    requires Counted(c)
    ensures Counted(NsorfChar(c, b, urc, space))
  {
  }

  lemma {:induction false} CharsCount(c: NsorfCtx, line: seq<Byte>, n: nat)
    requires n <= |line| && Counted(c)
    ensures Counted(Chars(Nsorf(), c, line, n))
    decreases n
  {
    if n > 0 {
      var b := line[n - 1];
      CharsCount(c, line, n - 1);
      CharCounts(Chars(Nsorf(), c, line, n - 1), b, Urc(line[..n]), IsSpace(b));
    }
  }

  /** The number of bytes reported is the number of bytes stored, whatever the modem says. */
  lemma {:induction false} CountIsLength(c: NsorfCtx, input: seq<Byte>)
    requires Counted(c)
    ensures Counted(Decode(Nsorf(), c, input).ctx)
    decreases |input|
  {
    var e := EndOfLine(input, 0);
    if e == -1 {
      CharsCount(c, input, |input|);
    } else {
      var line := input[..e];
      CharsCount(c, line, e);
      if CodeOf(line) == AtTimeout {
        CountIsLength(AfterLine(Nsorf(), Chars(Nsorf(), c, line, e), line), input[e..]);
      }
    }
  }

  /** Closing succeeds exactly if the modem says OK, and then nothing is left in the slot;
      connecting succeeds exactly if the slot is in use. */
  lemma CloseAndConnectReturn(t: Table, i: nat, reply: seq<Byte>, addr: seq<Byte>)
    requires i < |t.slots|
    ensures CloseOp(t, i, reply).1 == if Decode(Generic(), (), reply).code == AtOk then Ok(0) else Err(ENOMEM)
    ensures ConnectOp(t, i, addr).1 == if t.slots[i].inUse then Ok(0) else Err(EISCONN)
    ensures CloseOp(t, i, reply).0 ==
            if CloseOp(t, i, reply).1.Ok? then WithSlot(t, i, Slot(-1, false, false, 0, 0, None, 0)) else t
    ensures ConnectOp(t, i, addr).1.Err? ==> ConnectOp(t, i, addr).0 == t
  {
  }

  lemma RecvKeepsInv(t: Table, i: nat, reply: seq<Byte>)
    requires Inv(t) && i < |t.slots|
    ensures Inv(RecvOp(t, i, reply).0)
  {
    RecvEmpties(t, i, reply);
  }

  lemma NotifyKeepsInv(t: Table, fd: nat, bytes: nat)
    requires Inv(t)
    ensures Inv(NotifyOp(t, fd, bytes))
  {
  }
}
