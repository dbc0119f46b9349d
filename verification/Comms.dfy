/** The modem's byte stream (Firmware/src/comms.c): the UART callback puts every byte into
    the reply ring and the bytes of unsolicited lines into a second ring as well; readers and
    the URC thread take from them.  Rings are guarded by counting semaphores, so the parties
    interleave between any two kernel calls.  Each step below is one such kernel call together
    with the private code up to the next one. */
module Comms {
  import opened Bytes
  import opened Text
  import opened Common
  import opened AtCommands
  import opened Numerals

  const RB_SIZE := 255
  const URC_SIZE := 64

  /** "+NSONMI:" */
  const NSONMI: seq<Byte> := [43, 78, 83, 79, 78, 77, 73, 58]

  // ---------------------------------------------------------------------------
  // State
  // ---------------------------------------------------------------------------

  /** Where the UART callback is: between bytes, or about to make a kernel call for one. */
  datatype Receiver = Idle | GiveUrc(b: Byte) | PutRx(b: Byte) | GiveRx(b: Byte)

  /** A call of the receive callback; count is absent where the source reads through a
      pointer it never set. */
  datatype Notice = NoCount(fd: int) | Notice(fd: int, count: int)

  datatype State = State(
    rx: seq<Byte>, rxSem: nat,               // reply ring and its semaphore
    urc: seq<Byte>, urcSem: nat,             // URC ring and its semaphore
    prev: Byte, inUrc: bool, pc: Receiver,   // the UART callback
    taken: nat,                              // readers that took rxSem but have not read yet
    urcTaken: bool,                          // the URC thread took urcSem but has not read yet
    thread: Thread,
    // what has happened so far
    arrived: seq<Byte>, accepted: seq<Byte>, delivered: seq<Byte>,
    urcPut: seq<Byte>, urcGot: seq<Byte>,
    lost: seq<int>,                          // positions of the bytes the reply ring had no room for
    emptyReads: nat, urcDropped: nat)

  /** The URC thread: its line buffer, the calls it has made, and whether it ever wrote
      past its buffer. */
  datatype Thread = Thread(buf: seq<Byte>, index: nat, notices: seq<Notice>, overrun: bool)

  function NewThread(): Thread {
    Thread(seq(URC_SIZE, i => 0), 0, [], false)
  }

  function Initial(): State {
    State([], 0, [], 0, LF, false, Idle, 0, false, NewThread(), [], [], [], [], [], [], 0, 0)
  }

  // ---------------------------------------------------------------------------
  // Steps
  // ---------------------------------------------------------------------------

  /** The capacities the ring implementation actually offers: at least one byte, at most
      the buffer it was given. */
  datatype Rings = Rings(rxCap: nat, urcCap: nat)

  predicate ValidRings(r: Rings) {
    0 < r.rxCap <= 255 && 0 < r.urcCap <= 64
  }

  datatype Event = Arrive(b: Byte) | Continue | Take | Get | UrcTake | UrcGet

  /** Whether the byte is part of an unsolicited line. */
  function EntersUrc(s: State, b: Byte): bool {
    s.inUrc || (s.prev == LF && b == PLUS)
  }

  /** comms_handle_char up to its first kernel call. */
  function ArriveStep(r: Rings, s: State, b: Byte): State {
    var s := s.(arrived := s.arrived + [b], inUrc := EntersUrc(s, b));
    if !s.inUrc then s.(pc := PutRx(b))
    else if |s.urc| < r.urcCap then s.(urc := s.urc + [b], urcPut := s.urcPut + [b], pc := GiveUrc(b))
    else s.(urcDropped := s.urcDropped + 1, pc := GiveUrc(b))
  }

  /** The rest of comms_handle_char, one kernel call at a time. */
  function ContinueStep(r: Rings, s: State): State {
    match s.pc
    case Idle => s
    case GiveUrc(b) => s.(urcSem := Min(s.urcSem + 1, URC_SIZE), pc := PutRx(b))
    case PutRx(b) =>
      var s := s.(inUrc := s.inUrc && b != CR);
      if |s.rx| < r.rxCap then s.(rx := s.rx + [b], accepted := s.accepted + [b], pc := GiveRx(b))
      else s.(lost := s.lost + [|s.arrived| - 1], pc := Idle)
    case GiveRx(b) => s.(prev := b, rxSem := Min(s.rxSem + 1, RB_SIZE), pc := Idle)
  }

  /** modem_read after its semaphore. */
  function GetStep(s: State): State {
    var s := s.(taken := if s.taken > 0 then s.taken - 1 else 0);
    if s.rx == [] then s.(emptyReads := s.emptyReads + 1)
    else s.(delivered := s.delivered + [s.rx[0]], rx := s.rx[1..])
  }

  /** The last comma among the first n characters; -1 if there is none. */
  function LastComma(buf: seq<Byte>, n: nat): (at: int)
    requires n <= |buf|
    ensures -1 <= at < n
  {
    if n == 0 then -1 else if buf[n - 1] == COMMA then n - 1 else LastComma(buf, n - 1)
  }

  /** The buffer with a NUL at the end of the line and in place of every comma. */
  function Cut(buf: seq<Byte>, index: nat): (cut: seq<Byte>)
    requires index < |buf|
    ensures |cut| == |buf|
  {
    seq(|buf|, k requires 0 <= k < |buf| => if k == index || (k < index && buf[k] == COMMA) then 0 else buf[k])
  }

  predicate IsNsonmi(line: seq<Byte>) {
    NSONMI <= line
  }

  /** What the URC thread makes of a complete line in its buffer.  The number of the socket
      is read from behind the prefix and one space, the count from behind the last comma. */
  function NoticeOf(buf: seq<Byte>, index: nat): seq<Notice>
    requires index < |buf|
  {
    if IsNsonmi(buf[..index]) then
      var comma := LastComma(buf, index);
      var cut := Cut(buf, index);
      var fd := Atoi(CString(cut, |NSONMI| + 1));
      if comma < 0 then [NoCount(fd)] else [Notice(fd, Atoi(CString(cut, comma + 1)))]
    else []
  }

  /** One byte of the URC thread. */
  function UrcByte(t: Thread, b: Byte): Thread {
    if b == CR then
      if t.index >= |t.buf| then t.(index := 0, overrun := true)
      else
        t.(notices := t.notices + NoticeOf(t.buf, t.index), index := 0,
           buf := if IsNsonmi(t.buf[..t.index]) then Cut(t.buf, t.index) else t.buf[t.index := 0])
    else if b == LF then t
    else if t.index >= |t.buf| then t.(index := (t.index + 1) % 0x100, overrun := true)
    else t.(buf := t.buf[t.index := b], index := t.index + 1)
  }

  /** urc_threadproc after its semaphore. */
  function UrcGetStep(s: State): State {
    var s := s.(urcTaken := false);
    if s.urc == [] then s
    else s.(urc := s.urc[1..], urcGot := s.urcGot + [s.urc[0]], thread := UrcByte(s.thread, s.urc[0]))
  }

  /** When a step can be taken: a byte arrives only between bytes; a take needs the
      semaphore; a get follows a take. */
  predicate Enabled(s: State, e: Event) {
    match e
    case Arrive(_) => s.pc == Idle
    case Continue => s.pc != Idle
    case Take => s.rxSem > 0
    case Get => s.taken > 0
    case UrcTake => s.urcSem > 0 && !s.urcTaken
    case UrcGet => s.urcTaken
  }

  function Step(r: Rings, s: State, e: Event): State {
    match e
    case Arrive(b) => ArriveStep(r, s, b)
    case Continue => ContinueStep(r, s)
    case Take => s.(rxSem := if s.rxSem > 0 then s.rxSem - 1 else 0, taken := s.taken + 1)
    case Get => GetStep(s)
    case UrcTake => s.(urcSem := if s.urcSem > 0 then s.urcSem - 1 else 0, urcTaken := true)
    case UrcGet => UrcGetStep(s)
  }

  /** The states that a sequence of enabled steps leads to. */
  ghost predicate Reaches(r: Rings, s: State, run: seq<Event>, t: State)
    decreases |run|
  {
    if run == [] then s == t
    else
      var n := |run| - 1;
      exists u :: Reaches(r, s, run[..n], u) && Enabled(u, run[n]) && t == Step(r, u, run[n])
  }

  lemma ReachesMore(r: Rings, run: seq<Event>, s: State, e: Event)
    requires Reaches(r, Initial(), run, s) && Enabled(s, e)
    ensures Reaches(r, Initial(), run + [e], Step(r, s, e))
  {
    assert (run + [e])[..|run|] == run;
  }

  // ---------------------------------------------------------------------------
  // The reply ring: nothing is lost or invented between the ring and its semaphore
  // ---------------------------------------------------------------------------

  /** Bytes in the ring = semaphore count + takes not yet followed by a get + puts not yet
      followed by a give; no get has found the ring empty; what was delivered and what is
      queued is exactly what was accepted. */
  ghost predicate RxInv(r: Rings, s: State) {
    && |s.rx| == s.rxSem + s.taken + (if s.pc.GiveRx? then 1 else 0)
    && |s.rx| <= r.rxCap
    && s.emptyReads == 0
    && s.accepted == s.delivered + s.rx
  }

  lemma RxInvGet(r: Rings, s: State)
    requires RxInv(r, s) && s.taken > 0
    ensures RxInv(r, GetStep(s))
  {
    assert s.rx != [] && s.rx == [s.rx[0]] + s.rx[1..];
    assert s.delivered + s.rx == (s.delivered + [s.rx[0]]) + s.rx[1..];
  }

  lemma RxInvContinue(r: Rings, s: State)
    requires ValidRings(r) && RxInv(r, s) && s.pc != Idle
    ensures RxInv(r, ContinueStep(r, s))
  {
    assert s.pc.PutRx? ==> s.delivered + (s.rx + [s.pc.b]) == (s.delivered + s.rx) + [s.pc.b];
  }

  lemma RxInvStep(r: Rings, s: State, e: Event)
    requires ValidRings(r) && RxInv(r, s) && Enabled(s, e)
    ensures RxInv(r, Step(r, s, e))
  {
    match e
    case Continue => RxInvContinue(r, s);
    case Get => RxInvGet(r, s);
    case Arrive(_) =>
    case Take =>
    case UrcTake =>
    case UrcGet =>
  }

  /** Under every interleaving. */
  lemma {:induction false} RxConservation(r: Rings, run: seq<Event>, s: State)
    requires ValidRings(r) && Reaches(r, Initial(), run, s)
    ensures RxInv(r, s)
    decreases |run|
  {
    if run != [] {
      var n := |run| - 1;
      var u :| Reaches(r, Initial(), run[..n], u) && Enabled(u, run[n]) && s == Step(r, u, run[n]);
      RxConservation(r, run[..n], u);
      RxInvStep(r, u, run[n]);
    }
  }

  /** So a reader that got the semaphore always gets a byte, and it is the next one in the
      order of acceptance; the semaphore never saturates; what has been delivered is a
      prefix of what was accepted. */
  lemma ReadersGetTheBytes(r: Rings, run: seq<Event>, s: State)
    requires ValidRings(r) && Reaches(r, Initial(), run, s)
    ensures s.delivered <= s.accepted
    ensures s.taken > 0 ==> s.rx != [] && |s.delivered| < |s.accepted| && s.rx[0] == s.accepted[|s.delivered|]
    ensures s.pc.GiveRx? ==> s.rxSem < 255 && Step(r, s, Continue).rxSem == s.rxSem + 1
  {
    RxConservation(r, run, s);
  }

  // ---------------------------------------------------------------------------
  // The code, uninterrupted
  // ---------------------------------------------------------------------------

  function IntoUrcRing(r: Rings, s: State, b: Byte): State {
    var s := s.(urcSem := Min(s.urcSem + 1, URC_SIZE));
    if |s.urc| < r.urcCap then s.(urc := s.urc + [b], urcPut := s.urcPut + [b])
    else s.(urcDropped := s.urcDropped + 1)
  }

  function IntoRxRing(r: Rings, s: State, b: Byte): State {
    if |s.rx| < r.rxCap
    then s.(rx := s.rx + [b], accepted := s.accepted + [b], prev := b, rxSem := Min(s.rxSem + 1, RB_SIZE))
    else s.(lost := s.lost + [|s.arrived| - 1])
  }

  /** Its first half: the byte seen, and put into the URC ring if it belongs there. */
  function Noted(r: Rings, s: State, b: Byte): State {
    var t := s.(arrived := s.arrived + [b], inUrc := EntersUrc(s, b));
    if EntersUrc(s, b) then IntoUrcRing(r, t, b) else t
  }

  /** One whole call of comms_handle_char. */
  function Handled(r: Rings, s: State, b: Byte): State {
    var t := Noted(r, s, b);
    IntoRxRing(r, t.(inUrc := t.inUrc && b != CR), b)
  }

  /** A byte that finds the reply ring full is not remembered either.  So whether the '+' after
      a line feed is recognised as the start of an unsolicited line depends on the line feed
      having been accepted, unless an earlier line feed was the last byte that was. */
  lemma LineStartSeenIff(r: Rings, s: State)
    requires !s.inUrc
    ensures Handled(r, Handled(r, s, LF), PLUS).inUrc <==> |s.rx| < r.rxCap || s.prev == LF
  {
  }

  /** And a '+' behind the first byte of an ordinary line is mistaken for one exactly if that
      first byte was not accepted. */
  lemma LineMiddleMistakenIff(r: Rings, s: State, first: Byte)
    requires !s.inUrc && s.prev == LF && first != PLUS && first != LF
    ensures Handled(r, Handled(r, s, first), PLUS).inUrc <==> |s.rx| >= r.rxCap
  {
  }

  function Continued(r: Rings, s: State, n: nat): State {
    if n == 0 then s else ContinueStep(r, Continued(r, s, n - 1))
  }

  /** The last two steps, of which the second does nothing if the ring was full. */
  lemma RxSteps(r: Rings, s: State, b: Byte)
    requires s.pc == Idle
    ensures ContinueStep(r, ContinueStep(r, s.(pc := PutRx(b)))) == IntoRxRing(r, s.(inUrc := s.inUrc && b != CR), b)
  {
  }

  /** The steps before those. */
  lemma UrcSteps(r: Rings, s: State, b: Byte)
    requires s.pc == Idle
    ensures Noted(r, s, b).pc == Idle
    ensures (if EntersUrc(s, b) then ContinueStep(r, ArriveStep(r, s, b)) else ArriveStep(r, s, b)) ==
            Noted(r, s, b).(pc := PutRx(b))
  {
  }

  /** The number of kernel calls that a byte takes, when both rings have room. */
  function Calls(s: State, b: Byte): nat {
    if EntersUrc(s, b) then 3 else 2
  }

  /** It is what its steps come to when nothing interrupts them. */
  lemma HandledIsItsSteps(r: Rings, s: State, b: Byte)
    requires s.pc == Idle
    ensures Continued(r, ArriveStep(r, s, b), Calls(s, b)) == Handled(r, s, b)
  {
    UrcSteps(r, s, b);
    RxSteps(r, Noted(r, s, b), b);
    ContinuedThrice(r, ArriveStep(r, s, b));
  }

  lemma ContinuedThrice(r: Rings, s: State)
    ensures Continued(r, s, 2) == ContinueStep(r, ContinueStep(r, s))
    ensures Continued(r, s, 3) == ContinueStep(r, ContinueStep(r, ContinueStep(r, s)))
  {
    assert Continued(r, s, 1) == ContinueStep(r, s);
    assert Continued(r, s, 2) == ContinueStep(r, Continued(r, s, 1));
  }

  /** The statics of comms.c.  Each method is one of its functions run without
      interruption; state is where the corresponding steps lead. */
  class Modem {
    const rings: Rings
    var rx: seq<Byte>
    var rxSem: nat
    var urc: seq<Byte>
    var urcSem: nat
    var prev: Byte
    var inUrc: bool
    const buf: array<Byte>
    var index: nat
    var notices: seq<Notice>
    ghost var state: State

    ghost predicate Valid()
      reads this, buf
    {
      && state.pc == Idle
      && rx == state.rx && rxSem == state.rxSem && urc == state.urc && urcSem == state.urcSem
      && prev == state.prev && inUrc == state.inUrc
      && buf.Length == URC_SIZE
      && Thread(buf[..], index, notices, false) == state.thread
    }

    constructor (rings: Rings)
      ensures Valid() && state == Initial() && this.rings == rings && fresh(buf)
    {
      this.rings := rings;
      rx, rxSem, urc, urcSem, prev, inUrc, index, notices := [], 0, [], 0, LF, false, 0, [];
      state := Initial();
      buf := new Byte[URC_SIZE](_ => 0);
      new;
      assert buf[..] == seq(URC_SIZE, i => 0);
    }

    /** comms_handle_char */
    method HandleChar(data: Byte)
      requires Valid()
      modifies this
      ensures Valid() && state == Handled(rings, old(state), data)
    {
      state := Handled(rings, state, data);
      if prev == LF && data == PLUS {
        inUrc := true;
      }
      if inUrc {
        if |urc| < rings.urcCap {
          urc := urc + [data];
        }
        urcSem := Min(urcSem + 1, URC_SIZE);
      }
      if inUrc && data == CR {
        inUrc := false;
      }
      if |rx| >= rings.rxCap {
        return;
      }
      rx := rx + [data];
      prev := data;
      rxSem := Min(rxSem + 1, RB_SIZE);
    }

    /** modem_read: fails at once where the source would wait for its timeout. */
    method ModemRead() returns (ok: bool, b: Byte)
      requires Valid()
      modifies this
      ensures Valid()
      ensures old(rxSem) == 0 ==> !ok && state == old(state)
      ensures old(rxSem) > 0 ==> state == GetStep(Step(rings, old(state), Take)) && ok == (old(rx) != [])
      ensures ok ==> old(rx) != [] && b == old(rx)[0]
    {
      ok, b := false, 0;
      if rxSem > 0 {
        state := GetStep(Step(rings, state, Take));
        rxSem := rxSem - 1;
        if rx != [] {
          ok, b := true, rx[0];
          rx := rx[1..];
        }
      }
    }

    /** One turn of urc_threadproc, once its semaphore lets it through, as long as the line
        fits the buffer. */
    method UrcTurn()
      requires Valid() && urcSem > 0 && index < URC_SIZE
      modifies this, buf
      ensures Valid() && state == UrcGetStep(Step(rings, old(state), UrcTake))
    {
      state := UrcGetStep(Step(rings, state, UrcTake));
      urcSem := urcSem - 1;
      if urc != [] {
        var b := urc[0];
        urc := urc[1..];
        if b == CR {
          EndOfUrc();
        }
        if b != CR && b != LF {
          buf[index] := b;
          index := index + 1;
        }
      }
    }

    /** The CR branch of urc_threadproc. */
    method EndOfUrc()
      requires index < buf.Length
      modifies this`notices, this`index, buf
      ensures Thread(buf[..], index, notices, false) ==
              UrcByte(Thread(old(buf[..]), old(index), old(notices), false), CR)
    {
      ghost var line := buf[..];
      buf[index] := 0;
      assert index >= |NSONMI| ==> line[..index][..|NSONMI|] == buf[..|NSONMI|];
      if index > 0 && index >= |NSONMI| && buf[..|NSONMI|] == NSONMI {
        var countptr := -1;
        for i := 0 to index
          invariant index == old(index) && notices == old(notices)
          invariant -1 <= countptr < i && countptr == LastComma(line, i)
          invariant forall k :: 0 <= k < buf.Length ==>
                      buf[k] == if k == index || (k < i && line[k] == COMMA) then 0 else line[k]
        {
          assert buf[i] == line[i];
          if buf[i] == COMMA {
            countptr := i;
            buf[i] := 0;
          }
        }
        assert buf[..] == Cut(line, index);
        var fd := Atoi(CString(buf[..], |NSONMI| + 1));
        if countptr < 0 {
          notices := notices + [NoCount(fd)];
        } else {
          notices := notices + [Notice(fd, Atoi(CString(buf[..], countptr + 1)))];
        }
      } else {
        assert notices + [] == notices;
      }
      index := 0;
    }
  }
}
