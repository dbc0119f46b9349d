/** The selection of unsolicited bytes: what the UART callback puts into the URC ring, for every
    interleaving and whatever the reply ring drops, and when that is what it should be. */
module UrcSelection {
  import opened Bytes
  import opened Text
  import opened AtCommands
  import opened Comms

  // ---------------------------------------------------------------------------
  // What is selected from a stream of which some positions were lost
  // ---------------------------------------------------------------------------

  /** The last byte that was not lost; a line feed before the first. */
  function Memory(stream: seq<Byte>, lost: seq<int>): Byte {
    if stream == [] then LF
    else
      var n := |stream| - 1;
      if n in lost then Memory(stream[..n], lost) else stream[n]
  }

  /** Whether a byte arriving after the given stream is taken for part of an unsolicited
      line. */
  predicate Enters(before: seq<Byte>, lost: seq<int>, b: Byte)
    decreases |before|, 1
  {
    Inside(before, lost) || (Memory(before, lost) == LF && b == PLUS)
  }

  /** Whether an unsolicited line is open after the given stream. */
  predicate Inside(stream: seq<Byte>, lost: seq<int>)
    decreases |stream|, 0
  {
    stream != [] && (var n := |stream| - 1; Enters(stream[..n], lost, stream[n]) && stream[n] != CR)
  }

  /** What is put into the URC ring; with nothing lost, what should be. */
  function Selected(stream: seq<Byte>, lost: seq<int>): (urc: seq<Byte>) {
    if stream == [] then []
    else
      var n := |stream| - 1;
      Selected(stream[..n], lost) + (if Enters(stream[..n], lost, stream[n]) then [stream[n]] else [])
  }

  const NOTHING: seq<int> := []

  lemma StreamSnoc(s: seq<Byte>, lost: seq<int>, b: Byte)
    ensures Memory(s + [b], lost) == if |s| in lost then Memory(s, lost) else b
    ensures Inside(s + [b], lost) <==> Enters(s, lost, b) && b != CR
    ensures Selected(s + [b], lost) == Selected(s, lost) + (if Enters(s, lost, b) then [b] else [])
  {
    assert (s + [b])[..|s|] == s;
  }

  /** Positions behind a stream do not concern it. */
  lemma {:induction false} LostBeyond(s: seq<Byte>, lost: seq<int>, k: int)
    requires k >= |s|
    ensures Memory(s, lost + [k]) == Memory(s, lost)
    ensures Inside(s, lost + [k]) == Inside(s, lost)
    ensures Selected(s, lost + [k]) == Selected(s, lost)
  {
    if s != [] {
      LostBeyond(s[..|s| - 1], lost, k);
    }
  }

  // ---------------------------------------------------------------------------
  // Position by position, as it should be
  // ---------------------------------------------------------------------------

  /** Whether losing those positions leaves the choice about position n alone. */
  predicate SameChoice(stream: seq<Byte>, lost: seq<int>, n: nat)
    requires n < |stream|
  {
    Enters(stream[..n], lost, stream[n]) == Enters(stream[..n], NOTHING, stream[n])
  }

  /** A '+' outside an open line meets a memory that is right about the line feed before it. */
  predicate Clear(stream: seq<Byte>, lost: seq<int>, n: nat)
    requires n < |stream|
  {
    stream[n] == PLUS && !Inside(stream[..n], NOTHING) ==>
      (Memory(stream[..n], lost) == LF <==> Memory(stream[..n], NOTHING) == LF)
  }

  predicate Undisturbed(stream: seq<Byte>, lost: seq<int>) {
    forall n :: 0 <= n < |stream| ==> Clear(stream, lost, n)
  }

  lemma ChoiceIffClear(stream: seq<Byte>, lost: seq<int>, n: nat)
    requires n < |stream| && (n > 0 ==> SameChoice(stream, lost, n - 1))
    ensures SameChoice(stream, lost, n) <==> Clear(stream, lost, n)
  {
    if n > 0 {
      assert stream[..n][..n - 1] == stream[..n - 1];
    }
    assert Inside(stream[..n], lost) == Inside(stream[..n], NOTHING);
  }

  lemma {:induction false} ClearUpTo(stream: seq<Byte>, lost: seq<int>, n: nat)
    requires Undisturbed(stream, lost) && n < |stream|
    ensures SameChoice(stream, lost, n)
    decreases n
  {
    if n > 0 {
      ClearUpTo(stream, lost, n - 1);
    }
    ChoiceIffClear(stream, lost, n);
  }

  /** The selection is right at every position exactly if no '+' outside an open line meets a
      memory that is wrong. */
  lemma SelectionIsRightIff(stream: seq<Byte>, lost: seq<int>)
    ensures (forall n :: 0 <= n < |stream| ==> SameChoice(stream, lost, n)) <==> Undisturbed(stream, lost)
  {
    if forall n :: 0 <= n < |stream| ==> SameChoice(stream, lost, n) {
      forall n | 0 <= n < |stream|
        ensures Clear(stream, lost, n)
      {
        ChoiceIffClear(stream, lost, n);
      }
    } else if Undisturbed(stream, lost) {
      forall n | 0 <= n < |stream|
        ensures SameChoice(stream, lost, n)
      {
        ClearUpTo(stream, lost, n);
      }
    }
  }

  lemma {:induction false} SelectedUpTo(stream: seq<Byte>, lost: seq<int>, n: nat)
    requires Undisturbed(stream, lost) && n <= |stream|
    ensures Selected(stream[..n], lost) == Selected(stream[..n], NOTHING)
    decreases n
  {
    if n > 0 {
      SelectedUpTo(stream, lost, n - 1);
      ClearUpTo(stream, lost, n - 1);
      assert stream[..n][..n - 1] == stream[..n - 1];
    }
  }

  lemma SameSelection(stream: seq<Byte>, lost: seq<int>)
    requires Undisturbed(stream, lost)
    ensures Selected(stream, lost) == Selected(stream, NOTHING)
  {
    SelectedUpTo(stream, lost, |stream|);
    assert stream[..|stream|] == stream;
  }

  // ---------------------------------------------------------------------------
  // Bytes that may always be dropped
  // ---------------------------------------------------------------------------

  /** A position that holds no line feed and is not the first of its line. */
  predicate Spare(stream: seq<Byte>, k: int) {
    0 < k < |stream| && stream[k] != LF && stream[k - 1] != LF
  }

  predicate AllSpare(stream: seq<Byte>, lost: seq<int>) {
    forall k :: k in lost ==> Spare(stream, k)
  }

  lemma {:induction false} SpareMemory(stream: seq<Byte>, lost: seq<int>, n: nat)
    requires AllSpare(stream, lost) && n <= |stream|
    ensures Memory(stream[..n], lost) == LF <==> Memory(stream[..n], NOTHING) == LF
    decreases n
  {
    if n > 0 {
      assert stream[..n][..n - 1] == stream[..n - 1];
      SpareMemory(stream, lost, n - 1);
      if n - 1 in lost {
        assert Spare(stream, n - 1);
        assert stream[..n - 1][n - 2] == stream[n - 2];
      }
    }
  }

  /** If the reply ring drops no other, the selection is right. */
  lemma SpareIsUndisturbed(stream: seq<Byte>, lost: seq<int>)
    requires AllSpare(stream, lost)
    ensures Undisturbed(stream, lost)
  {
    forall n | 0 <= n < |stream|
      ensures Clear(stream, lost, n)
    {
      SpareMemory(stream, lost, n);
    }
  }

  // ---------------------------------------------------------------------------
  // Every run
  // ---------------------------------------------------------------------------

  /** The URC thread after reading the given bytes. */
  function ThreadFrom(t: Thread, got: seq<Byte>): Thread {
    if got == [] then t else UrcByte(ThreadFrom(t, got[..|got| - 1]), got[|got| - 1])
  }

  lemma ThreadSnoc(t: Thread, got: seq<Byte>, b: Byte)
    ensures ThreadFrom(t, got + [b]) == UrcByte(ThreadFrom(t, got), b)
  {
    assert (got + [b])[..|got|] == got;
  }

  /** The callback has seen the last byte, but not yet put it into the reply ring. */
  predicate IsUnsettled(s: State) {
    s.pc.GiveUrc? || s.pc.PutRx?
  }

  /** The bytes of which the reply ring has decided. */
  function Settled(s: State): (stream: seq<Byte>) {
    if IsUnsettled(s) && s.arrived != [] then s.arrived[..|s.arrived| - 1] else s.arrived
  }

  /** What was lost is among them, and without a loss all of them are accepted. */
  predicate LostInv(s: State) {
    && (forall k :: k in s.lost ==> 0 <= k < |Settled(s)|)
    && (IsUnsettled(s) ==> s.arrived == Settled(s) + [s.pc.b])
    && (s.pc.GiveRx? ==> s.arrived != [] && s.pc.b == Memory(s.arrived, s.lost))
    && (s.lost == [] ==> s.accepted == Settled(s))
  }

  /** The callback remembers the last byte that was not lost. */
  ghost predicate CallbackInv(s: State) {
    && (!s.pc.GiveRx? ==> s.prev == Memory(Settled(s), s.lost))
    && s.inUrc == if IsUnsettled(s) then Enters(Settled(s), s.lost, s.pc.b) else Inside(s.arrived, s.lost)
  }

  ghost predicate UrcRingInv(s: State) {
    && |s.urc| == s.urcSem + (if s.urcTaken then 1 else 0) + (if s.pc.GiveUrc? then 1 else 0)
    && s.urcPut == s.urcGot + s.urc
    && s.urcPut == Selected(s.arrived, s.lost)
    && |s.urc| <= URC_SIZE
  }

  ghost predicate UrcInv(s: State) {
    && s.thread == ThreadFrom(NewThread(), s.urcGot)
    && LostInv(s) && CallbackInv(s)
    && (s.urcDropped == 0 ==> UrcRingInv(s))
  }

  lemma ArriveCallback(r: Rings, s: State, b: Byte)
    requires LostInv(s) && CallbackInv(s) && s.pc == Idle
    ensures LostInv(ArriveStep(r, s, b)) && CallbackInv(ArriveStep(r, s, b))
    ensures EntersUrc(s, b) == Enters(s.arrived, s.lost, b)
  {
    var t := ArriveStep(r, s, b);
    assert t.arrived[..|t.arrived| - 1] == s.arrived;
  }

  lemma ArriveRing(r: Rings, s: State, b: Byte)
    requires ValidRings(r) && UrcRingInv(s) && s.pc == Idle && EntersUrc(s, b) == Enters(s.arrived, s.lost, b)
    ensures ArriveStep(r, s, b).urcDropped == 0 ==> UrcRingInv(ArriveStep(r, s, b))
  {
    StreamSnoc(s.arrived, s.lost, b);
    assert s.urcGot + (s.urc + [b]) == (s.urcGot + s.urc) + [b];
    assert Selected(s.arrived, s.lost) + [] == Selected(s.arrived, s.lost);
  }

  lemma ArriveKeeps(r: Rings, s: State, b: Byte)
    requires ValidRings(r) && UrcInv(s) && s.pc == Idle
    ensures UrcInv(ArriveStep(r, s, b))
  {
    ArriveCallback(r, s, b);
    if ArriveStep(r, s, b).urcDropped == 0 {
      ArriveRing(r, s, b);
    }
  }

  lemma GiveUrcKeeps(r: Rings, s: State)
    requires ValidRings(r) && UrcInv(s) && s.pc.GiveUrc?
    ensures UrcInv(ContinueStep(r, s))
  {
  }

  lemma PutRxAccepts(r: Rings, s: State)
    requires ValidRings(r) && UrcInv(s) && s.pc.PutRx? && |s.rx| < r.rxCap
    ensures UrcInv(ContinueStep(r, s))
  {
    StreamSnoc(Settled(s), s.lost, s.pc.b);
  }

  lemma PutRxLoses(r: Rings, s: State)
    requires LostInv(s) && CallbackInv(s) && s.pc.PutRx? && |s.rx| >= r.rxCap
    ensures LostInv(ContinueStep(r, s)) && CallbackInv(ContinueStep(r, s))
    ensures ContinueStep(r, s).lost == s.lost + [|s.arrived| - 1]
    ensures Selected(s.arrived, s.lost + [|s.arrived| - 1]) == Selected(s.arrived, s.lost)
  {
    var k := |s.arrived| - 1;
    StreamSnoc(Settled(s), s.lost, s.pc.b);
    StreamSnoc(Settled(s), s.lost + [k], s.pc.b);
    LostBeyond(Settled(s), s.lost, k);
    assert k in s.lost + [k];
  }

  lemma PutRxDrops(r: Rings, s: State)
    requires ValidRings(r) && UrcInv(s) && s.pc.PutRx? && |s.rx| >= r.rxCap
    ensures UrcInv(ContinueStep(r, s))
  {
    PutRxLoses(r, s);
  }

  lemma GiveRxKeeps(r: Rings, s: State)
    requires ValidRings(r) && UrcInv(s) && s.pc.GiveRx?
    ensures UrcInv(ContinueStep(r, s))
  {
  }

  /** Taking from the rings does not concern the callback. */
  predicate SameCallback(s: State, t: State) {
    && t.pc == s.pc && t.prev == s.prev && t.inUrc == s.inUrc
    && t.arrived == s.arrived && t.accepted == s.accepted && t.lost == s.lost
  }

  lemma CallbackStays(s: State, t: State)
    requires LostInv(s) && CallbackInv(s) && SameCallback(s, t)
    ensures LostInv(t) && CallbackInv(t)
  {
  }

  lemma UrcGetRing(s: State)
    requires UrcRingInv(s) && s.urcTaken
    ensures UrcRingInv(UrcGetStep(s))
  {
    if s.urc != [] {
      assert s.urcGot + s.urc == (s.urcGot + [s.urc[0]]) + s.urc[1..];
    }
  }

  lemma UrcGetThread(s: State)
    requires s.thread == ThreadFrom(NewThread(), s.urcGot)
    ensures UrcGetStep(s).thread == ThreadFrom(NewThread(), UrcGetStep(s).urcGot)
  {
    if s.urc != [] {
      ThreadSnoc(NewThread(), s.urcGot, s.urc[0]);
    }
  }

  lemma UrcGetKeeps(s: State)
    requires UrcInv(s) && s.urcTaken
    ensures UrcInv(UrcGetStep(s))
  {
    CallbackStays(s, UrcGetStep(s));
    UrcGetThread(s);
    if s.urcDropped == 0 {
      UrcGetRing(s);
    }
  }

  lemma UrcTakeKeeps(r: Rings, s: State)
    requires UrcInv(s) && Enabled(s, UrcTake)
    ensures UrcInv(Step(r, s, UrcTake))
  {
    CallbackStays(s, Step(r, s, UrcTake));
  }

  /** Readers of the reply ring do not concern the URC side either. */
  predicate SameUrcSide(s: State, t: State) {
    t == s.(rx := t.rx, rxSem := t.rxSem, taken := t.taken, delivered := t.delivered, emptyReads := t.emptyReads)
  }

  lemma ReadersKeep(s: State, t: State)
    requires UrcInv(s) && SameUrcSide(s, t)
    ensures UrcInv(t)
  {
    CallbackStays(s, t);
  }

  lemma ContinueKeeps(r: Rings, s: State)
    requires ValidRings(r) && UrcInv(s) && s.pc != Idle
    ensures UrcInv(ContinueStep(r, s))
  {
    if s.pc.GiveUrc? {
      GiveUrcKeeps(r, s);
    } else if s.pc.GiveRx? {
      GiveRxKeeps(r, s);
    } else if |s.rx| < r.rxCap {
      PutRxAccepts(r, s);
    } else {
      PutRxDrops(r, s);
    }
  }

  lemma UrcInvStep(r: Rings, s: State, e: Event)
    requires ValidRings(r) && UrcInv(s) && Enabled(s, e)
    ensures UrcInv(Step(r, s, e))
  {
    match e
    case Arrive(b) => ArriveKeeps(r, s, b);
    case Continue => ContinueKeeps(r, s);
    case UrcGet => UrcGetKeeps(s);
    case Take => ReadersKeep(s, Step(r, s, e));
    case Get => ReadersKeep(s, Step(r, s, e));
    case UrcTake => UrcTakeKeeps(r, s);
  }

  /** In every run, whatever the reply ring drops: the callback remembers the last byte that was
      not lost; and as long as the URC ring drops nothing, what the URC thread has read and what
      is queued for it is exactly what that memory selects. */
  lemma {:induction false} UrcConservation(r: Rings, run: seq<Event>, s: State)
    requires ValidRings(r) && Reaches(r, Initial(), run, s)
    ensures UrcInv(s)
    decreases |run|
  {
    if run == [] {
      assert UrcRingInv(s);
    } else {
      var n := |run| - 1;
      var u :| Reaches(r, Initial(), run[..n], u) && Enabled(u, run[n]) && s == Step(r, u, run[n]);
      UrcConservation(r, run[..n], u);
      UrcInvStep(r, u, run[n]);
    }
  }

  // ---------------------------------------------------------------------------
  // The semaphore of the URC ring
  // ---------------------------------------------------------------------------

  /** Every byte in the ring has its wake-up: in the semaphore, taken, or about to be given. */
  predicate WokenInv(s: State) {
    && |s.urc| <= 64
    && |s.urc| <= s.urcSem + (if s.urcTaken then 1 else 0) + (if s.pc.GiveUrc? then 1 else 0)
  }

  lemma WokenStep(r: Rings, s: State, e: Event)
    requires ValidRings(r) && WokenInv(s) && Enabled(s, e)
    ensures WokenInv(Step(r, s, e))
  {
  }

  /** In every run, whatever either ring drops: so when the URC thread waits and the callback is
      between bytes, no byte is left behind in the ring. */
  lemma {:induction false} NoByteIsStranded(r: Rings, run: seq<Event>, s: State)
    requires ValidRings(r) && Reaches(r, Initial(), run, s)
    ensures WokenInv(s)
    ensures s.urcSem == 0 && !s.urcTaken && s.pc == Idle ==> s.urc == []
    decreases |run|
  {
    if run != [] {
      var n := |run| - 1;
      var u :| Reaches(r, Initial(), run[..n], u) && Enabled(u, run[n]) && s == Step(r, u, run[n]);
      NoByteIsStranded(r, run[..n], u);
      WokenStep(r, u, run[n]);
    }
  }
}
