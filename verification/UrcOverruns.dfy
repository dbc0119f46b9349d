/** Unsolicited lines too long for the URC thread: exactly when it writes past its buffer, and a
    run in which it does although nothing is ever dropped. */
module UrcOverruns {
  import opened Bytes
  import opened Text
  import opened AtCommands
  import opened Comms
  import opened UrcSelection

  /** The bytes in the thread's buffer since the last carriage return. */
  function OpenLength(got: seq<Byte>): nat {
    if got == [] then 0
    else
      var n := |got| - 1;
      if got[n] == 13 then 0 else OpenLength(got[..n]) + (if got[n] == 10 then 0 else 1)
  }

  /** A byte that the thread writes when its buffer is full already. */
  ghost predicate WrittenPast(got: seq<Byte>, k: nat) {
    k < |got| && got[k] != 10 && OpenLength(got[..k]) >= 64
  }

  lemma WrittenPastSnoc(got: seq<Byte>, b: Byte)
    ensures (exists k: nat :: WrittenPast(got + [b], k)) <==>
            (exists k: nat :: WrittenPast(got, k)) || (b != LF && OpenLength(got) >= URC_SIZE)
  {
    assert forall k: nat :: k <= |got| ==> (got + [b])[..k] == got[..k];
    assert got[..|got|] == got;
    if k: nat :| WrittenPast(got, k) {
      assert WrittenPast(got + [b], k);
    }
    if b != LF && OpenLength(got) >= URC_SIZE {
      assert WrittenPast(got + [b], |got|);
    }
    if k: nat :| WrittenPast(got + [b], k) && k < |got| {
      assert WrittenPast(got, k);
    }
  }

  /** The URC thread writes past its buffer exactly if 64 bytes of a line, or more, are followed
      by a byte that is no line feed. */
  lemma {:induction false} OverrunIff(got: seq<Byte>)
    ensures var t := ThreadFrom(NewThread(), got);
            && (t.overrun <==> exists k: nat :: WrittenPast(got, k))
            && |t.buf| == URC_SIZE
            && (!t.overrun ==> t.index == OpenLength(got))
  {
    if got != [] {
      var front, b := got[..|got| - 1], got[|got| - 1];
      assert front + [b] == got;
      OverrunIff(front);
      WrittenPastSnoc(front, b);
    }
  }

  // ---------------------------------------------------------------------------
  // A run that comes to it
  // ---------------------------------------------------------------------------

  const LETTER: Byte := 97

  /** A '+' and letters. */
  function LongLine(n: nat): (text: seq<Byte>)
    ensures |text| == n
  {
    seq(n, k => if k == 0 then PLUS else LETTER)
  }

  function NextByte(n: nat): Byte {
    if n == 0 then PLUS else LETTER
  }

  lemma LongLineSnoc(n: nat)
    ensures LongLine(n + 1) == LongLine(n) + [NextByte(n)]
  {
  }

  lemma {:induction false} LongLineIsOpen(n: nat)
    ensures OpenLength(LongLine(n)) == n
  {
    if n > 0 {
      LongLineIsOpen(n - 1);
      LongLineSnoc(n - 1);
      assert LongLine(n)[..n - 1] == LongLine(n - 1);
    }
  }

  /** Every byte so far has been taken from both rings. */
  function Taken(n: nat): State {
    var text := LongLine(n);
    Initial().(arrived := text, accepted := text, delivered := text, urcPut := text, urcGot := text,
               prev := if n == 0 then LF else NextByte(n - 1), inUrc := n > 0,
               thread := ThreadFrom(NewThread(), text))
  }

  /** The byte is in both rings. */
  function Offered(n: nat): State {
    var b, text := NextByte(n), LongLine(n + 1);
    Taken(n).(arrived := text, accepted := text, urcPut := text, prev := b, inUrc := true,
              rx := [b], rxSem := 1, urc := [b], urcSem := 1)
  }

  /** The callback handles it. */
  lemma OfferOne(r: Rings, n: nat, run: seq<Event>) returns (more: seq<Event>)
    requires ValidRings(r) && Reaches(r, Initial(), run, Taken(n))
    ensures Reaches(r, Initial(), more, Offered(n))
  {
    var b, s := NextByte(n), Taken(n);
    LongLineSnoc(n);
    var a := ArriveStep(r, s, b);
    ReachesMore(r, run, s, Arrive(b));
    OfferSteps(r, n);
    ReachesMore(r, run + [Arrive(b)], a, Continue);
    ReachesMore(r, run + [Arrive(b)] + [Continue], ContinueStep(r, a), Continue);
    ReachesMore(r, run + [Arrive(b)] + [Continue] + [Continue], ContinueStep(r, ContinueStep(r, a)), Continue);
    more := run + [Arrive(b)] + [Continue] + [Continue] + [Continue];
  }

  lemma OfferSteps(r: Rings, n: nat)
    requires ValidRings(r)
    ensures var b := NextByte(n);
            var a := ArriveStep(r, Taken(n), b);
            && a.pc == GiveUrc(b) && ContinueStep(r, a).pc == PutRx(b)
            && ContinueStep(r, ContinueStep(r, a)).pc == GiveRx(b)
            && ContinueStep(r, ContinueStep(r, ContinueStep(r, a))) == Offered(n)
  {
    LongLineSnoc(n);
    assert [] + [NextByte(n)] == [NextByte(n)];
  }

  /** The URC thread and a reader take it. */
  lemma TakeOne(r: Rings, n: nat, run: seq<Event>) returns (more: seq<Event>)
    requires ValidRings(r) && Reaches(r, Initial(), run, Offered(n))
    ensures Reaches(r, Initial(), more, Taken(n + 1))
  {
    var s := Offered(n);
    var t := Step(r, s, UrcTake);
    var u := Step(r, t, UrcGet);
    var v := Step(r, u, Take);
    TakeSteps(r, n);
    ReachesMore(r, run, s, UrcTake);
    ReachesMore(r, run + [UrcTake], t, UrcGet);
    ReachesMore(r, run + [UrcTake] + [UrcGet], u, Take);
    ReachesMore(r, run + [UrcTake] + [UrcGet] + [Take], v, Get);
    more := run + [UrcTake] + [UrcGet] + [Take] + [Get];
  }

  lemma TakeSteps(r: Rings, n: nat)
    requires ValidRings(r)
    ensures var t := Step(r, Offered(n), UrcTake);
            var u := Step(r, t, UrcGet);
            var v := Step(r, u, Take);
            && Enabled(Offered(n), UrcTake) && Enabled(t, UrcGet) && Enabled(u, Take) && Enabled(v, Get)
            && Step(r, v, Get) == Taken(n + 1)
  {
    LongLineSnoc(n);
    ThreadSnoc(NewThread(), LongLine(n), NextByte(n));
    assert [NextByte(n)][1..] == [];
  }

  lemma NothingTaken()
    ensures Taken(0) == Initial()
  {
    assert LongLine(0) == [];
  }

  lemma {:induction false} TakeAll(r: Rings, n: nat) returns (run: seq<Event>)
    requires ValidRings(r)
    ensures Reaches(r, Initial(), run, Taken(n))
  {
    run := [];
    if n == 0 {
      NothingTaken();
    } else {
      run := TakeAll(r, n - 1);
      run := OfferOne(r, n - 1, run);
      run := TakeOne(r, n - 1, run);
    }
  }

  /** Whatever the rings, there is a run in which neither drops anything, every byte is taken
      before the next arrives, and the URC thread writes past its buffer. */
  lemma OverrunIsReachable(r: Rings) returns (run: seq<Event>, s: State)
    requires ValidRings(r)
    ensures Reaches(r, Initial(), run, s) && s.urcDropped == 0 && s.lost == [] && s.thread.overrun
  {
    var n := URC_SIZE + 1;
    run := TakeAll(r, n);
    s := Taken(n);
    LongLineIsOpen(URC_SIZE);
    LongLineSnoc(URC_SIZE);
    assert LongLine(n)[..URC_SIZE] == LongLine(URC_SIZE);
    assert WrittenPast(LongLine(n), URC_SIZE);
    OverrunIff(LongLine(n));
  }
}
