/** How a notification is lost: a reader that falls behind, a line feed that finds the reply ring
    full, and the unsolicited line after it.  The URC ring has room all along. */
module LostNotices {
  import opened Bytes
  import opened Text
  import opened AtCommands
  import opened Comms
  import opened UrcSelection
  import opened UrcNotices

  const LETTER: Byte := 97

  function Letters(n: nat): (text: seq<Byte>)
    ensures |text| == n && forall k :: 0 <= k < n ==> text[k] == LETTER
  {
    seq(n, k => LETTER)
  }

  // ---------------------------------------------------------------------------
  // Filling the reply ring
  // ---------------------------------------------------------------------------

  /** After some letters that nobody has read. */
  function Filled(n: nat): State {
    Initial().(arrived := Letters(n), accepted := Letters(n), rx := Letters(n), rxSem := n,
               prev := if n == 0 then LF else LETTER)
  }

  lemma FillOne(r: Rings, n: nat)
    requires ValidRings(r) && n < r.rxCap
    ensures var a := ArriveStep(r, Filled(n), LETTER);
            && a.pc == PutRx(LETTER) && ContinueStep(r, a).pc == GiveRx(LETTER)
            && ContinueStep(r, ContinueStep(r, a)) == Filled(n + 1)
  {
    assert Letters(n) + [LETTER] == Letters(n + 1);
  }

  lemma FillOneMore(r: Rings, run: seq<Event>, n: nat)
    requires ValidRings(r) && n < r.rxCap && Reaches(r, Initial(), run, Filled(n))
    ensures Reaches(r, Initial(), run + [Arrive(LETTER)] + [Continue] + [Continue], Filled(n + 1))
  {
    var a := ArriveStep(r, Filled(n), LETTER);
    FillOne(r, n);
    ReachesMore(r, run, Filled(n), Arrive(LETTER));
    ReachesMore(r, run + [Arrive(LETTER)], a, Continue);
    ReachesMore(r, run + [Arrive(LETTER)] + [Continue], ContinueStep(r, a), Continue);
  }

  lemma {:induction false} Fill(r: Rings, n: nat) returns (run: seq<Event>)
    requires ValidRings(r) && n <= r.rxCap
    ensures Reaches(r, Initial(), run, Filled(n))
  {
    run := [];
    if n == 0 {
      assert Letters(0) == [];
    } else {
      run := Fill(r, n - 1);
      FillOneMore(r, run, n - 1);
      run := run + [Arrive(LETTER)] + [Continue] + [Continue];
    }
  }

  /** Whatever the rings, a run leads to a full reply ring, with room in the URC ring, from
      which a line feed and a '+' do not open an unsolicited line. */
  lemma FullRingIsReachable(r: Rings) returns (run: seq<Event>, s: State)
    requires ValidRings(r)
    ensures Reaches(r, Initial(), run, s) && s.pc == Idle && !s.inUrc && s.urc == [] && s.urcDropped == 0
    ensures !Handled(r, Handled(r, s, LF), PLUS).inUrc
  {
    run := Fill(r, r.rxCap);
    s := Filled(r.rxCap);
    LineStartSeenIff(r, s);
  }

  // ---------------------------------------------------------------------------
  // What arrives then
  // ---------------------------------------------------------------------------

  /** No room, and the last byte remembered is no line feed. */
  predicate Deaf(r: Rings, s: State) {
    s.pc == Idle && !s.inUrc && |s.rx| >= r.rxCap && s.prev != LF
  }

  function Positions(from: nat, n: nat): (ks: seq<int>)
    ensures |ks| == n && forall i :: 0 <= i < n ==> ks[i] == from + i
  {
    seq(n, i => from + i)
  }

  function Dropped(s: State, bytes: seq<Byte>): State {
    s.(arrived := s.arrived + bytes, lost := s.lost + Positions(|s.arrived|, |bytes|))
  }

  lemma DropOne(r: Rings, s: State, b: Byte)
    requires Deaf(r, s)
    ensures ArriveStep(r, s, b).pc == PutRx(b)
    ensures ContinueStep(r, ArriveStep(r, s, b)) == Dropped(s, [b])
  {
    assert Positions(|s.arrived|, 1) == [|s.arrived|];
  }

  lemma DroppedTwice(s: State, bytes: seq<Byte>, b: Byte)
    ensures Dropped(Dropped(s, bytes), [b]) == Dropped(s, bytes + [b])
  {
    var from, n := |s.arrived|, |bytes|;
    assert (s.arrived + bytes) + [b] == s.arrived + (bytes + [b]);
    assert Positions(from, n) + Positions(from + n, 1) == Positions(from, n + 1);
    assert (s.lost + Positions(from, n)) + Positions(from + n, 1) ==
           s.lost + (Positions(from, n) + Positions(from + n, 1));
  }

  /** Whatever arrives is dropped, and leaves no other trace. */
  lemma {:induction false} DropAll(r: Rings, run: seq<Event>, s: State, bytes: seq<Byte>) returns (more: seq<Event>)
    requires Reaches(r, Initial(), run, s) && Deaf(r, s)
    ensures Reaches(r, Initial(), more, Dropped(s, bytes))
  {
    if bytes == [] {
      assert Dropped(s, bytes) == s;
      more := run;
    } else {
      var front, b := bytes[..|bytes| - 1], bytes[|bytes| - 1];
      more := DropAll(r, run, s, front);
      var u := Dropped(s, front);
      DropOne(r, u, b);
      ReachesMore(r, more, u, Arrive(b));
      ReachesMore(r, more + [Arrive(b)], ArriveStep(r, u, b), Continue);
      more := more + [Arrive(b)] + [Continue];
      DroppedTwice(s, front, b);
      assert front + [b] == bytes;
    }
  }

  // ---------------------------------------------------------------------------
  // A lost notification
  // ---------------------------------------------------------------------------

  lemma PairStream(first: ModemLine, second: ModemLine)
    ensures Stream([first, second]) == Body(first) + ([CR, LF] + Body(second) + [CR, LF])
    ensures Expected([first, second]) == Meaning(first) + Meaning(second)
  {
    LinesSnoc([], first);
    LinesSnoc([first], second);
    assert [] + [first] == [first] && [first] + [second] == [first, second];
    assert [] + Meaning(first) == Meaning(first);
    RegroupLines(Body(first), [CR, LF], Body(second));
  }

  lemma RegroupLines(x: seq<Byte>, e: seq<Byte>, y: seq<Byte>)
    ensures (([] + x + e) + y) + e == x + (e + y + e)
  {
  }

  /** A line of letters just long enough to fill the ring. */
  function Filler(n: nat): ModemLine {
    Other(Letters(n))
  }

  lemma NotificationIsWellFormed(fd: nat, count: nat)
    requires |Body(Notification(fd, count))| < URC_SIZE
    ensures WellFormed(Notification(fd, count))
  {
    DecIsDigits(fd);
    DecIsDigits(count);
  }

  lemma FillerIsWellFormed(n: nat)
    ensures WellFormed(Filler(n)) && Meaning(Filler(n)) == []
  {
    assert NSONMI[0] == PLUS;
    assert n > 0 ==> Letters(n)[0] == LETTER;
  }

  /** For every notification, and whatever the rings: a run in which it arrives as a complete
      line, the URC ring drops nothing and is empty in the end, and yet no call is made.  Its
      '+' has met a memory that is wrong. */
  lemma NotificationIsLost(r: Rings, fd: nat, count: nat) returns (run: seq<Event>, s: State)
    requires ValidRings(r) && |Body(Notification(fd, count))| < URC_SIZE
    ensures Reaches(r, Initial(), run, s) && s.pc == Idle && !s.inUrc
    ensures s.urcDropped == 0 && s.urc == [] && s.urcSem == 0 && !s.urcTaken
    ensures AllWellFormed([Filler(r.rxCap), Notification(fd, count)])
    ensures s.arrived == Stream([Filler(r.rxCap), Notification(fd, count)])
    ensures Expected([Filler(r.rxCap), Notification(fd, count)]) == [Notice(fd, count)] && s.thread.notices == []
    ensures !Undisturbed(s.arrived, s.lost)
  {
    var rest := [CR, LF] + Body(Notification(fd, count)) + [CR, LF];
    run := Fill(r, r.rxCap);
    run := DropAll(r, run, Filled(r.rxCap), rest);
    s := Dropped(Filled(r.rxCap), rest);
    LostLines(r.rxCap, fd, count);
    NothingSelected(r, run, s, Filler(r.rxCap), Notification(fd, count));
  }

  /** If a notification has arrived and nothing was put into the URC ring, the memory was
      wrong. */
  lemma NothingSelected(r: Rings, run: seq<Event>, s: State, first: ModemLine, line: ModemLine)
    requires ValidRings(r) && Reaches(r, Initial(), run, s) && s.urcDropped == 0 && s.urcPut == []
    requires AllWellFormed([first, line]) && line.Notification? && s.arrived == Stream([first, line])
    ensures !Undisturbed(s.arrived, s.lost)
  {
    UrcConservation(r, run, s);
    SelectedStream([first, line]);
    NotificationsStartWithPlus(line);
    if Undisturbed(s.arrived, s.lost) {
      SameSelection(s.arrived, s.lost);
    }
  }

  lemma LostLines(n: nat, fd: nat, count: nat)
    requires |Body(Notification(fd, count))| < URC_SIZE
    ensures AllWellFormed([Filler(n), Notification(fd, count)])
    ensures Expected([Filler(n), Notification(fd, count)]) == [Notice(fd, count)]
    ensures Stream([Filler(n), Notification(fd, count)]) ==
            Letters(n) + ([CR, LF] + Body(Notification(fd, count)) + [CR, LF])
  {
    var first, second := Filler(n), Notification(fd, count);
    PairStream(first, second);
    FillerIsWellFormed(n);
    NotificationIsWellFormed(fd, count);
    assert [] + Meaning(second) == Meaning(second);
  }
}
