/** An earlier line does show through: two streams that hand over the same line, and of which the
    one that begins with an abandoned line makes the receiver pick another decoder. */
module GpsAbandoned {
  import opened Bytes
  import opened Text
  import opened Nmea
  import opened GpsLines
  import opened Gps
  import opened GpsReceiver

  /** The preamble alone is such a line. */
  lemma PreambleAlone()
    ensures Accepted([NMEA_PREAMBLE, LF]) && StopsAtPreamble([NMEA_PREAMBLE, LF])
    ensures Recordable([NMEA_PREAMBLE, LF])
  {
    var line := [NMEA_PREAMBLE, LF];
    assert line[..1] == [NMEA_PREAMBLE];
    var clean := Clean(line);
    assert clean[0] == (line + [0])[0] && clean[1] == (line + [0])[1];
    EndFrom(clean, 1, 1);
    assert clean[..1] == [NMEA_PREAMBLE] && clean[..0] == [];
    assert Opened(clean, 1) == [1];
  }

  /** What an abandoned line may have been: no line feed, and GGA just where the type of the
      given line would be. */
  function Junk(line: seq<Byte>): (junk: seq<Byte>)
    requires |line| + 3 < MAX_NMEA_BUFFER
    ensures |junk| == MAX_NMEA_BUFFER && LF !in junk
    ensures junk[|line| + 1] == 71 && junk[|line| + 2] == 71 && junk[|line| + 3] == 65
  {
    seq(MAX_NMEA_BUFFER, k => if k == |line| + 1 || k == |line| + 2 then 71 else if k == |line| + 3 then 65 else 0)
  }

  // ---------------------------------------------------------------------------
  // What bytes without a line feed leave behind
  // ---------------------------------------------------------------------------

  function Overlay(buf: seq<Byte>, pos: nat, bytes: seq<Byte>): (r: seq<Byte>)
    requires pos + |bytes| <= |buf|
    ensures |r| == |buf|
  {
    buf[..pos] + bytes + buf[pos + |bytes|..]
  }

  lemma OverlayOneMore(buf: seq<Byte>, pos: nat, bytes: seq<Byte>, data: Byte)
    requires pos + |bytes| < |buf|
    ensures Overlay(buf, pos, bytes)[pos + |bytes| := data] == Overlay(buf, pos, bytes + [data])
  {
  }

  lemma PlainByte(stream: seq<Byte>, data: Byte)
    requires data != LF
    ensures BufferAfter(stream + [data]) == BufferAfter(stream)[|Pending(stream)| := data]
    ensures KindsAfter(stream + [data]) == KindsAfter(stream)
    ensures Received(stream + [data]).0 == Received(stream).0
  {
    AfterSnoc(stream, data);
    ReceivedSnoc(stream, data);
    assert KindsAfter(stream) + [] == KindsAfter(stream);
  }

  /** They end up in the buffer one after the other, and nothing else happens. */
  lemma {:induction false} PlainBytes(stream: seq<Byte>, bytes: seq<Byte>)
    requires Pending(stream) == [] && LF !in bytes && |bytes| <= MAX_NMEA_BUFFER
    ensures BufferAfter(stream + bytes) == Overlay(BufferAfter(stream), 0, bytes)
    ensures Pending(stream + bytes) == if |bytes| < MAX_NMEA_BUFFER then bytes else []
    ensures KindsAfter(stream + bytes) == KindsAfter(stream) && Received(stream + bytes).0 == Received(stream).0
  {
    if bytes == [] {
      assert stream + bytes == stream;
    } else {
      var front, data := bytes[..|bytes| - 1], bytes[|bytes| - 1];
      assert front + [data] == bytes;
      PlainBytes(stream, front);
      PlainByte(stream + front, data);
      AfterSnoc(stream + front, data);
      OverlayOneMore(BufferAfter(stream), 0, front, data);
      Regroup(stream, front, data);
    }
  }

  /** A line behind such bytes: which buffer it is completed in. */
  lemma LineAfter(stream: seq<Byte>, line: seq<Byte>)
    requires Pending(stream) == [] && Accepted(line)
    ensures var done := Completed(Overlay(BufferAfter(stream), 0, line[..|line| - 1]), |line| - 1);
            && HoldsLine(done, line)
            && KindsAfter(stream + line) == KindsAfter(stream) + [KindOf(done, line)]
            && Received(stream + line).0 == Received(stream).0 + [line]
  {
    var text := line[..|line| - 1];
    assert text + [LF] == line && |text| + 1 < MAX_NMEA_BUFFER;
    PlainBytes(stream, text);
    AfterSnoc(stream + text, LF);
    ReceivedSnoc(stream + text, LF);
    Regroup(stream, text, LF);
    CompletedHolds(BufferAfter(stream), line);
  }

  lemma CompletedHolds(buf: seq<Byte>, line: seq<Byte>)
    requires |buf| == MAX_NMEA_BUFFER && IsLine(line)
    ensures HoldsLine(Completed(Overlay(buf, 0, line[..|line| - 1]), |line| - 1), line)
  {
    var done := Completed(Overlay(buf, 0, line[..|line| - 1]), |line| - 1);
    assert done[..|line| + 1] == line + [0];
  }

  // ---------------------------------------------------------------------------
  // Two streams
  // ---------------------------------------------------------------------------

  lemma KindAmongJunk(line: seq<Byte>)
    requires Accepted(line) && StopsAtPreamble(line)
    ensures var done := Completed(Overlay(Junk(line), 0, line[..|line| - 1]), |line| - 1);
            HoldsLine(done, line) && KindOf(done, line) == GGA
  {
    var done := Completed(Overlay(Junk(line), 0, line[..|line| - 1]), |line| - 1);
    CompletedHolds(Junk(line), line);
    assert done[|line| + 1] == 71 && done[|line| + 2] == 71 && done[|line| + 3] == 65;
    KindBeyondLine(done, line);
    KindIff(done, |line| + 1, GGA);
  }

  lemma ZerosBehindLine(line: seq<Byte>)
    requires IsLine(line)
    ensures Completed(Overlay(Zeros(), 0, line[..|line| - 1]), |line| - 1) == Clean(line)
  {
    var done := Completed(Overlay(Zeros(), 0, line[..|line| - 1]), |line| - 1);
    CompletedHolds(Zeros(), line);
    LineBytes(done, line);
    LineBytes(Clean(line), line);
  }

  lemma KindAmongZeros(line: seq<Byte>)
    requires Accepted(line) && StopsAtPreamble(line)
    ensures Completed(Overlay(Zeros(), 0, line[..|line| - 1]), |line| - 1) == Clean(line)
    ensures KindOf(Clean(line), line) == Unknown
  {
    ZerosBehindLine(line);
    KindFromStaleBytes(line);
  }

  lemma JunkLeaves(line: seq<Byte>)
    requires |line| + 3 < MAX_NMEA_BUFFER
    ensures Pending(Junk(line)) == [] && BufferAfter(Junk(line)) == Junk(line)
    ensures KindsAfter(Junk(line)) == [] && Received(Junk(line)).0 == []
  {
    PlainBytes([], Junk(line));
    assert [] + Junk(line) == Junk(line);
    assert Overlay(Zeros(), 0, Junk(line)) == Junk(line);
  }

  /** For every line that stops at its preamble: a receiver just started that is given the line
      alone picks no decoder; given an abandoned line first, it hands over the same line and
      picks the decoder for GGA. */
  lemma AbandonedLineShowsThrough(line: seq<Byte>)
    requires Accepted(line) && StopsAtPreamble(line)
    ensures SplitLines(line).0 == [line] && KindsAfter(line) == [Unknown]
    ensures SplitLines(Junk(line) + line).0 == [line] && KindsAfter(Junk(line) + line) == [GGA]
  {
    LineAfter([], line);
    KindAmongZeros(line);
    assert [] + line == line && [] + [line] == [line];
    JunkLeaves(line);
    LineAfter(Junk(line), line);
    KindAmongJunk(line);
    ReceivedIsSplitLines(line);
    ReceivedIsSplitLines(Junk(line) + line);
  }
}
