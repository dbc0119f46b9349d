/** How rxData (Firmware/src/gps.c) cuts a byte stream into lines: byte by byte into a buffer of
    254 bytes, proved against a splitter that sees the whole stream. */
module GpsLines {
  import opened Bytes
  import opened Text
  import opened Nmea

  /** The position of the first line feed at or after i, or the length of the stream. */
  function FirstLineFeed(stream: seq<Byte>, i: nat): (at: nat)
    requires i <= |stream|
    ensures i <= at <= |stream|
    ensures forall k :: i <= k < at ==> stream[k] != LF
    ensures at < |stream| ==> stream[at] == LF
    decreases |stream| - i
  {
    if i == |stream| || stream[i] == LF then i else FirstLineFeed(stream, i + 1)
  }

  /** Cut the stream after each line feed; whenever 254 bytes pass without completing a
      line within them, discard those 254.  Returns the lines and what is left over. */
  function SplitLines(stream: seq<Byte>): (r: (seq<seq<Byte>>, seq<Byte>))
    decreases |stream|
  {
    var at := FirstLineFeed(stream, 0);
    if at < |stream| && at + 1 < 254 then
      var rest := SplitLines(stream[at + 1..]);
      ([stream[..at + 1]] + rest.0, rest.1)
    else if |stream| >= 254 then
      SplitLines(stream[254..])
    else
      ([], stream)
  }

  /** One byte of rxData, on the bytes collected so far. */
  function Collect(pending: seq<Byte>, data: Byte): seq<Byte> {
    if |pending| + 1 >= MAX_NMEA_BUFFER || data == LF then [] else pending + [data]
  }

  predicate Completes(pending: seq<Byte>, data: Byte) {
    |pending| + 1 < MAX_NMEA_BUFFER && data == LF
  }

  /** The lines handed over, and the bytes pending, after a stream. */
  function Received(stream: seq<Byte>): (r: (seq<seq<Byte>>, seq<Byte>))
    ensures |r.1| < MAX_NMEA_BUFFER
  {
    if stream == [] then ([], [])
    else
      var n := |stream| - 1;
      var (lines, pending) := Received(stream[..n]);
      (if Completes(pending, stream[n]) then lines + [pending + [stream[n]]] else lines,
       Collect(pending, stream[n]))
  }

  lemma ReceivedSnoc(s: seq<Byte>, data: Byte)
    ensures Received(s + [data]).0 ==
            if Completes(Received(s).1, data) then Received(s).0 + [Received(s).1 + [data]] else Received(s).0
    ensures Received(s + [data]).1 == Collect(Received(s).1, data)
  {
    assert (s + [data])[..|s|] == s;
  }

  lemma {:induction false} ReceivedAppend(pending: seq<Byte>, more: seq<Byte>)
    requires Received(pending).0 == [] && Received(pending).1 == pending
    requires |pending| + |more| < MAX_NMEA_BUFFER && LF !in more
    ensures Received(pending + more).0 == [] && Received(pending + more).1 == pending + more
  {
    if more == [] {
      assert pending + more == pending;
    } else {
      var front, data := more[..|more| - 1], more[|more| - 1];
      assert front + [data] == more;
      ReceivedAppend(pending, front);
      ReceivedSnoc(pending + front, data);
      Regroup(pending, front, data);
    }
  }

  lemma Regroup<T>(x: seq<T>, y: seq<T>, z: T)
    ensures (x + y) + [z] == x + (y + [z])
  {
  }

  lemma ReceivedConcatOne(x: seq<Byte>, w: seq<Byte>, data: Byte)
    requires Received(x + w).0 == Received(x).0 + Received(w).0 && Received(x + w).1 == Received(w).1
    ensures Received(x + (w + [data])).0 == Received(x).0 + Received(w + [data]).0
    ensures Received(x + (w + [data])).1 == Received(w + [data]).1
  {
    Regroup(x, w, data);
    ReceivedSnoc(x + w, data);
    ReceivedSnoc(w, data);
    Regroup(Received(x).0, Received(w).0, Received(w).1 + [data]);
  }

  lemma {:induction false} ReceivedConcat(x: seq<Byte>, y: seq<Byte>)
    requires Received(x).1 == []
    ensures Received(x + y).0 == Received(x).0 + Received(y).0
    ensures Received(x + y).1 == Received(y).1
  {
    if y == [] {
      assert x + y == x;
    } else {
      var w, data := y[..|y| - 1], y[|y| - 1];
      assert w + [data] == y;
      ReceivedConcat(x, w);
      ReceivedConcatOne(x, w, data);
    }
  }

  lemma CutAfter<T>(s: seq<T>, at: nat)
    requires at < |s|
    ensures s[..at] + [s[at]] == s[..at + 1] && s[..at + 1] + s[at + 1..] == s
  {
  }

  lemma ReceivedLine(stream: seq<Byte>, at: nat)
    requires at < |stream| && at + 1 < MAX_NMEA_BUFFER && LF !in stream[..at] && stream[at] == LF
    ensures Received(stream).0 == [stream[..at + 1]] + Received(stream[at + 1..]).0
    ensures Received(stream).1 == Received(stream[at + 1..]).1
  {
    var body, line, rest := stream[..at], stream[..at + 1], stream[at + 1..];
    assert [] + body == body;
    CutAfter(stream, at);
    ReceivedAppend([], body);
    ReceivedSnoc(body, LF);
    assert [] + [line] == [line];
    ReceivedConcat(line, rest);
  }

  lemma ReceivedChunk(stream: seq<Byte>)
    requires |stream| >= MAX_NMEA_BUFFER && LF !in stream[..MAX_NMEA_BUFFER - 1]
    ensures Received(stream).0 == Received(stream[MAX_NMEA_BUFFER..]).0
    ensures Received(stream).1 == Received(stream[MAX_NMEA_BUFFER..]).1
  {
    var n := MAX_NMEA_BUFFER - 1;
    var body, chunk, rest := stream[..n], stream[..n + 1], stream[n + 1..];
    assert [] + body == body;
    CutAfter(stream, n);
    ReceivedAppend([], body);
    ReceivedSnoc(body, stream[n]);
    ReceivedConcat(chunk, rest);
    assert [] + Received(rest).0 == Received(rest).0;
  }

  /** For every byte stream, the driver hands over the lines of the reference splitter and
      keeps its remainder. */
  lemma {:induction false} ReceivedIsSplitLines(stream: seq<Byte>)
    ensures Received(stream).0 == SplitLines(stream).0
    ensures Received(stream).1 == SplitLines(stream).1
    decreases |stream|
  {
    var at := FirstLineFeed(stream, 0);
    if at < |stream| && at + 1 < MAX_NMEA_BUFFER {
      ReceivedLine(stream, at);
      ReceivedIsSplitLines(stream[at + 1..]);
    } else if |stream| >= MAX_NMEA_BUFFER {
      ReceivedChunk(stream);
      ReceivedIsSplitLines(stream[MAX_NMEA_BUFFER..]);
    } else {
      assert [] + stream == stream;
      ReceivedAppend([], stream);
    }
  }

  /** The lines handed over and the bytes pending are those of the reference splitter. */
  ghost predicate Kept(stream: seq<Byte>, lines: seq<seq<Byte>>, pending: seq<Byte>) {
    SplitLines(stream) == (lines, pending)
  }

  lemma KeptStep(stream: seq<Byte>, lines: seq<seq<Byte>>, pending: seq<Byte>, data: Byte)
    requires Kept(stream, lines, pending)
    ensures Kept(stream + [data],
                 if Completes(pending, data) then lines + [pending + [data]] else lines,
                 Collect(pending, data))
  {
    ReceivedIsSplitLines(stream);
    ReceivedIsSplitLines(stream + [data]);
    assert (stream + [data])[..|stream|] == stream;
  }
}
