/** rxData itself (Firmware/src/gps.c): what every byte stream leaves in the receiver's buffer,
    which decoders it picks on the way, and the code, which does just that. */
module GpsReceiver {
  import opened Bytes
  import opened Text
  import opened Nmea
  import opened NmeaSentences
  import opened GpsLines
  import opened Gps

  /** If the line is accepted, it has no more fields than a sentence can record; and if it
      stops at its preamble, it does not lie at the very end of the buffer. */
  ghost predicate Recordable(line: seq<Byte>) {
    IsLine(line) && LookaheadInBounds(Clean(line)) && Nmea.Valid(Clean(line)) ==>
      |Fields(Clean(line))| <= 64 && (StopsAtPreamble(line) ==> |line| + 3 < MAX_NMEA_BUFFER)
  }

  /** What the parser leaves in the buffer is what rxData then looks at. */
  lemma AcceptedLine(buf: seq<Byte>, line: seq<Byte>)
    requires HoldsLine(buf, line) && Recordable(line) && LookaheadInBounds(buf) && Nmea.Valid(buf)
    ensures FieldsInBounds(buf) && Accepted(line)
    ensures ReportOf(line) == ReportIn(Cleared(buf), Fields(buf))
    ensures SentenceOf(Cleared(buf), Fields(buf)).typeAt == TypeOf(line)
  {
    SameVerdict(buf, Clean(line), line);
    LineReport(buf, line);
    LineSentence(buf, line);
  }

  /** The buffer when its line is complete: the rest is whatever was there before. */
  function Completed(buf: seq<Byte>, pos: nat): (done: seq<Byte>)
    requires pos + 1 < |buf|
    ensures |done| == |buf|
  {
    buf[pos := LF][pos + 1 := 0]
  }

  // ---------------------------------------------------------------------------
  // What a stream leaves behind
  // ---------------------------------------------------------------------------

  function Zeros(): (buf: seq<Byte>)
    ensures |buf| == MAX_NMEA_BUFFER
  {
    seq(MAX_NMEA_BUFFER, k => 0)
  }

  /** The buffer after one byte more: cleared behind a line, else kept as it is. */
  function BufferNext(buf: seq<Byte>, pending: seq<Byte>, data: Byte): (next: seq<Byte>)
    requires |pending| < |buf| == MAX_NMEA_BUFFER
    ensures |next| == MAX_NMEA_BUFFER
  {
    if Completes(pending, data) then Zeros() else buf[|pending| := data]
  }

  /** The decoder picked, if the byte completes an accepted line. */
  ghost function KindNext(buf: seq<Byte>, pending: seq<Byte>, data: Byte): (kinds: seq<Kind>)
    requires |pending| < |buf| == MAX_NMEA_BUFFER
  {
    if !Completes(pending, data) then []
    else
      var done := Completed(buf, |pending|);
      if HoldsLine(done, pending + [data]) && Accepted(pending + [data]) then [KindOf(done, pending + [data])] else []
  }

  function Pending(stream: seq<Byte>): seq<Byte> {
    Received(stream).1
  }

  function BufferAfter(stream: seq<Byte>): (buf: seq<Byte>)
    ensures |buf| == MAX_NMEA_BUFFER
  {
    if stream == [] then Zeros()
    else
      var front := stream[..|stream| - 1];
      BufferNext(BufferAfter(front), Pending(front), stream[|stream| - 1])
  }

  /** The decoders picked over a stream, from a receiver just started. */
  ghost function KindsAfter(stream: seq<Byte>): (kinds: seq<Kind>) {
    if stream == [] then []
    else
      var front := stream[..|stream| - 1];
      KindsAfter(front) + KindNext(BufferAfter(front), Pending(front), stream[|stream| - 1])
  }

  lemma AfterSnoc(stream: seq<Byte>, data: Byte)
    ensures BufferAfter(stream + [data]) == BufferNext(BufferAfter(stream), Pending(stream), data)
    ensures KindsAfter(stream + [data]) == KindsAfter(stream) + KindNext(BufferAfter(stream), Pending(stream), data)
    ensures Pending(stream + [data]) == Collect(Pending(stream), data)
  {
    assert (stream + [data])[..|stream|] == stream;
    ReceivedSnoc(stream, data);
  }

  /** Everything there is to know about a receiver. */
  datatype Seen = Seen(stream: seq<Byte>, lines: seq<seq<Byte>>, kinds: seq<Kind>, pending: seq<Byte>, buf: seq<Byte>)

  /** Lines, decoders, pending bytes and buffer are those of the stream. */
  ghost predicate Follows(s: Seen) {
    && Kept(s.stream, s.lines, s.pending) && LF !in s.pending
    && s.buf == BufferAfter(s.stream) && s.kinds == KindsAfter(s.stream)
  }

  ghost function NextSeen(s: Seen, data: Byte): Seen
    requires |s.pending| < |s.buf| == MAX_NMEA_BUFFER
  {
    Seen(s.stream + [data],
         if Completes(s.pending, data) then s.lines + [s.pending + [data]] else s.lines,
         s.kinds + KindNext(s.buf, s.pending, data),
         Collect(s.pending, data), BufferNext(s.buf, s.pending, data))
  }

  const NOTHING_SEEN := Seen([], [], [], [], Zeros())

  lemma FollowsNothing()
    ensures Follows(NOTHING_SEEN)
  {
  }

  lemma FollowsStep(s: Seen, data: Byte)
    requires Follows(s)
    ensures |s.pending| < |s.buf| == MAX_NMEA_BUFFER && Follows(NextSeen(s, data))
  {
    ReceivedIsSplitLines(s.stream);
    KeptStep(s.stream, s.lines, s.pending, data);
    AfterSnoc(s.stream, data);
  }

  /** A byte that completes no line stays in the buffer; a line is cleared away. */
  lemma NextInBuffer(s: Seen, data: Byte)
    requires |s.pending| < |s.buf| == MAX_NMEA_BUFFER
    ensures var t := NextSeen(s, data);
            && (|s.pending| + 1 >= MAX_NMEA_BUFFER ==> t.pending == [] && t.buf == s.buf[|s.pending| := data])
            && (|s.pending| + 1 < MAX_NMEA_BUFFER && data != LF ==>
                  t.pending == s.pending + [data] && t.buf == s.buf[|s.pending| := data])
            && (|s.pending| + 1 < MAX_NMEA_BUFFER && data == LF ==> t.pending == [] && t.buf == Zeros())
  {
  }

  /** The decoder found is the one the specification picks. */
  lemma CompletedKind(buf: seq<Byte>, pending: seq<Byte>, report: Report, kind: Kind)
    requires |pending| + 1 < |buf| == MAX_NMEA_BUFFER && IsLine(pending + [LF]) && Recordable(pending + [LF])
    requires HoldsLine(Completed(buf, |pending|), pending + [LF]) && report == ReportOf(pending + [LF])
    requires report.Parsed? ==> Accepted(pending + [LF]) && kind == KindOf(Completed(buf, |pending|), pending + [LF])
    ensures KindNext(buf, pending, LF) == if report.Parsed? then [kind] else []
  {
  }

  // ---------------------------------------------------------------------------
  // rxData
  // ---------------------------------------------------------------------------

  lemma LineLies(buf: seq<Byte>, pending: seq<Byte>, now: seq<Byte>, pos: nat)
    requires |pending| + 1 < |buf| == MAX_NMEA_BUFFER && buf[..|pending|] == pending && LF !in pending
    requires now == buf[|pending| := LF] && pos == |pending| + 1
    ensures IsLine(pending + [LF]) && now[..pos] == pending + [LF] && now[pos := 0] == Completed(buf, |pending|)
  {
    var line := pending + [LF];
    assert line[..|line| - 1] == pending;
  }

  class Receiver {
    const nmeaBuffer: array<Byte>
    var nmeaPos: nat
    ghost var seen: Seen

    /** The buffer holds the remainder of the reference splitter, and behind it what the stream
        has left there; the parser has seen exactly its lines, and the decoders picked are those
        of the stream. */
    ghost predicate Valid()
      reads this, nmeaBuffer
    {
      && nmeaBuffer.Length == MAX_NMEA_BUFFER
      && nmeaPos < MAX_NMEA_BUFFER
      && Follows(seen) && nmeaBuffer[..] == seen.buf && nmeaBuffer[..nmeaPos] == seen.pending
    }

    constructor ()
      ensures Valid() && seen == NOTHING_SEEN && fresh(nmeaBuffer)
    {
      nmeaBuffer := new Byte[MAX_NMEA_BUFFER](_ => 0);
      nmeaPos := 0;
      seen := NOTHING_SEEN;
      new;
      assert nmeaBuffer[..] == Zeros();
      FollowsNothing();
    }

    /** rxData.  A completed line reports what the parser makes of that line alone, and the
        decoder picked for it. */
    method RxData(data: Byte) returns (rc: int, report: Report, kind: Kind)
      requires Valid() && Recordable(seen.pending + [data])
      modifies this, nmeaBuffer
      ensures Valid() && seen == NextSeen(old(seen), data)
      ensures var pending, line := old(seen).pending, old(seen).pending + [data];
              if |line| >= MAX_NMEA_BUFFER then rc == -1 && report == Silent
              else if data != LF then rc == 0 && report == Silent
              else
                && rc == 0 && IsLine(line) && report == ReportOf(line)
                && KindNext(old(seen).buf, pending, data) == if report.Parsed? then [kind] else []
    {
      ghost var before := seen;
      FollowsStep(seen, data);
      NextInBuffer(seen, data);
      seen := NextSeen(seen, data);
      Store(data);
      if nmeaPos >= MAX_NMEA_BUFFER {
        nmeaPos := 0;
        return -1, Silent, Unknown;
      }
      report, kind := Silent, Unknown;
      if data == LF {
        report, kind := FinishLine(before);
      }
      return 0, report, kind;
    }

    /** The line-feed branch of rxData, and the position. */
    method FinishLine(ghost before: Seen) returns (report: Report, kind: Kind)
      requires |before.pending| + 1 < |before.buf| == MAX_NMEA_BUFFER == nmeaBuffer.Length
      requires before.buf[..|before.pending|] == before.pending && LF !in before.pending
      requires nmeaPos == |before.pending| + 1 && nmeaBuffer[..] == before.buf[|before.pending| := LF]
      requires Recordable(before.pending + [LF])
      modifies this`nmeaPos, nmeaBuffer
      ensures nmeaPos == 0 && nmeaBuffer[..] == Zeros()
      ensures IsLine(before.pending + [LF]) && report == ReportOf(before.pending + [LF])
      ensures KindNext(before.buf, before.pending, LF) == if report.Parsed? then [kind] else []
    {
      LineLies(before.buf, before.pending, nmeaBuffer[..], nmeaPos);
      report, kind := ParseLine(before.pending + [LF]);
      CompletedKind(before.buf, before.pending, report, kind);
      nmeaPos := 0;
    }

    /** nmea_buffer[nmea_pos++] = data */
    method Store(data: Byte)
      requires nmeaPos < nmeaBuffer.Length
      modifies this`nmeaPos, nmeaBuffer
      ensures nmeaPos == old(nmeaPos) + 1
      ensures nmeaBuffer[..] == old(nmeaBuffer[..])[old(nmeaPos) := data]
      ensures nmeaBuffer[..nmeaPos] == old(nmeaBuffer[..nmeaPos]) + [data]
    {
      nmeaBuffer[nmeaPos] := data;
      nmeaPos := nmeaPos + 1;
    }

    /** The line-feed branch of rxData: end the line, parse it, pick its decoder, clear the
        buffer. */
    method ParseLine(ghost line: seq<Byte>) returns (report: Report, kind: Kind)
      requires IsLine(line) && Recordable(line)
      requires nmeaBuffer.Length == MAX_NMEA_BUFFER && nmeaPos == |line| && nmeaBuffer[..nmeaPos] == line
      modifies nmeaBuffer
      ensures report == ReportOf(line)
      ensures var buf := old(nmeaBuffer[..])[nmeaPos := 0];
              HoldsLine(buf, line) && (report.Parsed? ==> Accepted(line) && kind == KindOf(buf, line))
      ensures nmeaBuffer[..] == Zeros()
    {
      ghost var buf := nmeaBuffer[..][nmeaPos := 0];
      nmeaBuffer[nmeaPos] := 0;
      assert nmeaBuffer[..] == buf && buf[..nmeaPos + 1] == line + [0];
      LineReport(buf, line);
      if Nmea.Valid(buf) {
        AcceptedLine(buf, line);
      }
      kind := Unknown;
      var ok, sentence := NmeaParse(nmeaBuffer);
      if ok {
        TypeIsReadable(buf, line);
        report := Parsed(Strings(nmeaBuffer[..], sentence.fields), sentence.talker);
        kind := KindAt(nmeaBuffer[..], sentence.typeAt);
      } else {
        report := Rejected;
      }
      ClearBuffer();
    }

    method ClearBuffer()
      modifies nmeaBuffer
      ensures forall k :: 0 <= k < nmeaBuffer.Length ==> nmeaBuffer[k] == 0
    {
      for k := 0 to nmeaBuffer.Length
        invariant forall j :: 0 <= j < k ==> nmeaBuffer[j] == 0
      {
        nmeaBuffer[k] := 0;
      }
    }
  }
}
