/** The receive side of the GPS driver (Firmware/src/gps.c): rxData collects bytes into a
    fixed buffer and hands every line to the NMEA parser.  The buffer is never cleared when
    a line grows too long, so what an earlier line left behind is still there; the proofs
    here say when that can and cannot be seen. */
module Gps {
  import opened Bytes
  import opened Text
  import opened Nmea
  import opened NmeaSentences

  // ---------------------------------------------------------------------------
  // A parse depends on the line alone
  // ---------------------------------------------------------------------------

  /** What rxData hands over: a line feed at the end, none before, room for a NUL. */
  predicate IsLine(line: seq<Byte>) {
    0 < |line| < 254 && line[|line| - 1] == LF && LF !in line[..|line| - 1]
  }

  /** The buffer holds the line and its NUL; the rest is whatever was there before. */
  predicate HoldsLine(buf: seq<Byte>, line: seq<Byte>) {
    |buf| == MAX_NMEA_BUFFER && IsLine(line) && line + [0] <= buf
  }

  /** The line in an otherwise empty buffer. */
  function Clean(line: seq<Byte>): (buf: seq<Byte>)
    requires IsLine(line)
    ensures HoldsLine(buf, line)
    ensures forall k :: |line| < k < |buf| ==> buf[k] == 0
  {
    line + [0] + seq(MAX_NMEA_BUFFER - |line| - 1, i => 0)
  }

  predicate Agree(x: seq<Byte>, y: seq<Byte>, n: nat) {
    |x| == |y| && n < |x| && forall k :: 0 <= k <= n ==> x[k] == y[k]
  }

  lemma LineBytes(buf: seq<Byte>, line: seq<Byte>)
    requires HoldsLine(buf, line)
    ensures buf[|line|] == 0 && buf[|line| - 1] == LF
    ensures forall k :: 0 <= k < |line| ==> buf[k] == line[k]
  {
    var whole := line + [0];
    assert forall k :: 0 <= k <= |line| ==> buf[k] == whole[k];
  }

  lemma BothHold(buf: seq<Byte>, other: seq<Byte>, line: seq<Byte>)
    requires HoldsLine(buf, line) && HoldsLine(other, line)
    ensures Agree(buf, other, |line|)
  {
    LineBytes(buf, line);
    LineBytes(other, line);
  }

  lemma LineEnd(buf: seq<Byte>, line: seq<Byte>)
    requires HoldsLine(buf, line)
    ensures SentenceEnd(buf) < MAX_NMEA_BUFFER && LookaheadInBounds(buf)
    ensures |line| > 1 ==> SentenceEnd(buf) < |line|
    ensures |line| == 1 ==> SentenceEnd(buf) == 1
    ensures ChecksumMark(buf) + 2 <= |line|
  {
    LineBytes(buf, line);
  }

  lemma SameEnd(buf: seq<Byte>, other: seq<Byte>, line: seq<Byte>)
    requires HoldsLine(buf, line) && HoldsLine(other, line)
    ensures SentenceEnd(buf) == SentenceEnd(other) && ChecksumMark(buf) == ChecksumMark(other)
  {
    LineEnd(buf, line);
    BothHold(buf, other, line);
    EndFrom(other, 1, SentenceEnd(buf));
  }

  lemma {:induction false} SameSum(buf: seq<Byte>, other: seq<Byte>, n: nat)
    requires n <= |buf| && n <= |other| && buf[..n] == other[..n]
    ensures InSentence(buf, n) == InSentence(other, n) && Sum(buf, n) == Sum(other, n)
  {
    if n > 0 {
      SamePrefixes(buf, other, n);
      SameSum(buf, other, n - 1);
    }
  }

  lemma {:induction false} SameOpened(buf: seq<Byte>, other: seq<Byte>, n: nat)
    requires n <= |buf| && n <= |other| && buf[..n] == other[..n]
    ensures Opened(buf, n) == Opened(other, n)
  {
    if n > 0 {
      SamePrefixes(buf, other, n);
      SameOpened(buf, other, n - 1);
    }
  }

  lemma SamePrefixes(buf: seq<Byte>, other: seq<Byte>, n: nat)
    requires 0 < n <= |buf| && n <= |other| && buf[..n] == other[..n]
    ensures buf[..n - 1] == other[..n - 1] && buf[n - 1] == other[n - 1]
  {
    assert buf[..n - 1] == buf[..n][..n - 1] && other[..n - 1] == other[..n][..n - 1];
    assert buf[n - 1] == buf[..n][n - 1] && other[n - 1] == other[..n][n - 1];
  }

  lemma SameScan(buf: seq<Byte>, other: seq<Byte>, n: nat)
    requires n <= |buf| && n <= |other| && forall k :: 0 <= k < n ==> buf[k] == other[k]
    ensures InSentence(buf, n) == InSentence(other, n)
    ensures Sum(buf, n) == Sum(other, n)
    ensures Opened(buf, n) == Opened(other, n)
  {
    assert buf[..n] == other[..n];
    SameSum(buf, other, n);
    SameOpened(buf, other, n);
  }

  lemma SamePrefix(buf: seq<Byte>, other: seq<Byte>, e: nat)
    requires e <= |buf| && e <= |other| && forall k :: 0 <= k < e ==> buf[k] == other[k]
    ensures forall k: nat :: k <= e ==> InSentence(buf, k) == InSentence(other, k)
    ensures AllPrintable(buf, e) <==> AllPrintable(other, e)
  {
    forall k: nat | k <= e
      ensures InSentence(buf, k) == InSentence(other, k)
    {
      SameScan(buf, other, k);
    }
  }

  lemma SameVerdict(buf: seq<Byte>, other: seq<Byte>, line: seq<Byte>)
    requires HoldsLine(buf, line) && HoldsLine(other, line)
    ensures LookaheadInBounds(buf) && LookaheadInBounds(other)
    ensures Nmea.Valid(buf) <==> Nmea.Valid(other)
  {
    LineEnd(buf, line);
    LineEnd(other, line);
    SameEnd(buf, other, line);
    BothHold(buf, other, line);
    SameScan(buf, other, SentenceEnd(buf));
    SamePrefix(buf, other, SentenceEnd(buf));
  }

  lemma SameFields(buf: seq<Byte>, other: seq<Byte>, line: seq<Byte>)
    requires HoldsLine(buf, line) && HoldsLine(other, line)
    ensures Fields(buf) == Fields(other) && LastNul(buf) == LastNul(other)
  {
    LineEnd(buf, line);
    SameEnd(buf, other, line);
    BothHold(buf, other, line);
    SameScan(buf, other, SentenceEnd(buf));
  }

  lemma AgreeCleared(buf: seq<Byte>, other: seq<Byte>, e: nat, n: nat)
    requires Agree(buf, other, n) && e <= n
    ensures Agree(ClearedTo(buf, e), ClearedTo(other, e), n)
  {
    SamePrefix(buf, other, e);
    forall k: nat | k <= n
      ensures ClearedTo(buf, e)[k] == ClearedTo(other, e)[k]
    {
      assert k < e ==> Closes(buf, k) == Closes(other, k);
    }
  }

  lemma AgreeUpdated(x: seq<Byte>, y: seq<Byte>, n: nat, at: int)
    requires Agree(x, y, n) && at < |x|
    ensures Agree(if at >= 0 then x[at := 0] else x, if at >= 0 then y[at := 0] else y, n)
  {
  }

  lemma SameCleared(buf: seq<Byte>, other: seq<Byte>, line: seq<Byte>)
    requires HoldsLine(buf, line) && HoldsLine(other, line)
    ensures Agree(Cleared(buf), Cleared(other), |line|)
  {
    var e := SentenceEnd(buf);
    LineEnd(buf, line);
    SameEnd(buf, other, line);
    BothHold(buf, other, line);
    SameFields(buf, other, line);
    AgreeCleared(buf, other, e, |line|);
    AgreeUpdated(ClearedTo(buf, e), ClearedTo(other, e), |line|, LastNul(buf));
  }

  /** Whether a line is accepted, where its fields start, and the line after parsing do not
      depend on what an earlier line left in the buffer. */
  lemma StaleBytesDoNotMatter(buf: seq<Byte>, line: seq<Byte>)
    requires HoldsLine(buf, line)
    ensures LookaheadInBounds(buf) && LookaheadInBounds(Clean(line))
    ensures Nmea.Valid(buf) <==> Nmea.Valid(Clean(line))
    ensures Fields(buf) == Fields(Clean(line))
    ensures Agree(Cleared(buf), Cleared(Clean(line)), |line|)
  {
    SameVerdict(buf, Clean(line), line);
    SameFields(buf, Clean(line), line);
    SameCleared(buf, Clean(line), line);
  }

  /** Fields start inside the line, and the sentence has its NUL. */
  lemma LineFields(buf: seq<Byte>, line: seq<Byte>)
    requires HoldsLine(buf, line)
    ensures Fields(buf) == Opened(buf, SentenceEnd(buf))
    ensures Fields(buf) != [] ==> Fields(buf)[0] < |line| && LastNul(buf) == SentenceEnd(buf) <= |line|
    ensures forall k :: 0 <= k < |Fields(buf)| ==> Fields(buf)[k] <= SentenceEnd(buf)
  {
    LineBytes(buf, line);
    LineEnd(buf, line);
    if |line| == 1 {
      assert buf[..1] == [LF];
    }
  }

  lemma ValidHasFields(buf: seq<Byte>, line: seq<Byte>)
    requires HoldsLine(buf, line) && LookaheadInBounds(buf) && Nmea.Valid(buf)
    ensures Fields(buf) != []
  {
    LineFields(buf, line);
  }

  lemma SameStrings(after: seq<Byte>, other: seq<Byte>, fields: seq<nat>, e: nat, n: nat)
    requires Agree(after, other, n) && e <= n && after[e] == 0
    requires forall k :: 0 <= k < |fields| ==> fields[k] <= e
    ensures Strings(after, fields) == Strings(other, fields)
  {
    forall k | 0 <= k < |fields|
      ensures CString(after, fields[k]) == CString(other, fields[k])
    {
      CStringInPrefix(after, other, fields[k], e);
    }
  }

  /** What a line amounts to: rejected, or a sentence with its fields and its talker. */
  datatype Report = Silent | Rejected | Parsed(fields: seq<seq<Byte>>, talker: seq<Byte>)

  function ReportIn(after: seq<Byte>, fields: seq<nat>): Report
    requires fields != [] ==> fields[0] + 1 < |after|
  {
    Parsed(Strings(after, fields), SentenceOf(after, fields).talker)
  }

  ghost function ReportOf(line: seq<Byte>): Report
    requires IsLine(line)
  {
    var clean := Clean(line);
    LineEnd(clean, line);
    LineFields(clean, line);
    if Nmea.Valid(clean) then ReportIn(Cleared(clean), Fields(clean)) else Rejected
  }

  lemma SameReport(after: seq<Byte>, other: seq<Byte>, fields: seq<nat>, e: nat, n: nat)
    requires Agree(after, other, n) && e <= n && after[e] == 0 && fields != [] && fields[0] < n
    requires forall k :: 0 <= k < |fields| ==> fields[k] <= e
    ensures ReportIn(after, fields) == ReportIn(other, fields)
    ensures SentenceOf(after, fields) == SentenceOf(other, fields)
  {
    SameStrings(after, other, fields, e, n);
  }

  lemma SentenceIsEnded(buf: seq<Byte>, line: seq<Byte>)
    requires HoldsLine(buf, line) && Fields(buf) != []
    ensures SentenceEnd(buf) < |buf| && Cleared(buf)[SentenceEnd(buf)] == 0
  {
    LineFields(buf, line);
  }

  lemma LineSentence(buf: seq<Byte>, line: seq<Byte>)
    requires HoldsLine(buf, line) && Fields(buf) != []
    ensures Fields(buf) == Fields(Clean(line)) && Fields(buf)[0] < |line|
    ensures ReportIn(Cleared(buf), Fields(buf)) == ReportIn(Cleared(Clean(line)), Fields(buf))
    ensures SentenceOf(Cleared(buf), Fields(buf)) == SentenceOf(Cleared(Clean(line)), Fields(buf))
  {
    SameFields(buf, Clean(line), line);
    SameCleared(buf, Clean(line), line);
    LineFields(buf, line);
    SentenceIsEnded(buf, line);
    SameReport(Cleared(buf), Cleared(Clean(line)), Fields(buf), SentenceEnd(buf), |line|);
  }

  /** The fields and the talker reported are those of the line. */
  lemma LineReport(buf: seq<Byte>, line: seq<Byte>)
    requires HoldsLine(buf, line)
    ensures LookaheadInBounds(buf)
    ensures Nmea.Valid(buf) ==>
              Fields(buf) != [] && Fields(buf)[0] < |line| && ReportOf(line) == ReportIn(Cleared(buf), Fields(buf))
    ensures !Nmea.Valid(buf) ==> ReportOf(line) == Rejected
  {
    SameVerdict(buf, Clean(line), line);
    if Nmea.Valid(buf) {
      ValidHasFields(buf, line);
      LineSentence(buf, line);
    }
  }

  // ---------------------------------------------------------------------------
  // The one place where an earlier line can show through
  // ---------------------------------------------------------------------------

  datatype Kind = GGA | GSA | RMC | GSV | VTG | Ignored | Unknown

  /** The characters of the type that the comparisons of rxData look at are in the buffer.
      A comparison stops at the first character that does not match. */
  predicate TypeReadable(after: seq<Byte>, t: nat) {
    && t < |after|
    && (after[t] == 71 ==> t + 2 < |after|)
    && (after[t] == 82 ==> t + 1 < |after| && (after[t + 1] == 77 ==> t + 2 < |after|))
    && (after[t] == 86 ==> t + 1 < |after| && (after[t + 1] == 84 ==> t + 2 < |after|))
  }

  /** The chain of comparisons by which rxData picks a decoder. */
  function KindAt(after: seq<Byte>, t: nat): Kind
    requires TypeReadable(after, t)
  {
    if after[t] == 71 && after[t + 2] == 65 then
      (if after[t + 1] == 71 then GGA else if after[t + 1] == 83 then GSA else Ignored)
    else if after[t] == 82 && after[t + 1] == 77 && after[t + 2] == 67 then RMC
    else if after[t] == 71 && after[t + 1] == 83 && after[t + 2] == 86 then GSV
    else if after[t] == 86 && after[t + 1] == 84 && after[t + 2] == 71 then VTG
    else Unknown
  }

  /** The first field is empty and ends at the line feed: the line stops right after its
      preamble. */
  predicate StopsAtPreamble(line: seq<Byte>)
    requires IsLine(line)
  {
    Fields(Clean(line)) != [] && Fields(Clean(line))[0] == |line| - 1
  }

  /** An accepted line; one that stops at its preamble is followed by room for the three
      characters that will be taken for its type. */
  ghost predicate Accepted(line: seq<Byte>) {
    && IsLine(line) && LookaheadInBounds(Clean(line)) && Nmea.Valid(Clean(line))
    && (StopsAtPreamble(line) ==> |line| + 3 < MAX_NMEA_BUFFER)
  }

  /** Where the type of the sentence starts. */
  function TypeOf(line: seq<Byte>): (t: int)
    requires IsLine(line)
  {
    LineFields(Clean(line), line);
    SentenceOf(Cleared(Clean(line)), Fields(Clean(line))).typeAt
  }

  lemma LineEndBytes(buf: seq<Byte>, line: seq<Byte>)
    requires HoldsLine(buf, line)
    ensures Cleared(buf)[|line|] == 0
    ensures Cleared(buf)[|line| - 1] == LF || Cleared(buf)[|line| - 1] == 0
    ensures forall k :: |line| < k < |buf| ==> Cleared(buf)[k] == buf[k]
  {
    LineEnd(buf, line);
    LineBytes(buf, line);
  }

  /** The type starts inside the line, unless the line stops at its preamble. */
  lemma WhereTypeIs(line: seq<Byte>)
    requires Accepted(line)
    ensures StopsAtPreamble(line) ==> TypeOf(line) == |line| + 1
    ensures !StopsAtPreamble(line) ==> 0 <= TypeOf(line) <= |line|
  {
    ValidHasFields(Clean(line), line);
    LineFields(Clean(line), line);
    LineEndBytes(Clean(line), line);
  }

  lemma TypeInLine(after: seq<Byte>, other: seq<Byte>, t: nat, n: nat)
    requires Agree(after, other, n) && 0 < n && t <= n
    requires after[n] == 0 && (after[n - 1] == LF || after[n - 1] == 0)
    ensures TypeReadable(after, t) && TypeReadable(other, t) && KindAt(after, t) == KindAt(other, t)
  {
  }

  lemma TypeIsReadable(buf: seq<Byte>, line: seq<Byte>)
    requires HoldsLine(buf, line) && Accepted(line)
    ensures TypeOf(line) >= 0 && TypeReadable(Cleared(buf), TypeOf(line))
  {
    WhereTypeIs(line);
    if !StopsAtPreamble(line) {
      LineEndBytes(buf, line);
      TypeInLine(Cleared(buf), Cleared(buf), TypeOf(line), |line|);
    }
  }

  /** The decoder picked for a line lying in a buffer. */
  function KindOf(buf: seq<Byte>, line: seq<Byte>): Kind
    requires HoldsLine(buf, line) && Accepted(line)
  {
    TypeIsReadable(buf, line);
    KindAt(Cleared(buf), TypeOf(line))
  }

  /** For a line that goes on after its preamble, the line alone decides. */
  lemma KindFromLine(buf: seq<Byte>, line: seq<Byte>)
    requires HoldsLine(buf, line) && Accepted(line) && !StopsAtPreamble(line)
    ensures KindOf(buf, line) == KindOf(Clean(line), line)
  {
    WhereTypeIs(line);
    LineEndBytes(buf, line);
    SameCleared(buf, Clean(line), line);
    TypeInLine(Cleared(buf), Cleared(Clean(line)), TypeOf(line), |line|);
  }

  lemma SameTypeBytes(after: seq<Byte>, other: seq<Byte>, t: nat)
    requires t + 2 < |after| == |other|
    requires after[t] == other[t] && after[t + 1] == other[t + 1] && after[t + 2] == other[t + 2]
    ensures KindAt(after, t) == KindAt(other, t)
  {
  }

  /** For one that stops there, the three bytes behind the line decide. */
  lemma KindBeyondLine(buf: seq<Byte>, line: seq<Byte>)
    requires HoldsLine(buf, line) && Accepted(line) && StopsAtPreamble(line)
    ensures KindOf(buf, line) == KindAt(buf, |line| + 1)
  {
    WhereTypeIs(line);
    LineEndBytes(buf, line);
    SameTypeBytes(Cleared(buf), buf, |line| + 1);
  }

  /** The characters by which a sentence names its decoder. */
  function Name(kind: Kind): (name: seq<Byte>)
    requires kind != Ignored && kind != Unknown
    ensures |name| == 3
  {
    match kind
    case GGA => [71, 71, 65]
    case GSA => [71, 83, 65]
    case RMC => [82, 77, 67]
    case GSV => [71, 83, 86]
    case VTG => [86, 84, 71]
  }

  /** Each decoder is picked exactly if the three characters spell its name; others that begin
      with G and end with A are dropped without a word. */
  lemma KindIff(after: seq<Byte>, t: nat, kind: Kind)
    requires t + 2 < |after|
    ensures kind != Ignored && kind != Unknown ==> (KindAt(after, t) == kind <==> after[t..t + 3] == Name(kind))
    ensures KindAt(after, t) == Ignored <==>
            after[t] == 71 && after[t + 2] == 65 && after[t..t + 3] != Name(GGA) && after[t..t + 3] != Name(GSA)
  {
    assert after[t..t + 3] == [after[t], after[t + 1], after[t + 2]];
  }

  /** The line over a buffer that an abandoned, longer line has filled. */
  function Haunted(line: seq<Byte>): (buf: seq<Byte>)
    requires IsLine(line) && |line| + 3 < MAX_NMEA_BUFFER
    ensures HoldsLine(buf, line)
    ensures buf[|line| + 1] == 71 && buf[|line| + 2] == 71 && buf[|line| + 3] == 65
  {
    line + [0] + [71, 71, 65] + seq(MAX_NMEA_BUFFER - |line| - 4, i => 0)
  }

  lemma KindFromStaleBytes(line: seq<Byte>)
    requires Accepted(line) && StopsAtPreamble(line)
    ensures KindOf(Haunted(line), line) == GGA
    ensures KindOf(Clean(line), line) == Unknown
  {
    KindBeyondLine(Haunted(line), line);
    KindIff(Haunted(line), |line| + 1, GGA);
    KindBeyondLine(Clean(line), line);
  }

  /** The choice of decoder depends on the line alone exactly when the line goes on after
      its preamble: for a line that stops there, bytes of an abandoned line decide. */
  lemma DispatchDependsOnLineIff(line: seq<Byte>)
    requires Accepted(line)
    ensures (forall buf :: HoldsLine(buf, line) ==> KindOf(buf, line) == KindOf(Clean(line), line))
            <==> !StopsAtPreamble(line)
  {
    if StopsAtPreamble(line) {
      KindFromStaleBytes(line);
      assert HoldsLine(Haunted(line), line);
    } else {
      forall buf | HoldsLine(buf, line)
        ensures KindOf(buf, line) == KindOf(Clean(line), line)
      {
        KindFromLine(buf, line);
      }
    }
  }
}
