/** NMEA 0183 sentences (Firmware/src/nmealib.c): the checker nmea_valid and the in-place
    splitter nmea_parse.  Both are loops over a shared byte buffer; they are proved against
    declarative functions of the buffer's contents, and those against a printer. */
module Nmea {
  import opened Bytes
  import opened Text

  const MAX_NMEA_BUFFER := 254
  const NMEA_PREAMBLE: Byte := 36   // $
  const NMEA_CHECKSUM: Byte := 42   // *
  const FIELD_SEPARATOR: Byte := COMMA
  const PROPRIETARY: Byte := 80     // P

  function ToHexChar(val: Byte): (c: Byte) {
    if val % 16 < 10 then 48 + val % 16 else 55 + val % 16
  }

  predicate IsTerminator(b: Byte) {
    b == NMEA_CHECKSUM || b == CR || b == LF || b == 0
  }

  predicate Printable(b: Byte) {
    32 <= b <= 126
  }

  // ---------------------------------------------------------------------------
  // nmea_valid
  // ---------------------------------------------------------------------------

  /** The end of the sentence: the first terminator at or after i, or the buffer limit. */
  function End(buf: seq<Byte>, i: nat): (e: nat)
    requires |buf| >= MAX_NMEA_BUFFER && i <= MAX_NMEA_BUFFER
    ensures i <= e <= MAX_NMEA_BUFFER
    ensures forall k :: i <= k < e ==> !IsTerminator(buf[k])
    ensures e < MAX_NMEA_BUFFER ==> IsTerminator(buf[e])
    decreases MAX_NMEA_BUFFER - i
  {
    if i == MAX_NMEA_BUFFER || IsTerminator(buf[i]) then i else End(buf, i + 1)
  }

  /** The checker does not stop at a terminator in the very first byte. */
  function SentenceEnd(buf: seq<Byte>): (e: nat)
    requires |buf| >= MAX_NMEA_BUFFER
    ensures 1 <= e <= MAX_NMEA_BUFFER
    ensures forall k :: 1 <= k < e ==> !IsTerminator(buf[k])
    ensures e < MAX_NMEA_BUFFER ==> IsTerminator(buf[e])
  {
    End(buf, 1)
  }

  predicate InSentence(buf: seq<Byte>, n: nat)
    requires n <= |buf|
  {
    NMEA_PREAMBLE in buf[..n]
  }

  /** The running checksum over the first n bytes: the exclusive-or of what follows the
      last preamble. */
  function Sum(buf: seq<Byte>, n: nat): (sum: Byte)
    requires n <= |buf|
  {
    if n == 0 || buf[n - 1] == NMEA_PREAMBLE then 0
    else if InSentence(buf, n - 1) then BitXorByte(Sum(buf, n - 1), buf[n - 1]); BitXor(Sum(buf, n - 1), buf[n - 1])
    else 0
  }

  ghost predicate AllPrintable(buf: seq<Byte>, n: nat)
    requires n <= |buf|
  {
    forall k :: 0 <= k < n && InSentence(buf, k) ==> Printable(buf[k])
  }

  /** Where the checker believes the checksum mark is; the first byte may pose as one. */
  function ChecksumMark(buf: seq<Byte>): (mark: int)
    requires |buf| >= MAX_NMEA_BUFFER
    ensures -1 <= mark < MAX_NMEA_BUFFER
    ensures mark >= 0 ==> buf[mark] == NMEA_CHECKSUM
  {
    var e := SentenceEnd(buf);
    if e < MAX_NMEA_BUFFER && buf[e] == NMEA_CHECKSUM then e
    else if buf[0] == NMEA_CHECKSUM then 0
    else -1
  }

  /** The two characters after the checksum mark are inside the buffer. */
  predicate LookaheadInBounds(buf: seq<Byte>)
    requires |buf| >= MAX_NMEA_BUFFER
  {
    ChecksumMark(buf) + 2 < |buf|
  }

  ghost predicate Valid(buf: seq<Byte>)
    requires |buf| >= MAX_NMEA_BUFFER && LookaheadInBounds(buf)
  {
    var e := SentenceEnd(buf);
    var mark := ChecksumMark(buf);
    && InSentence(buf, e)
    && AllPrintable(buf, e)
    && (mark >= 0 ==> buf[mark + 1] == ToHexChar(Sum(buf, e) / 16) && buf[mark + 2] == ToHexChar(Sum(buf, e) % 16))
  }

  lemma InSentenceStep(buf: seq<Byte>, n: nat)
    requires n < |buf|
    ensures InSentence(buf, n + 1) <==> InSentence(buf, n) || buf[n] == NMEA_PREAMBLE
  {
    assert buf[..n + 1] == buf[..n] + [buf[n]];
  }

  lemma EndFrom(buf: seq<Byte>, i: nat, e: nat)
    requires |buf| >= MAX_NMEA_BUFFER && i <= e <= MAX_NMEA_BUFFER
    requires forall k :: i <= k < e ==> !IsTerminator(buf[k])
    requires e == MAX_NMEA_BUFFER || IsTerminator(buf[e])
    ensures End(buf, i) == e
  {
  }

  /** The verdict at the end of the scan. */
  lemma ValidIff(buf: seq<Byte>, sum: Byte)
    requires |buf| >= MAX_NMEA_BUFFER && LookaheadInBounds(buf)
    requires AllPrintable(buf, SentenceEnd(buf)) && InSentence(buf, SentenceEnd(buf))
    requires sum == Sum(buf, SentenceEnd(buf))
    ensures Valid(buf) <==>
            var mark := ChecksumMark(buf);
            mark >= 0 ==> buf[mark + 1] == ToHexChar(sum / 16) && buf[mark + 2] == ToHexChar(sum % 16)
  {
  }

  /** What the scan has found in the first n bytes. */
  ghost predicate Scanned(buf: seq<Byte>, n: nat, inSentence: bool, checksum: Byte)
    requires n <= |buf|
  {
    && inSentence == InSentence(buf, n)
    && (inSentence ==> checksum == Sum(buf, n))
    && AllPrintable(buf, n)
  }

  lemma ScanStep(buf: seq<Byte>, n: nat, inSentence: bool, checksum: Byte)
    requires n < |buf| && Scanned(buf, n, inSentence, checksum)
    ensures buf[n] == NMEA_PREAMBLE ==> Scanned(buf, n + 1, true, 0)
    ensures buf[n] != NMEA_PREAMBLE && !inSentence ==> Scanned(buf, n + 1, false, checksum)
    ensures buf[n] != NMEA_PREAMBLE && inSentence && Printable(buf[n]) ==>
              BitXor(checksum, buf[n]) < 0x100 && Scanned(buf, n + 1, true, BitXor(checksum, buf[n]))
    ensures inSentence ==> InSentence(buf, n)
  {
    InSentenceStep(buf, n);
    BitXorByte(checksum, buf[n]);
  }

  /** nmea_valid */
  method NmeaValid(buffer: array<Byte>) returns (ok: bool)
    requires buffer.Length >= MAX_NMEA_BUFFER && LookaheadInBounds(buffer[..])
    ensures ok <==> Valid(buffer[..])
  {
    ghost var buf := buffer[..];
    ghost var e := SentenceEnd(buf);
    var checksum: Byte := 0;
    var end := 0;
    var checksumPos := 0;
    var hasChecksum, inSentence, hasPreamble := false, false, false;
    var i := 0;
    while end == 0 && i < MAX_NMEA_BUFFER
      invariant 0 <= i <= MAX_NMEA_BUFFER && (end == 0 || (end == i - 1 == e))
      invariant end == 0 ==> i <= e
      invariant inSentence == hasPreamble && Scanned(buf, if end == 0 then i else e, inSentence, checksum)
      invariant hasChecksum <==> (end > 0 && buf[e] == NMEA_CHECKSUM) || (i > 0 && buf[0] == NMEA_CHECKSUM)
      invariant hasChecksum ==> checksumPos == if end > 0 && buf[e] == NMEA_CHECKSUM then e else 0
    {
      ScanStep(buf, i, inSentence, checksum);
      var b := buffer[i];
      assert b == buf[i];
      if b == NMEA_PREAMBLE {
        checksum := 0;
        inSentence := true;
        hasPreamble := true;
      } else if IsTerminator(b) {
        if b == NMEA_CHECKSUM {
          hasChecksum := true;
          checksumPos := i;
        }
        end := i;
      } else {
        if inSentence {
          BitXorByte(checksum, b);
          checksum := BitXor(checksum, b);
          if !Printable(b) {
            assert InSentence(buf, i) && i < e;
            return false;
          }
        }
      }
      i := i + 1;
    }
    if !hasPreamble {
      return false;
    }
    ValidIff(buf, checksum);
    assert hasChecksum == (ChecksumMark(buf) >= 0);
    if hasChecksum {
      assert checksumPos == ChecksumMark(buf);
      if buffer[checksumPos + 1] != ToHexChar(checksum / 16) {
        return false;
      }
      if buffer[checksumPos + 2] != ToHexChar(checksum % 16) {
        return false;
      }
    }
    return true;
  }

  // ---------------------------------------------------------------------------
  // nmea_parse
  // ---------------------------------------------------------------------------

  /** A parsed sentence: the fields are offsets of NUL-terminated strings in the buffer,
      the talker is one or two characters, the type starts at an offset (-1 for none). */
  datatype Sentence = Sentence(fields: seq<nat>, talker: seq<Byte>, typeAt: int)

  /** Where the fields opened by the first n bytes start.  The preamble opens the first
      field, or moves the start of the current one; a separator inside the sentence
      closes the current field and opens the next. */
  function Opened(buf: seq<Byte>, n: nat): (starts: seq<nat>)
    requires n <= |buf|
    ensures starts != [] <==> InSentence(buf, n)
    ensures forall k :: 0 <= k < |starts| ==> starts[k] <= n
  {
    if n == 0 then []
    else
      InSentenceStep(buf, n - 1);
      var starts := Opened(buf, n - 1);
      if buf[n - 1] == NMEA_PREAMBLE then (if starts == [] then [n] else starts[..|starts| - 1] + [n])
      else if buf[n - 1] == FIELD_SEPARATOR && starts != [] then starts + [n]
      else starts
  }

  /** The fields recorded: all that were opened, except one opened by the very last byte
      of an unterminated buffer. */
  function Fields(buf: seq<Byte>): (fields: seq<nat>)
    requires |buf| >= MAX_NMEA_BUFFER
  {
    var starts := Opened(buf, SentenceEnd(buf));
    if starts != [] && starts[|starts| - 1] == MAX_NMEA_BUFFER then starts[..|starts| - 1] else starts
  }

  /** The byte that receives the terminator of the last field. */
  function LastNul(buf: seq<Byte>): (at: int)
    requires |buf| >= MAX_NMEA_BUFFER
    ensures -1 <= at < MAX_NMEA_BUFFER
  {
    var e := SentenceEnd(buf);
    var starts := Opened(buf, e);
    if starts == [] || starts[|starts| - 1] == MAX_NMEA_BUFFER then -1
    else if e < MAX_NMEA_BUFFER then e
    else MAX_NMEA_BUFFER - 1
  }

  predicate Closes(buf: seq<Byte>, k: nat)
    requires k < |buf|
  {
    buf[k] == FIELD_SEPARATOR && InSentence(buf, k)
  }

  /** The first n bytes with the separators of the sentence turned into NULs. */
  function ClearedTo(buf: seq<Byte>, n: nat): (after: seq<Byte>)
    requires n <= |buf|
    ensures |after| == |buf|
  {
    seq(|buf|, k requires 0 <= k < |buf| => if k < n && Closes(buf, k) then 0 else buf[k])
  }

  /** The buffer after parsing: separators and the end of the sentence are NUL. */
  function Cleared(buf: seq<Byte>): (after: seq<Byte>)
    requires |buf| >= MAX_NMEA_BUFFER
    ensures |after| == |buf|
  {
    var after := ClearedTo(buf, SentenceEnd(buf));
    if LastNul(buf) >= 0 then after[LastNul(buf) := 0] else after
  }

  /** The sentence whose fields start at the given offsets of a cleared buffer. */
  function SentenceOf(after: seq<Byte>, fields: seq<nat>): Sentence
    requires fields != [] ==> fields[0] + 1 < |after|
  {
    if fields == [] then Sentence([], [], -1)
    else if after[fields[0]] == PROPRIETARY then Sentence(fields, [PROPRIETARY], fields[0] + 1)
    else Sentence(fields, [after[fields[0]], after[fields[0] + 1]], fields[0] + 2)
  }

  /** Room for the fields, and for the two talker characters of the first. */
  predicate FieldsInBounds(buf: seq<Byte>)
    requires |buf| >= MAX_NMEA_BUFFER
  {
    var fields := Fields(buf);
    |fields| <= 64 && (fields != [] ==> fields[0] + 1 < |buf|)
  }

  lemma ClearedStep(buf: seq<Byte>, n: nat)
    requires n < |buf|
    ensures ClearedTo(buf, n)[n] == buf[n]
    ensures ClearedTo(buf, n + 1) == if Closes(buf, n) then ClearedTo(buf, n)[n := 0] else ClearedTo(buf, n)
  {
  }

  /** What the loop of nmea_parse has done with the first n bytes; in a sentence, fields are the
      closed ones and start is where the open one begins. */
  ghost predicate SplitUpTo(buf: seq<Byte>, after: seq<Byte>, n: nat, inSentence: bool, fields: seq<nat>, start: nat) {
    && n <= |buf| && after == ClearedTo(buf, n)
    && inSentence == InSentence(buf, n)
    && (if inSentence then fields + [start] == Opened(buf, n) else fields == [])
  }

  lemma SplitStep(buf: seq<Byte>, after: seq<Byte>, n: nat, inSentence: bool, fields: seq<nat>, start: nat)
    requires n < |buf| && SplitUpTo(buf, after, n, inSentence, fields, start)
    ensures after[n] == buf[n]
    ensures buf[n] == NMEA_PREAMBLE ==> SplitUpTo(buf, after, n + 1, true, fields, n + 1)
    ensures buf[n] == FIELD_SEPARATOR && inSentence ==>
              SplitUpTo(buf, after[n := 0], n + 1, true, fields + [start], n + 1)
    ensures buf[n] == FIELD_SEPARATOR && !inSentence ==>
              SplitUpTo(buf, after, n + 1, false, fields, n + 1)
    ensures buf[n] != FIELD_SEPARATOR && buf[n] != NMEA_PREAMBLE ==>
              SplitUpTo(buf, after, n + 1, inSentence, fields, start)
  {
    InSentenceStep(buf, n);
    ClearedStep(buf, n);
  }

  /** The scanning loop of nmea_parse: i is where it stopped, fields are the closed ones,
      start is where the open one begins. */
  method SplitFields(buffer: array<Byte>) returns (i: nat, fields: seq<nat>, start: nat)
    requires buffer.Length >= MAX_NMEA_BUFFER && InSentence(buffer[..], SentenceEnd(buffer[..]))
    modifies buffer
    ensures var e := SentenceEnd(old(buffer[..]));
            && i == (if e < MAX_NMEA_BUFFER then e + 1 else e)
            && fields + [start] == Opened(old(buffer[..]), e)
            && buffer[..] == ClearedTo(old(buffer[..]), e)
  {
    ghost var buf := buffer[..];
    ghost var e := SentenceEnd(buf);
    var inField, inSentence, complete := false, false, false;
    start := 0;
    fields := [];
    i := 0;
    while !complete && i < MAX_NMEA_BUFFER
      invariant 0 <= i <= MAX_NMEA_BUFFER && (if complete then i == e + 1 else i <= e)
      invariant inField == inSentence
      invariant SplitUpTo(buf, buffer[..], if complete then e else i, inSentence, fields, start)
    {
      SplitStep(buf, buffer[..], i, inSentence, fields, start);
      var b := buffer[i];
      if b == FIELD_SEPARATOR {
        if inField {
          buffer[i] := 0;
          fields := fields + [start];
        }
        start := i + 1;
      } else if b == NMEA_PREAMBLE {
        inSentence := true;
        inField := true;
        start := i + 1;
      } else if IsTerminator(b) {
        if inSentence {
          complete := true;
        }
      }
      i := i + 1;
    }
  }

  /** The open field is the last one recorded, unless it was opened by the very last byte of
      the buffer. */
  lemma LastField(buf: seq<Byte>, i: nat, fields: seq<nat>, start: nat)
    requires |buf| >= MAX_NMEA_BUFFER && fields + [start] == Opened(buf, SentenceEnd(buf))
    requires i == if SentenceEnd(buf) < MAX_NMEA_BUFFER then SentenceEnd(buf) + 1 else MAX_NMEA_BUFFER
    ensures i > 0
    ensures start < i ==> Fields(buf) == fields + [start] && LastNul(buf) == i - 1
    ensures start >= i ==> Fields(buf) == fields && LastNul(buf) == -1
  {
    var starts := fields + [start];
    assert starts[|starts| - 1] == start && starts[..|starts| - 1] == fields;
  }

  /** The end of nmea_parse: talker and type from the first field. */
  method ReadTalker(buffer: array<Byte>, fields: seq<nat>) returns (output: Sentence)
    requires fields != [] ==> fields[0] + 1 < buffer.Length
    ensures output == SentenceOf(buffer[..], fields)
  {
    output := Sentence(fields, [], -1);
    if |fields| > 0 {
      if buffer[fields[0]] == PROPRIETARY {
        output := output.(talker := [PROPRIETARY], typeAt := fields[0] + 1);
      } else {
        output := output.(talker := [buffer[fields[0]], buffer[fields[0] + 1]], typeAt := fields[0] + 2);
      }
    }
  }

  /** nmea_parse */
  method NmeaParse(buffer: array<Byte>) returns (ok: bool, output: Sentence)
    requires buffer.Length >= MAX_NMEA_BUFFER && LookaheadInBounds(buffer[..])
    requires Valid(buffer[..]) ==> FieldsInBounds(buffer[..])
    modifies buffer
    ensures ok <==> Valid(old(buffer[..]))
    ensures !ok ==> buffer[..] == old(buffer[..])
    ensures ok ==> buffer[..] == Cleared(old(buffer[..])) && output == SentenceOf(buffer[..], Fields(old(buffer[..])))
  {
    ghost var buf := buffer[..];
    output := Sentence([], [], -1);
    ok := NmeaValid(buffer);
    if !ok {
      return;
    }
    var i, fields, startOfField := SplitFields(buffer);
    LastField(buf, i, fields, startOfField);
    if startOfField < i {
      buffer[i - 1] := 0;
      fields := fields + [startOfField];
    }
    assert buffer[..] == Cleared(buf);
    output := ReadTalker(buffer, fields);
  }
}
