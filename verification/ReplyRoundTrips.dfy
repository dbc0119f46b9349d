/** What the NSOCR, NSOST and CIMI decoders make of a well-formed reply, among blank and
    unsolicited lines. */
module ReplyRoundTrips {
  import opened Bytes
  import opened Text
  import opened AtCommands
  import opened AtLines
  import opened Numerals
  import opened AtDecoders
  import opened NsorfRoundTrip

  lemma UrcLineIsUrc(line: seq<Byte>)
    requires IsUrcLine(line)
    ensures Urc(line)
  {
    UrcFromStart(line, |line|);
    assert line[..|line|] == line;
  }

  /** A line without '+' that starts with a digit is ordinary. */
  lemma DigitLine(text: seq<Byte>, line: seq<Byte>)
    requires text != [] && IsDigit(text[0]) && Clean(text) && line == text + BLANK
    ensures IsLine(line) && CodeOf(line) == AtTimeout && PLUS !in line && !Urc(line)
  {
    CleanLine(text);
    assert text + [CR, LF] == line && line[0] == text[0];
  }

  // ---------------------------------------------------------------------------
  // NSOCR
  // ---------------------------------------------------------------------------

  lemma {:induction false} NsocrIgnoresChars(c: int, line: seq<Byte>, n: nat)
    requires n <= |line|
    ensures Chars(Nsocr(), c, line, n) == c
    decreases n
  {
    if n > 0 {
      NsocrIgnoresChars(c, line, n - 1);
    }
  }

  lemma NsocrIgnoresQuiet(c: int)
    ensures IgnoresQuiet(Nsocr(), c)
  {
    forall line | Quiet(line)
      ensures LineCtx(Nsocr(), c, line) == c
    {
      NsocrIgnoresChars(c, line, |line|);
      if IsUrcLine(line) {
        UrcLineIsUrc(line);
      }
    }
  }

  /** The line buffer holds all the digits, then something that is none. */
  lemma DescriptorInBuffer(id: nat)
    requires |Dec(id)| <= B_SIZE
    ensures Atoi(BufOf(Dec(id) + BLANK).data) == id
  {
    var data, n := BufOf(Dec(id) + BLANK).data, |Dec(id)|;
    assert data[..n] == Dec(id);
    assert data == Dec(id) + data[n..];
    AtoiOfDec(id, data[n..]);
  }

  lemma DescriptorLine(c: int, id: nat)
    requires |Dec(id)| <= B_SIZE
    ensures IsLine(Dec(id) + BLANK) && CodeOf(Dec(id) + BLANK) == AtTimeout
    ensures LineCtx(Nsocr(), c, Dec(id) + BLANK) == id
  {
    var line := Dec(id) + BLANK;
    DecIsClean(id);
    DigitLine(Dec(id), line);
    NsocrIgnoresChars(c, line, |line|);
    DescriptorInBuffer(id);
  }

  /** Whatever id the modem gives a new socket, of up to ten digits, and whatever other lines
      stand before it, the decoder returns it. */
  lemma DescriptorRoundTrip(id: nat, before: seq<seq<Byte>>, between: seq<seq<Byte>>, rest: seq<Byte>)
    requires |Dec(id)| <= 10 && AllOrdinary(before) && AllQuiet(between)
    ensures var r := Decode(Nsocr(), NO_DESCRIPTOR, OneLineReply(before, Dec(id) + BLANK, between, rest));
            r.code == AtOk && r.ctx == id
  {
    var mid := LinesCtx(Nsocr(), NO_DESCRIPTOR, before);
    DescriptorLine(mid, id);
    NsocrIgnoresQuiet(id);
    QuietLines(Nsocr(), id, between);
    LineDecides(Nsocr(), NO_DESCRIPTOR, mid, id, before, Dec(id) + BLANK, between, rest);
    NsocrIgnoresChars(id, OK, |OK|);
  }

  /** If the modem names no socket, the caller gets -2. */
  lemma NoDescriptor(before: seq<seq<Byte>>, rest: seq<Byte>)
    requires AllQuiet(before)
    ensures var r := Decode(Nsocr(), NO_DESCRIPTOR, Flatten(before) + (OK + rest));
            r.code == AtOk && r.ctx == -2
  {
    NsocrIgnoresQuiet(NO_DESCRIPTOR);
    NoLineDecides(Nsocr(), NO_DESCRIPTOR, before, rest);
    NsocrIgnoresChars(NO_DESCRIPTOR, OK, |OK|);
  }

  // ---------------------------------------------------------------------------
  // NSOST
  // ---------------------------------------------------------------------------

  lemma {:induction false} NsostIgnoresChars(c: NsostCtx, line: seq<Byte>, n: nat)
    requires n <= |line|
    ensures Chars(Nsost(), c, line, n) == c
    decreases n
  {
    if n > 0 {
      NsostIgnoresChars(c, line, n - 1);
    }
  }

  lemma NsostIgnoresQuiet(c: NsostCtx)
    ensures IgnoresQuiet(Nsost(), c)
  {
    forall line | Quiet(line)
      ensures LineCtx(Nsost(), c, line) == c
    {
      NsostIgnoresChars(c, line, |line|);
      if IsUrcLine(line) {
        UrcLineIsUrc(line);
      }
    }
  }

  /** id,length: the id is a single digit. */
  function SentText(id: nat, len: nat): (text: seq<Byte>)
    requires id < 10
    ensures text != [] && IsDigit(text[0])
  {
    [48 + id, 44] + Dec(len)
  }

  /** The third to tenth characters of a line, as the line buffer holds them. */
  lemma BufferTail(line: seq<Byte>, text: seq<Byte>, a: Byte, b: Byte)
    requires |text| <= B_SIZE - 2 && line == [a, b] + text + BLANK
    ensures BufOf(line).data[0] == a && BufOf(line).data[1] == b
    ensures var tail := BufOf(line).data[2..];
            && tail == text + tail[|text|..]
            && (|text| < |tail| ==> tail[|text|] == CR)
  {
    var tail := BufOf(line).data[2..];
    assert forall k :: 0 <= k < |text| ==> line[2 + k] == text[k];
    assert forall k :: 0 <= k < |tail| ==> tail[k] == if 2 + k < |line| then line[2 + k] else 0;
    assert tail[..|text|] == text;
  }

  lemma SentInBuffer(id: nat, len: nat)
    requires id < 10 && |Dec(len)| <= B_SIZE - 2
    ensures var rb := BufOf(SentText(id, len) + BLANK);
            && rb.data[0] == 48 + id && rb.data[1] == COMMA
            && Atoi(rb.data[2..]) == len
  {
    var line := SentText(id, len) + BLANK;
    BufferTail(line, Dec(len), 48 + id, COMMA);
    var tail := BufOf(line).data[2..];
    AtoiOfDec(len, tail[|Dec(len)|..]);
  }

  lemma SentLine(id: nat, len: nat, fd: int)
    requires id < 10 && |Dec(len)| <= B_SIZE - 2
    ensures IsLine(SentText(id, len) + BLANK) && CodeOf(SentText(id, len) + BLANK) == AtTimeout
    ensures LineCtx(Nsost(), NsostCtx(fd, 0), SentText(id, len) + BLANK) == NsostCtx(id, len)
  {
    var line := SentText(id, len) + BLANK;
    DecIsClean(len);
    DigitLine(SentText(id, len), line);
    NsostIgnoresChars(NsostCtx(fd, 0), line, |line|);
    SentInBuffer(id, len);
    assert BufOf(line).size == |line|;
  }

  /** The reply to a datagram sent is read as its socket and the length sent. */
  lemma SentRoundTrip(id: nat, len: nat, fd: int, before: seq<seq<Byte>>, between: seq<seq<Byte>>, rest: seq<Byte>)
    requires id < 10 && |Dec(len)| <= 8 && AllQuiet(before) && AllQuiet(between)
    ensures var r := Decode(Nsost(), NsostCtx(fd, 0), OneLineReply(before, SentText(id, len) + BLANK, between, rest));
            r.code == AtOk && r.ctx == NsostCtx(id, len)
  {
    SentLine(id, len, fd);
    NsostIgnoresQuiet(NsostCtx(fd, 0));
    NsostIgnoresQuiet(NsostCtx(id, len));
    OneLineDecides(Nsost(), NsostCtx(fd, 0), NsostCtx(id, len), before, SentText(id, len) + BLANK, between, rest);
    NsostIgnoresChars(NsostCtx(id, len), OK, |OK|);
  }

  lemma {:induction false} NsostKeeps(c: NsostCtx, lines: seq<seq<Byte>>)
    requires c.len != 0
    ensures LinesCtx(Nsost(), c, lines) == c
    decreases |lines|
  {
    if lines != [] {
      NsostIgnoresChars(c, lines[0], |lines[0]|);
      NsostKeeps(c, lines[1..]);
    }
  }

  /** And once a positive length has been read, no other line before the OK changes it. */
  lemma FirstLengthCounts(id: nat, len: nat, fd: int, before: seq<seq<Byte>>, between: seq<seq<Byte>>, rest: seq<Byte>)
    requires id < 10 && 0 < len && |Dec(len)| <= 8 && AllQuiet(before) && AllOrdinary(between)
    ensures var r := Decode(Nsost(), NsostCtx(fd, 0), OneLineReply(before, SentText(id, len) + BLANK, between, rest));
            r.code == AtOk && r.ctx == NsostCtx(id, len)
  {
    var start, end := NsostCtx(fd, 0), NsostCtx(id, len);
    SentLine(id, len, fd);
    NsostIgnoresQuiet(start);
    QuietLines(Nsost(), start, before);
    NsostKeeps(end, between);
    LineDecides(Nsost(), start, start, end, before, SentText(id, len) + BLANK, between, rest);
    NsostIgnoresChars(end, OK, |OK|);
  }

  // ---------------------------------------------------------------------------
  // CIMI
  // ---------------------------------------------------------------------------

  predicate AllDigits(text: seq<Byte>) {
    forall k :: 0 <= k < |text| ==> IsDigit(text[k])
  }

  function CimiStart(imsi: seq<Byte>): CimiCtx {
    CimiCtx(imsi, 0, false, false)
  }

  /** The identity written into the caller's buffer, and what was there before behind it. */
  function Written(imsi: seq<Byte>, text: seq<Byte>): (after: seq<Byte>)
    requires |text| <= |imsi|
    ensures |after| == |imsi|
  {
    text + imsi[|text|..]
  }

  lemma CimiStores(imsi: seq<Byte>, line: seq<Byte>, n: nat)
    requires n < |line| && n < |imsi| && n + 1 < 0x100 && !Urc(line[..n + 1]) && !IsSpace(line[n])
    requires Chars(Cimi(), CimiStart(imsi), line, n) == CimiCtx(Written(imsi, line[..n]), n, false, false)
    ensures Chars(Cimi(), CimiStart(imsi), line, n + 1) == CimiCtx(Written(imsi, line[..n + 1]), n + 1, false, false)
  {
    assert Written(imsi, line[..n])[n := line[n]] == Written(imsi, line[..n + 1]);
  }

  /** Digits of a line without '+' go into the buffer. */
  lemma {:induction false} CimiChars(imsi: seq<Byte>, line: seq<Byte>, n: nat)
    requires n <= |line| && n <= |imsi| && n < 0x100 && PLUS !in line
    requires forall k :: 0 <= k < n ==> IsDigit(line[k])
    ensures Chars(Cimi(), CimiStart(imsi), line, n) == CimiCtx(Written(imsi, line[..n]), n, false, false)
    decreases n
  {
    if n == 0 {
      assert line[..0] == [] && Written(imsi, []) == imsi;
    } else {
      CimiChars(imsi, line, n - 1);
      assert !Urc(line[..n]);
      CimiStores(imsi, line, n - 1);
    }
  }

  lemma CimiSkips(c: CimiCtx, line: seq<Byte>, n: nat)
    requires n < |line| && Chars(Cimi(), c, line, n) == c && (c.done || IsSpace(line[n]) || Urc(line[..n + 1]))
    ensures Chars(Cimi(), c, line, n + 1) == c
  {
  }

  lemma {:induction false} CimiDone(c: CimiCtx, line: seq<Byte>, n: nat)
    requires c.done && n <= |line|
    ensures Chars(Cimi(), c, line, n) == c
    decreases n
  {
    if n > 0 {
      CimiDone(c, line, n - 1);
    }
  }

  lemma {:induction false} DoneLines(c: CimiCtx, lines: seq<seq<Byte>>)
    requires c.done
    ensures LinesCtx(Cimi(), c, lines) == c
    decreases |lines|
  {
    if lines != [] {
      CimiDone(c, lines[0], |lines[0]|);
      DoneLines(c, lines[1..]);
    }
  }

  lemma CimiBlank(c: CimiCtx)
    requires CimiSettled(c)
    ensures LineCtx(Cimi(), c, BLANK) == c
  {
    assert Chars(Cimi(), c, BLANK, 0) == c;
    CimiSkips(c, BLANK, 0);
    CimiSkips(c, BLANK, 1);
  }

  lemma CimiIgnoresQuiet(c: CimiCtx)
    requires CimiSettled(c)
    ensures IgnoresQuiet(Cimi(), c)
  {
    forall line | Quiet(line)
      ensures LineCtx(Cimi(), c, line) == c
    {
      if IsUrcLine(line) {
        UrcLineDoesNothing(Cimi(), CimiSettled, c, line);
      } else {
        CimiBlank(c);
      }
    }
  }

  lemma CharsOverSpace(c: CimiCtx, line: seq<Byte>, n: nat)
    requires n < |line| && IsSpace(line[n])
    ensures Chars(Cimi(), c, line, n + 1) == Chars(Cimi(), c, line, n)
  {
  }

  /** After the digits come the two characters of the line end, which are spaces. */
  lemma CimiLineChars(imsi: seq<Byte>, text: seq<Byte>, line: seq<Byte>)
    requires |text| <= |imsi| && |text| < 0x100 && AllDigits(text) && line == text + BLANK && PLUS !in line
    ensures Chars(Cimi(), CimiStart(imsi), line, |line|) == CimiCtx(Written(imsi, text), |text|, false, false)
  {
    var n := |text|;
    assert line[..n] == text;
    CimiChars(imsi, line, n);
    assert line[n] == CR && line[n + 1] == LF;
    CharsOverSpace(CimiStart(imsi), line, n);
    CharsOverSpace(CimiStart(imsi), line, n + 1);
  }

  lemma DigitsAreClean(text: seq<Byte>)
    requires AllDigits(text)
    ensures Clean(text)
  {
  }

  lemma IdentityLine(imsi: seq<Byte>, text: seq<Byte>)
    requires 0 < |text| < |imsi| && |text| < 0x100 && AllDigits(text)
    ensures IsLine(text + BLANK) && CodeOf(text + BLANK) == AtTimeout
    ensures LineCtx(Cimi(), CimiStart(imsi), text + BLANK) == CimiCtx(Written(imsi, text + [0]), |text|, true, false)
  {
    var line := text + BLANK;
    DigitsAreClean(text);
    DigitLine(text, line);
    CimiLineChars(imsi, text, line);
    assert Written(imsi, text)[|text| := 0] == Written(imsi, text + [0]);
  }

  lemma IdentityStored(imsi: seq<Byte>, text: seq<Byte>)
    requires |text| < |imsi| && AllDigits(text)
    ensures Written(imsi, text + [0]) == text + [0] + imsi[|text| + 1..]
    ensures CString(Written(imsi, text + [0]), 0) == text
  {
    var after := Written(imsi, text + [0]);
    assert forall k :: 0 <= k < |text| ==> after[k] == text[k];
    assert after[|text|] == 0;
    CStringOf(after, 0, |text|);
    assert after[0..|text|] == text;
  }

  /** An identity that fits the caller's buffer is stored there with its terminator, and the
      rest of the buffer is left alone. */
  lemma IdentityRoundTrip(text: seq<Byte>, imsi: seq<Byte>,
                          before: seq<seq<Byte>>, between: seq<seq<Byte>>, rest: seq<Byte>)
    requires 0 < |text| < |imsi| && |text| < 0x100 && AllDigits(text) && AllQuiet(before) && AllOrdinary(between)
    ensures var r := Decode(Cimi(), CimiStart(imsi), OneLineReply(before, text + BLANK, between, rest));
            && r.code == AtOk && !r.ctx.overrun
            && r.ctx.imsi == text + [0] + imsi[|text| + 1..] && CString(r.ctx.imsi, 0) == text
  {
    var end := CimiCtx(Written(imsi, text + [0]), |text|, true, false);
    IdentityLine(imsi, text);
    CimiIgnoresQuiet(CimiStart(imsi));
    QuietLines(Cimi(), CimiStart(imsi), before);
    DoneLines(end, between);
    LineDecides(Cimi(), CimiStart(imsi), CimiStart(imsi), end, before, text + BLANK, between, rest);
    CimiDone(end, OK, |OK|);
    IdentityStored(imsi, text);
  }

  lemma OkLetters()
    ensures OK[..0] == [] && OK[..1] == [79] && OK[..2] == [79, 75] && !Urc(OK[..1]) && !Urc(OK[..2])
  {
  }

  lemma CimiOfOk(imsi: seq<Byte>)
    requires |imsi| >= 2
    ensures Chars(Cimi(), CimiStart(imsi), OK, |OK|) == CimiCtx(Written(imsi, [79, 75]), 2, false, false)
  {
    OkLetters();
    assert Written(imsi, []) == imsi;
    CimiStores(imsi, OK, 0);
    CimiStores(imsi, OK, 1);
    CharsOverSpace(CimiStart(imsi), OK, 2);
    CharsOverSpace(CimiStart(imsi), OK, 3);
  }

  /** If the modem says OK without an identity, those two letters are taken for one: the caller
      is told that all is well, and finds them in its buffer. */
  lemma MissingIdentityReadsOk(imsi: seq<Byte>, before: seq<seq<Byte>>, rest: seq<Byte>)
    requires |imsi| >= 2 && AllQuiet(before)
    ensures var r := Decode(Cimi(), CimiStart(imsi), Flatten(before) + (OK + rest));
            r.code == AtOk && r.ctx.imsi == [79, 75] + imsi[2..]
  {
    CimiIgnoresQuiet(CimiStart(imsi));
    NoLineDecides(Cimi(), CimiStart(imsi), before, rest);
    CimiOfOk(imsi);
  }

  // An identity of any length.  The index is 8 bits wide, so it never leaves a buffer of 256
  // bytes or more.

  /** After some digits of a line, and whether one of them was written past the buffer. */
  predicate StoredUpTo(c: CimiCtx, size: nat, n: nat) {
    && c.index == n % 0x100 && !c.done && |c.imsi| == size
    && (c.overrun <==> size < n && size < 0x100)
  }

  lemma StoreNext(c: CimiCtx, size: nat, n: nat, b: Byte)
    requires StoredUpTo(c, size, n)
    ensures StoredUpTo(CimiChar(c, b, false, false), size, n + 1)
  {
  }

  lemma {:induction false} DigitsStored(imsi: seq<Byte>, line: seq<Byte>, n: nat)
    requires n <= |line| && PLUS !in line && forall k :: 0 <= k < n ==> IsDigit(line[k])
    ensures StoredUpTo(Chars(Cimi(), CimiStart(imsi), line, n), |imsi|, n)
    decreases n
  {
    if n > 0 {
      DigitsStored(imsi, line, n - 1);
      assert !Urc(line[..n]);
      StoreNext(Chars(Cimi(), CimiStart(imsi), line, n - 1), |imsi|, n - 1, line[n - 1]);
    }
  }

  /** After the end of the line, with the terminator. */
  ghost predicate EndedAfter(c: CimiCtx, size: nat, n: nat) {
    && CimiSettled(c) && (c.overrun <==> size <= n && size < 0x100)
    && (c.done || (c.index == 0 && |c.imsi| == size && n >= 0x100))
  }

  lemma EolStores(c: CimiCtx, size: nat, n: nat)
    requires StoredUpTo(c, size, n) && n > 0
    ensures EndedAfter(CimiEol(c), size, n)
  {
  }

  lemma LongIdentityLine(imsi: seq<Byte>, text: seq<Byte>, line: seq<Byte>)
    requires text != [] && AllDigits(text) && line == text + BLANK
    ensures IsLine(line) && CodeOf(line) == AtTimeout
    ensures EndedAfter(LineCtx(Cimi(), CimiStart(imsi), line), |imsi|, |text|)
  {
    var n := |text|;
    DigitsAreClean(text);
    DigitLine(text, line);
    assert forall k :: 0 <= k < n ==> line[k] == text[k];
    assert line[n] == CR && line[n + 1] == LF;
    DigitsStored(imsi, line, n);
    CharsOverSpace(CimiStart(imsi), line, n);
    CharsOverSpace(CimiStart(imsi), line, n + 1);
    EolStores(Chars(Cimi(), CimiStart(imsi), line, n), |imsi|, n);
  }

  /** If the identity filled the index exactly, the characters of the OK still count as digits;
      they can do no more harm. */
  lemma OkAfterIdentity(c: CimiCtx, size: nat, n: nat)
    requires EndedAfter(c, size, n)
    ensures Chars(Cimi(), c, OK, |OK|).overrun == c.overrun
  {
    assert !Urc(OK[..1]) && !Urc(OK[..2]);
    assert Chars(Cimi(), c, OK, 0) == c;
    assert Chars(Cimi(), c, OK, 1) == CimiChar(c, OK[0], false, false);
    assert Chars(Cimi(), c, OK, 2) == CimiChar(CimiChar(c, OK[0], false, false), OK[1], false, false);
    CharsOverSpace(c, OK, 2);
    CharsOverSpace(c, OK, 3);
  }

  /** For every identity and every buffer: the decoder writes past the buffer exactly if the
      identity leaves no room for its terminator and the index can reach that far. */
  lemma IdentityOverrunsIff(text: seq<Byte>, imsi: seq<Byte>,
                            before: seq<seq<Byte>>, between: seq<seq<Byte>>, rest: seq<Byte>)
    requires text != [] && AllDigits(text) && AllQuiet(before) && AllQuiet(between)
    ensures var r := Decode(Cimi(), CimiStart(imsi), OneLineReply(before, text + BLANK, between, rest));
            r.code == AtOk && (r.ctx.overrun <==> |text| >= |imsi| && |imsi| < 0x100)
  {
    var line := text + BLANK;
    var end := LineCtx(Cimi(), CimiStart(imsi), line);
    LongIdentityLine(imsi, text, line);
    CimiIgnoresQuiet(CimiStart(imsi));
    CimiIgnoresQuiet(end);
    OneLineDecides(Cimi(), CimiStart(imsi), end, before, line, between, rest);
    OkAfterIdentity(end, |imsi|, |text|);
  }
}
