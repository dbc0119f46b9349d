/** Sentences as text: a printer for NMEA 0183 sentences (section 5.3 of NMEA 0183), the
    proof that nmea_parse inverts it, and what the checksum catches. */
module NmeaSentences {
  import opened Bytes
  import opened Text
  import opened Separated
  import opened Nmea
  import ShiftRegister

  predicate Ordinary(b: Byte) {
    32 <= b <= 126 && b != 36 && b != 42 && b != 44
  }

  /** The fields with commas between them. */
  function Body(fields: seq<seq<Byte>>): (text: seq<Byte>)
    requires fields != []
  {
    Join(fields, 44)
  }

  function Parts(text: seq<Byte>): (parts: seq<seq<Byte>>)
    ensures parts != []
  {
    Split(text, 44)
  }

  function XorAll(text: seq<Byte>): (sum: Byte) {
    if text == [] then 0
    else
      var n := |text| - 1;
      BitXorByte(XorAll(text[..n]), text[n]);
      BitXor(XorAll(text[..n]), text[n])
  }

  /** A body framed by preamble, checksum and line end. */
  function Frame(body: seq<Byte>): (sentence: seq<Byte>)
    ensures |sentence| == |body| + 6
  {
    [36] + body + [42, ToHexChar(XorAll(body) / 16), ToHexChar(XorAll(body) % 16), 13, 10]
  }

  /** A complete sentence. */
  function Print(fields: seq<seq<Byte>>): (sentence: seq<Byte>)
    requires fields != []
  {
    Frame(Body(fields))
  }

  function Strings(after: seq<Byte>, fields: seq<nat>): (texts: seq<seq<Byte>>)
    ensures |texts| == |fields|
  {
    seq(|fields|, k requires 0 <= k < |fields| => CString(after, fields[k]))
  }

  // ---------------------------------------------------------------------------
  // What nmea_parse finds between the preamble and the end of the sentence
  // ---------------------------------------------------------------------------

  /** The only preamble among the first n bytes is at p. */
  ghost predicate OnePreamble(buf: seq<Byte>, p: nat, n: nat) {
    && p < n <= |buf|
    && forall k :: 0 <= k < n ==> (buf[k] == NMEA_PREAMBLE <==> k == p)
  }

  lemma InSentenceIffAfter(buf: seq<Byte>, p: nat, n: nat, k: nat)
    requires OnePreamble(buf, p, n) && k <= n
    ensures InSentence(buf, k) <==> p < k
  {
    if p < k {
      assert buf[..k][p] == NMEA_PREAMBLE;
    }
  }

  lemma {:induction false} SumIsXorAll(buf: seq<Byte>, p: nat, n: nat)
    requires OnePreamble(buf, p, n)
    ensures Sum(buf, n) == XorAll(buf[p + 1..n])
    decreases n
  {
    if p + 1 < n {
      SumIsXorAll(buf, p, n - 1);
      InSentenceIffAfter(buf, p, n, n - 1);
      assert buf[p + 1..n][..n - 1 - (p + 1)] == buf[p + 1..n - 1];
    }
  }

  /** Part k of the text is where the k-th opened field starts, and is followed by a
      separator unless it is the last. */
  ghost predicate Located(buf: seq<Byte>, starts: seq<nat>, parts: seq<seq<Byte>>, n: nat, k: nat)
    requires k < |starts| == |parts| && n <= |buf|
  {
    var stop := starts[k] + |parts[k]|;
    && stop <= n
    && buf[starts[k]..stop] == parts[k]
    && FIELD_SEPARATOR !in parts[k]
    && (if k == |starts| - 1 then stop == n else stop < n && buf[stop] == FIELD_SEPARATOR)
  }

  ghost predicate AllLocated(buf: seq<Byte>, starts: seq<nat>, parts: seq<seq<Byte>>, n: nat, p: nat)
    requires n <= |buf|
  {
    && |starts| == |parts| > 0
    && (forall k :: 0 <= k < |starts| ==> p < starts[k])
    && (forall k :: 0 <= k < |starts| ==> Located(buf, starts, parts, n, k))
  }

  lemma LocateSeparator(buf: seq<Byte>, starts: seq<nat>, parts: seq<seq<Byte>>, n: nat, p: nat)
    requires p < n < |buf| && buf[n] == FIELD_SEPARATOR && AllLocated(buf, starts, parts, n, p)
    ensures AllLocated(buf, starts + [n + 1], parts + [[]], n + 1, p)
  {
    var starts', parts', m := starts + [n + 1], parts + [[]], n + 1;
    forall k | 0 <= k < |starts'|
      ensures Located(buf, starts', parts', m, k)
    {
      if k < |starts| {
        assert Located(buf, starts, parts, n, k);
      } else {
        assert buf[n + 1..n + 1] == [];
      }
    }
  }

  lemma LocatePlain(buf: seq<Byte>, starts: seq<nat>, parts: seq<seq<Byte>>, n: nat, p: nat)
    requires p < n < |buf| && buf[n] != FIELD_SEPARATOR && AllLocated(buf, starts, parts, n, p)
    ensures AllLocated(buf, starts, parts[|parts| - 1 := parts[|parts| - 1] + [buf[n]]], n + 1, p)
  {
    var last := |parts| - 1;
    var parts', m := parts[last := parts[last] + [buf[n]]], n + 1;
    forall k | 0 <= k < |starts|
      ensures Located(buf, starts, parts', m, k)
    {
      assert Located(buf, starts, parts, n, k);
      if k == last {
        assert buf[starts[last]..n] + [buf[n]] == buf[starts[last]..n + 1];
      }
    }
  }

  lemma LocateNext(buf: seq<Byte>, starts: seq<nat>, parts: seq<seq<Byte>>, n: nat, p: nat)
    requires p < n < |buf| && AllLocated(buf, starts, parts, n, p)
    ensures AllLocated(buf, if buf[n] == FIELD_SEPARATOR then starts + [n + 1] else starts,
                       SplitMore(parts, buf[n], FIELD_SEPARATOR), n + 1, p)
  {
    if buf[n] == FIELD_SEPARATOR {
      LocateSeparator(buf, starts, parts, n, p);
    } else {
      LocatePlain(buf, starts, parts, n, p);
    }
  }

  lemma OpenedNext(buf: seq<Byte>, p: nat, n: nat)
    requires OnePreamble(buf, p, n + 1) && p < n
    ensures Opened(buf, n + 1) == if buf[n] == FIELD_SEPARATOR then Opened(buf, n) + [n + 1] else Opened(buf, n)
  {
    InSentenceIffAfter(buf, p, n + 1, n);
  }

  lemma PartsNext(buf: seq<Byte>, from: nat, to: nat)
    requires from <= to < |buf|
    ensures Parts(buf[from..to + 1]) == SplitMore(Parts(buf[from..to]), buf[to], FIELD_SEPARATOR)
  {
    SplitSnoc(buf[from..to], buf[to], FIELD_SEPARATOR);
    assert buf[from..to] + [buf[to]] == buf[from..to + 1];
  }

  lemma LocatedNext(buf: seq<Byte>, p: nat, n: nat)
    requires OnePreamble(buf, p, n + 1) && p < n
    requires AllLocated(buf, Opened(buf, n), Parts(buf[p + 1..n]), n, p)
    ensures AllLocated(buf, Opened(buf, n + 1), Parts(buf[p + 1..n + 1]), n + 1, p)
  {
    LocateNext(buf, Opened(buf, n), Parts(buf[p + 1..n]), n, p);
    OpenedNext(buf, p, n);
    PartsNext(buf, p + 1, n);
  }

  lemma LocatedFirst(buf: seq<Byte>, p: nat)
    requires OnePreamble(buf, p, p + 1)
    ensures AllLocated(buf, Opened(buf, p + 1), Parts(buf[p + 1..p + 1]), p + 1, p)
  {
    InSentenceIffAfter(buf, p, p + 1, p);
    assert Opened(buf, p + 1) == [p + 1];
    assert buf[p + 1..p + 1] == [];
    assert Located(buf, [p + 1], [[]], p + 1, 0);
  }

  /** The fields opened between the preamble and position n are the parts of the text there. */
  lemma {:induction false} OpenedIsSplit(buf: seq<Byte>, p: nat, n: nat)
    requires OnePreamble(buf, p, n)
    ensures AllLocated(buf, Opened(buf, n), Parts(buf[p + 1..n]), n, p)
    decreases n
  {
    if n == p + 1 {
      LocatedFirst(buf, p);
    } else {
      OpenedIsSplit(buf, p, n - 1);
      LocatedNext(buf, p, n - 1);
    }
  }

  lemma ClearedInside(buf: seq<Byte>, p: nat, start: nat, stop: nat)
    requires |buf| >= MAX_NMEA_BUFFER && SentenceEnd(buf) < MAX_NMEA_BUFFER
    requires LastNul(buf) == SentenceEnd(buf) && p < start <= stop <= SentenceEnd(buf)
    requires FIELD_SEPARATOR !in buf[start..stop]
    ensures Cleared(buf)[start..stop] == buf[start..stop]
    ensures forall k :: start <= k < stop ==> Cleared(buf)[k] != 0
  {
    forall k | start <= k < stop
      ensures Cleared(buf)[k] == buf[k] != 0
    {
      assert buf[start..stop][k - start] == buf[k];
    }
  }

  lemma FieldIsPart(buf: seq<Byte>, p: nat, starts: seq<nat>, parts: seq<seq<Byte>>, k: nat)
    requires |buf| >= MAX_NMEA_BUFFER && SentenceEnd(buf) < MAX_NMEA_BUFFER
    requires OnePreamble(buf, p, SentenceEnd(buf)) && LastNul(buf) == SentenceEnd(buf)
    requires k < |starts| == |parts| && p < starts[k] && Located(buf, starts, parts, SentenceEnd(buf), k)
    ensures starts[k] + |parts[k]| < |buf| && Cleared(buf)[starts[k] + |parts[k]|] == 0
    ensures CString(Cleared(buf), starts[k]) == parts[k]
  {
    var e := SentenceEnd(buf);
    var start, stop := starts[k], starts[k] + |parts[k]|;
    if stop < e {
      InSentenceIffAfter(buf, p, e, stop);
    }
    ClearedInside(buf, p, start, stop);
    CStringOf(Cleared(buf), start, stop);
  }

  lemma FieldsWhenTerminated(buf: seq<Byte>, p: nat)
    requires |buf| >= MAX_NMEA_BUFFER && SentenceEnd(buf) < MAX_NMEA_BUFFER
    requires OnePreamble(buf, p, SentenceEnd(buf))
    ensures Fields(buf) == Opened(buf, SentenceEnd(buf)) && LastNul(buf) == SentenceEnd(buf)
  {
    InSentenceIffAfter(buf, p, SentenceEnd(buf), SentenceEnd(buf));
  }

  ghost predicate ReadsAs(after: seq<Byte>, at: nat, text: seq<Byte>) {
    && at + |text| < |after|
    && after[at + |text|] == 0
    && CString(after, at) == text
  }

  /** The sentence ends inside the buffer, and text is what lies between its one preamble
      and its end. */
  ghost predicate Encloses(buf: seq<Byte>, p: nat, text: seq<Byte>) {
    && |buf| >= MAX_NMEA_BUFFER
    && SentenceEnd(buf) < MAX_NMEA_BUFFER
    && OnePreamble(buf, p, SentenceEnd(buf))
    && text == buf[p + 1..SentenceEnd(buf)]
  }

  /** Each field of a sentence with one preamble is terminated in place, and reads as the
      text between two separators. */
  lemma FieldsAreParts(buf: seq<Byte>, p: nat, text: seq<Byte>)
    requires Encloses(buf, p, text)
    ensures |Fields(buf)| == |Parts(text)|
    ensures forall k :: 0 <= k < |Fields(buf)| ==> ReadsAs(Cleared(buf), Fields(buf)[k], Parts(text)[k])
  {
    var e := SentenceEnd(buf);
    var starts, parts := Opened(buf, e), Parts(text);
    FieldsWhenTerminated(buf, p);
    OpenedIsSplit(buf, p, e);
    forall k | 0 <= k < |starts|
      ensures ReadsAs(Cleared(buf), starts[k], parts[k])
    {
      assert Located(buf, starts, parts, e, k);
      FieldIsPart(buf, p, starts, parts, k);
    }
  }

  lemma StringsAre(after: seq<Byte>, fields: seq<nat>, parts: seq<seq<Byte>>)
    requires |fields| == |parts| && forall k :: 0 <= k < |fields| ==> ReadsAs(after, fields[k], parts[k])
    ensures Strings(after, fields) == parts
  {
    forall k | 0 <= k < |fields|
      ensures Strings(after, fields)[k] == parts[k]
    {
      assert ReadsAs(after, fields[k], parts[k]);
    }
  }

  // ---------------------------------------------------------------------------
  // Round trips
  // ---------------------------------------------------------------------------

  predicate Plain(body: seq<Byte>) {
    forall j :: 0 <= j < |body| ==> body[j] == FIELD_SEPARATOR || Ordinary(body[j])
  }

  predicate PlainFields(fields: seq<seq<Byte>>) {
    fields != [] && forall k :: 0 <= k < |fields| ==> Plain(fields[k]) && FIELD_SEPARATOR !in fields[k]
  }

  lemma {:induction false} JoinIsPlain(fields: seq<seq<Byte>>)
    requires PlainFields(fields)
    ensures Plain(Body(fields))
  {
    var n := |fields| - 1;
    if n > 0 {
      JoinIsPlain(fields[..n]);
    }
  }

  /** The buffer starts with a framed body, and something follows. */
  ghost predicate Holds(buf: seq<Byte>, body: seq<Byte>) {
    && |buf| >= MAX_NMEA_BUFFER
    && |Frame(body)| <= 254
    && Frame(body) <= buf
  }

  /** The buffer seen from the outside: body between two marks, then two characters. */
  ghost predicate Layout(buf: seq<Byte>, body: seq<Byte>, e: nat) {
    && e == 1 + |body| && e + 2 < |buf| && e < MAX_NMEA_BUFFER <= |buf|
    && buf[0] == NMEA_PREAMBLE && buf[1..e] == body && buf[e] == NMEA_CHECKSUM
  }

  lemma FrameLayout(buf: seq<Byte>, body: seq<Byte>, high: Byte, low: Byte, frame: seq<Byte>)
    requires frame == [NMEA_PREAMBLE] + body + [NMEA_CHECKSUM, high, low, CR, LF]
    requires |frame| <= MAX_NMEA_BUFFER <= |buf| && frame <= buf
    ensures Layout(buf, body, 1 + |body|) && buf[2 + |body|] == high && buf[3 + |body|] == low
  {
    assert frame[1..1 + |body|] == body;
    assert buf[1..1 + |body|] == frame[1..1 + |body|];
  }

  lemma HoldsLayout(buf: seq<Byte>, body: seq<Byte>)
    requires Holds(buf, body)
    ensures Layout(buf, body, 1 + |body|)
    ensures buf[2 + |body|] == ToHexChar(XorAll(body) / 16) && buf[3 + |body|] == ToHexChar(XorAll(body) % 16)
  {
    FrameLayout(buf, body, ToHexChar(XorAll(body) / 16), ToHexChar(XorAll(body) % 16), Frame(body));
  }

  lemma BodyEnd(buf: seq<Byte>, body: seq<Byte>, e: nat)
    requires Layout(buf, body, e)
    requires forall j :: 0 <= j < |body| ==> body[j] != NMEA_PREAMBLE && !IsTerminator(body[j])
    ensures SentenceEnd(buf) == e && OnePreamble(buf, 0, e) && ChecksumMark(buf) == e && Sum(buf, e) == XorAll(body)
  {
    forall k | 1 <= k < e
      ensures buf[k] != NMEA_PREAMBLE && !IsTerminator(buf[k])
    {
      assert buf[k] == body[k - 1];
    }
    EndFrom(buf, 1, e);
    SumIsXorAll(buf, 0, e);
  }

  lemma LayoutEnd(buf: seq<Byte>, body: seq<Byte>, e: nat)
    requires Layout(buf, body, e) && Plain(body)
    ensures SentenceEnd(buf) == e && OnePreamble(buf, 0, e) && ChecksumMark(buf) == e
    ensures InSentence(buf, e) && AllPrintable(buf, e) && Sum(buf, e) == XorAll(body)
  {
    BodyEnd(buf, body, e);
    forall k | 0 <= k < e && InSentence(buf, k)
      ensures Printable(buf[k])
    {
      InSentenceIffAfter(buf, 0, e, k);
      assert buf[k] == body[k - 1];
    }
    InSentenceIffAfter(buf, 0, e, e);
  }

  /** A printed sentence that fits the buffer, whatever follows it, is accepted. */
  lemma PrintedIsValid(buf: seq<Byte>, fields: seq<seq<Byte>>)
    requires PlainFields(fields) && Holds(buf, Body(fields))
    ensures LookaheadInBounds(buf) && Valid(buf)
  {
    JoinIsPlain(fields);
    HoldsLayout(buf, Body(fields));
    LayoutEnd(buf, Body(fields), 1 + |Body(fields)|);
  }

  lemma PrintedEncloses(buf: seq<Byte>, fields: seq<seq<Byte>>)
    requires PlainFields(fields) && Holds(buf, Body(fields))
    ensures Encloses(buf, 0, Body(fields)) && SentenceEnd(buf) + 1 < |buf|
  {
    JoinIsPlain(fields);
    HoldsLayout(buf, Body(fields));
    LayoutEnd(buf, Body(fields), 1 + |Body(fields)|);
  }

  /** Parsing undoes printing: the fields of a printed sentence come back, each
      terminated in place. */
  lemma ParseOfPrint(buf: seq<Byte>, fields: seq<seq<Byte>>)
    requires PlainFields(fields) && Holds(buf, Body(fields))
    ensures |Fields(buf)| == |fields| && Strings(Cleared(buf), Fields(buf)) == fields
    ensures forall k :: 0 <= k < |fields| ==> ReadsAs(Cleared(buf), Fields(buf)[k], fields[k])
    ensures |fields| <= 64 ==> FieldsInBounds(buf)
  {
    PrintedEncloses(buf, fields);
    SplitOfJoin(fields, FIELD_SEPARATOR);
    FieldsAreParts(buf, 0, Body(fields));
    StringsAre(Cleared(buf), Fields(buf), fields);
  }

  /** Printing undoes parsing: for any terminated sentence with one preamble, joining the
      fields gives back the text between the preamble and the end. */
  lemma JoinOfParse(buf: seq<Byte>, p: nat, text: seq<Byte>)
    requires Encloses(buf, p, text)
    ensures Strings(Cleared(buf), Fields(buf)) != []
    ensures Body(Strings(Cleared(buf), Fields(buf))) == text
  {
    FieldsAreParts(buf, p, text);
    StringsAre(Cleared(buf), Fields(buf), Parts(text));
    JoinOfSplit(text, FIELD_SEPARATOR);
  }

  lemma FrameOf(buf: seq<Byte>, p: nat, e: nat)
    requires p < e && e + 2 < |buf| && buf[p] == NMEA_PREAMBLE && buf[e] == NMEA_CHECKSUM
    requires buf[e + 1] == ToHexChar(XorAll(buf[p + 1..e]) / 16) && buf[e + 2] == ToHexChar(XorAll(buf[p + 1..e]) % 16)
    ensures Frame(buf[p + 1..e]) == buf[p..e + 3] + [CR, LF]
  {
    assert buf[p..e + 3] == [buf[p]] + buf[p + 1..e] + [buf[e], buf[e + 1], buf[e + 2]];
  }

  lemma FrameOfValid(buf: seq<Byte>, p: nat, text: seq<Byte>)
    requires Encloses(buf, p, text) && LookaheadInBounds(buf) && Valid(buf)
    requires buf[SentenceEnd(buf)] == NMEA_CHECKSUM
    ensures Frame(text) == buf[p..SentenceEnd(buf) + 3] + [CR, LF]
  {
    var e := SentenceEnd(buf);
    assert ChecksumMark(buf) == e;
    SumIsXorAll(buf, p, e);
    FrameOf(buf, p, e);
  }

  /** And if the sentence was accepted with a checksum, it is the one the printer
      writes. */
  lemma PrintOfParse(buf: seq<Byte>, p: nat, text: seq<Byte>)
    requires Encloses(buf, p, text) && LookaheadInBounds(buf) && Valid(buf)
    requires buf[SentenceEnd(buf)] == NMEA_CHECKSUM
    ensures Strings(Cleared(buf), Fields(buf)) != []
    ensures Print(Strings(Cleared(buf), Fields(buf))) == buf[p..SentenceEnd(buf) + 3] + [CR, LF]
  {
    JoinOfParse(buf, p, text);
    FrameOfValid(buf, p, text);
  }

  // ---------------------------------------------------------------------------
  // Exactly which sentences are accepted, in characters
  // ---------------------------------------------------------------------------

  lemma HexCharIs(val: nat, c: Byte)
    requires val < 16
    ensures c == ToHexChar(val) <==> HexDigit(c, val)
  {
  }

  lemma HexPairIs(sum: Byte, high: Byte, low: Byte)
    ensures high == ToHexChar(sum / 16) && low == ToHexChar(sum % 16) <==> HexPair(high, low, sum)
  {
    HexCharIs(sum / 16, high);
    HexCharIs(sum % 16, low);
  }

  /** The first terminator behind the first byte is at e, and the one preamble before it at p. */
  ghost predicate Delimits(buf: seq<Byte>, p: nat, e: nat) {
    && p < e < 254 <= |buf| && 0 < e
    && (forall k :: 1 <= k < e ==> buf[k] != 42 && buf[k] != 13 && buf[k] != 10 && buf[k] != 0)
    && (forall k :: 0 <= k < e ==> (buf[k] == 36 <==> k == p))
  }

  lemma DelimitedScan(buf: seq<Byte>, p: nat, e: nat)
    requires Delimits(buf, p, e) && (buf[e] == 42 || buf[e] == 13 || buf[e] == 10 || buf[e] == 0)
    ensures SentenceEnd(buf) == e && OnePreamble(buf, p, e)
    ensures InSentence(buf, e) && Sum(buf, e) == XorAll(buf[p + 1..e])
    ensures AllPrintable(buf, e) <==> forall k :: p < k < e ==> 32 <= buf[k] <= 126
  {
    EndFrom(buf, 1, e);
    SumIsXorAll(buf, p, e);
    InSentenceIffAfter(buf, p, e, e);
    forall k: nat | k < e
      ensures InSentence(buf, k) <==> p < k
    {
      InSentenceIffAfter(buf, p, e, k);
    }
  }

  /** A sentence with a checksum mark is accepted exactly if its body is printable and the two
      characters behind the mark are the digits of the exclusive-or of the body. */
  lemma MarkedIsValidIff(buf: seq<Byte>, p: nat, e: nat)
    requires Delimits(buf, p, e) && buf[e] == 42 && e + 2 < |buf|
    ensures LookaheadInBounds(buf)
    ensures Valid(buf) <==>
            && (forall k :: p < k < e ==> 32 <= buf[k] <= 126)
            && HexPair(buf[e + 1], buf[e + 2], XorAll(buf[p + 1..e]))
  {
    DelimitedScan(buf, p, e);
    HexPairIs(XorAll(buf[p + 1..e]), buf[e + 1], buf[e + 2]);
  }

  /** One without a mark is accepted exactly if its body is printable. */
  lemma UnmarkedIsValidIff(buf: seq<Byte>, p: nat, e: nat)
    requires Delimits(buf, p, e) && (buf[e] == 13 || buf[e] == 10 || buf[e] == 0) && buf[0] != 42
    ensures LookaheadInBounds(buf)
    ensures Valid(buf) <==> forall k :: p < k < e ==> 32 <= buf[k] <= 126
  {
    DelimitedScan(buf, p, e);
  }

  /** One bit of every character. */
  function Column(text: seq<Byte>, i: nat): (bits: seq<bool>)
    requires i < 8
    ensures |bits| == |text|
  {
    seq(|text|, k requires 0 <= k < |text| => LowBits(text[k], 8)[i])
  }

  /** The exclusive-or of a text: each bit is set exactly if it is set in an odd number of the
      characters. */
  lemma {:induction false} XorAllIsColumnParity(text: seq<Byte>, i: nat)
    requires i < 8
    ensures LowBits(XorAll(text), 8)[i] <==> ShiftRegister.Odd(Column(text, i))
  {
    if text == [] {
      ZeroBits(8, i);
    } else {
      var n := |text| - 1;
      XorAllIsColumnParity(text[..n], i);
      LowBitsOfXor(XorAll(text[..n]), text[n], 8);
      ParitySnoc(Column(text[..n], i), LowBits(text[n], 8)[i]);
      assert Column(text, i) == Column(text[..n], i) + [LowBits(text[n], 8)[i]];
    }
  }

  lemma ParitySnoc(bits: seq<bool>, b: bool)
    ensures ShiftRegister.Odd(bits + [b]) <==> ShiftRegister.Odd(bits) != b
  {
    assert (bits + [b])[..|bits|] == bits;
  }

  lemma {:induction false} ZeroBits(n: nat, i: nat)
    requires i < n
    ensures !LowBits(0, n)[i]
  {
    if i > 0 {
      ZeroBits(n - 1, i - 1);
    }
  }

  // ---------------------------------------------------------------------------
  // Talker and type
  // ---------------------------------------------------------------------------

  lemma {:induction false} StringFrom(after: seq<Byte>, at: nat, text: seq<Byte>, n: nat)
    requires at <= |after| && CString(after, at) == text && n <= |text|
    ensures at + n <= |after| && CString(after, at + n) == text[n..]
    ensures after[at..at + n] == text[..n]
  {
    if n > 0 {
      StringFrom(after, at, text, n - 1);
      assert CString(after, at + n - 1) == [after[at + n - 1]] + CString(after, at + n);
    }
  }

  /** The parser takes talker and type from the first field: a P and the rest, or two characters
      and the rest. */
  lemma TalkerOfPrint(buf: seq<Byte>, fields: seq<seq<Byte>>)
    requires PlainFields(fields) && Holds(buf, Body(fields)) && |fields[0]| >= 2
    ensures |Fields(buf)| == |fields| && Fields(buf)[0] + 1 < |buf|
    ensures var s := SentenceOf(Cleared(buf), Fields(buf));
            && (fields[0][0] == 80 ==>
                  s.talker == [80] && s.typeAt == 2 && CString(Cleared(buf), 2) == fields[0][1..])
            && (fields[0][0] != 80 ==>
                  s.talker == fields[0][..2] && s.typeAt == 3 && CString(Cleared(buf), 3) == fields[0][2..])
  {
    var after, first := Cleared(buf), fields[0];
    ParseOfPrint(buf, fields);
    assert ReadsAs(after, Fields(buf)[0], first);
    FirstFieldAt(buf, fields);
    StringFrom(after, 1, first, 1);
    StringFrom(after, 1, first, 2);
    assert after[1..3] == [after[1], after[2]];
  }

  lemma {:induction false} FirstOpened(buf: seq<Byte>, p: nat, n: nat)
    requires OnePreamble(buf, p, n)
    ensures Opened(buf, n) != [] && Opened(buf, n)[0] == p + 1
    decreases n
  {
    InSentenceIffAfter(buf, p, n, n - 1);
    if p + 1 < n {
      FirstOpened(buf, p, n - 1);
    }
  }

  lemma FirstFieldAt(buf: seq<Byte>, fields: seq<seq<Byte>>)
    requires PlainFields(fields) && Holds(buf, Body(fields))
    ensures Fields(buf) != [] && Fields(buf)[0] == 1
  {
    PrintedEncloses(buf, fields);
    FieldsWhenTerminated(buf, 0);
    FirstOpened(buf, 0, SentenceEnd(buf));
  }

  // ---------------------------------------------------------------------------
  // What the checksum catches
  // ---------------------------------------------------------------------------

  lemma {:induction false} XorAllSeesOneChange(text: seq<Byte>, j: nat, c: Byte)
    requires j < |text| && text[j] != c
    ensures XorAll(text[j := c]) != XorAll(text)
  {
    var n := |text| - 1;
    var other := text[j := c];
    if j < n {
      assert other[..n] == text[..n][j := c];
      XorAllSeesOneChange(text[..n], j, c);
      BitXorCommutes(XorAll(text[..n]), text[n]);
      BitXorCommutes(XorAll(other[..n]), text[n]);
      if BitXor(text[n], XorAll(text[..n])) == BitXor(text[n], XorAll(other[..n])) {
        BitXorInjective(text[n], XorAll(text[..n]), XorAll(other[..n]));
      }
    } else {
      assert other[..n] == text[..n];
      if BitXor(XorAll(text[..n]), text[n]) == BitXor(XorAll(text[..n]), c) {
        BitXorInjective(XorAll(text[..n]), text[n], c);
      }
    }
  }

  lemma HexCharsDetermineByte(x: Byte, y: Byte)
    requires ToHexChar(x / 16) == ToHexChar(y / 16) && ToHexChar(x % 16) == ToHexChar(y % 16)
    ensures x == y
  {
    HexCharsDiffer(x / 16, y / 16);
    HexCharsDiffer(x % 16, y % 16);
  }

  lemma HexCharsDiffer(x: nat, y: nat)
    requires x < 16 && y < 16 && ToHexChar(x) == ToHexChar(y)
    ensures x == y
  {
  }

  /** A printed sentence in which one character between the preamble and the checksum mark
      was replaced, by anything but a preamble or a terminator, is rejected. */
  lemma OneWrongCharacterIsRejected(buf: seq<Byte>, fields: seq<seq<Byte>>, j: nat, c: Byte)
    requires PlainFields(fields) && Holds(buf, Body(fields))
    requires j < |Body(fields)| && c != buf[1 + j] && c != NMEA_PREAMBLE && !IsTerminator(c)
    ensures LookaheadInBounds(buf[1 + j := c]) && !Valid(buf[1 + j := c])
  {
    var body := Body(fields);
    var e, bad, badBody := 1 + |body|, buf[1 + j := c], body[j := c];
    JoinIsPlain(fields);
    HoldsLayout(buf, body);
    assert bad[1..e] == badBody;
    BodyEnd(bad, badBody, e);
    XorAllSeesOneChange(body, j, c);
    if ToHexChar(XorAll(badBody) / 16) == bad[e + 1] && ToHexChar(XorAll(badBody) % 16) == bad[e + 2] {
      HexCharsDetermineByte(XorAll(badBody), XorAll(body));
    }
  }
}
