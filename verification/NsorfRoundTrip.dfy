/** A datagram's way through the modem commands: the payload written in hexadecimal, echoed
    in an NSORF reply among blank and unsolicited lines, and decoded again. */
module NsorfRoundTrip {
  import opened Bytes
  import opened Text
  import opened AtCommands
  import opened AtLines
  import opened Numerals
  import opened AtDecoders

  // ---------------------------------------------------------------------------
  // Characters of an ordinary line
  // ---------------------------------------------------------------------------

  /** The context after some characters outside unsolicited lines. */
  ghost function Scan(c: NsorfCtx, s: seq<Byte>): NsorfCtx {
    if s == [] then c
    else
      var n := |s| - 1;
      NsorfChar(Scan(c, s[..n]), s[n], false, IsSpace(s[n]))
  }

  lemma {:induction false} ScanConcat(c: NsorfCtx, x: seq<Byte>, y: seq<Byte>)
    ensures Scan(c, x + y) == Scan(Scan(c, x), y)
  {
    if y == [] {
      assert x + y == x;
    } else {
      var n := |y| - 1;
      ScanConcat(c, x, y[..n]);
      assert (x + y)[..|x + y| - 1] == x + y[..n];
    }
  }

  lemma {:induction false} CharsAreScan(c: NsorfCtx, line: seq<Byte>, n: nat)
    requires n <= |line| && PLUS !in line
    ensures Chars(Nsorf(), c, line, n) == Scan(c, line[..n])
    decreases n
  {
    if n > 0 {
      CharsAreScan(c, line, n - 1);
      assert line[..n][..n - 1] == line[..n - 1];
      assert !Urc(line[..n]);
    } else {
      assert line[..0] == [];
    }
  }

  lemma {:induction false} ScanWhenComplete(c: NsorfCtx, s: seq<Byte>)
    requires c.complete
    ensures Scan(c, s) == c
  {
    if s != [] {
      ScanWhenComplete(c, s[..|s| - 1]);
    }
  }

  // ---------------------------------------------------------------------------
  // Fields
  // ---------------------------------------------------------------------------

  predicate FieldChar(b: Byte) {
    b != 44 && b != 34 && b != 0 && b != 43 && b != 32 && !(9 <= b <= 13)
  }

  predicate FieldText(text: seq<Byte>) {
    |text| < 16 && forall k :: 0 <= k < |text| ==> FieldChar(text[k])
  }

  predicate AtFieldStart(c: NsorfCtx, fieldno: nat) {
    !c.complete && c.fieldno == fieldno && c.fieldindex == 0 && c.field == Zeros(MAX_FIELD_SIZE)
  }

  lemma {:induction false} ScanText(c: NsorfCtx, text: seq<Byte>)
    requires c.fieldno < 4 && AtFieldStart(c, c.fieldno) && FieldText(text)
    ensures Scan(c, text) == c.(field := text + Zeros(MAX_FIELD_SIZE - |text|), fieldindex := |text|)
  {
    if text == [] {
      assert [] + Zeros(MAX_FIELD_SIZE) == Zeros(MAX_FIELD_SIZE);
    } else {
      var n := |text| - 1;
      ScanText(c, text[..n]);
      var before := text[..n] + Zeros(MAX_FIELD_SIZE - n);
      assert before[n := text[n]] == text + Zeros(MAX_FIELD_SIZE - |text|);
    }
  }

  lemma TextOfPadded(text: seq<Byte>, n: nat)
    requires 0 !in text && n > 0
    ensures CString(text + Zeros(n), 0) == text
  {
    var s := text + Zeros(n);
    CStringOf(s, 0, |text|);
    assert s[0..|text|] == text;
  }

  ghost function FieldValue(c: NsorfCtx, text: seq<Byte>): NsorfCtx {
    if c.fieldno == 0 then c.(sockfd := Atoi(text))
    else if c.fieldno == 1 then c.(ip := text)
    else if c.fieldno == 2 then c.(port := Atoi(text))
    else c
  }

  lemma ScanOne(c: NsorfCtx, b: Byte)
    ensures Scan(c, [b]) == NsorfChar(c, b, false, IsSpace(b))
  {
    assert [b][..0] == [];
  }

  /** Text up to a separator; quotes around it are skipped. */
  lemma ScanSeparated(c: NsorfCtx, text: seq<Byte>, quoted: bool)
    requires !Scan(c, text).complete && !c.complete
    ensures Scan(c, if quoted then [QUOTE] + text + [QUOTE, COMMA] else text + [COMMA]) == NsorfComma(Scan(c, text))
  {
    var d := Scan(c, text);
    ScanOne(d, COMMA);
    if quoted {
      ScanOne(c, QUOTE);
      ScanConcat(c, [QUOTE], text);
      ScanOne(d, QUOTE);
      assert [QUOTE, COMMA] == [QUOTE] + [COMMA];
      ScanConcat(d, [QUOTE], [COMMA]);
      ScanConcat(c, [QUOTE] + text, [QUOTE, COMMA]);
    } else {
      ScanConcat(c, text, [COMMA]);
    }
  }

  lemma CommaStores(c: NsorfCtx, d: NsorfCtx, text: seq<Byte>)
    requires c.fieldno < 4 && AtFieldStart(c, c.fieldno) && FieldText(text)
    requires d == c.(field := text + Zeros(MAX_FIELD_SIZE - |text|), fieldindex := |text|)
    ensures NsorfComma(d) == FieldValue(c, text).(fieldno := c.fieldno + 1)
  {
    TextOfPadded(text, MAX_FIELD_SIZE - |text|);
    assert d.field[|text|] == 0;
  }

  /** A short field, quoted or not, is stored where it belongs. */
  lemma ScanField(c: NsorfCtx, text: seq<Byte>, quoted: bool)
    requires c.fieldno < 4 && AtFieldStart(c, c.fieldno) && FieldText(text)
    ensures Scan(c, if quoted then [QUOTE] + text + [QUOTE, COMMA] else text + [COMMA]) ==
            FieldValue(c, text).(fieldno := c.fieldno + 1)
  {
    ScanText(c, text);
    CommaStores(c, Scan(c, text), text);
    ScanSeparated(c, text, quoted);
  }

  // ---------------------------------------------------------------------------
  // The payload
  // ---------------------------------------------------------------------------

  /** d is c with some more payload; the field buffer holds leftovers. */
  predicate Grew(c: NsorfCtx, d: NsorfCtx, payload: seq<Byte>) {
    && |d.field| == MAX_FIELD_SIZE
    && d == c.(data := c.data + payload, received := c.received + |payload|, field := d.field)
  }

  predicate InPayload(c: NsorfCtx) {
    !c.complete && c.fieldno == 4 && c.fieldindex == 0 && |c.field| == MAX_FIELD_SIZE
  }

  lemma ScanHexPair(c: NsorfCtx, b: Byte)
    requires InPayload(c)
    ensures Grew(c, Scan(c, [ToHex(b / 16), ToHex(b % 16)]), [b])
  {
    var x, y := ToHex(b / 16), ToHex(b % 16);
    assert [x, y] == [x] + [y];
    ScanConcat(c, [x], [y]);
    ScanOne(c, x);
    ScanOne(NsorfStore(c, x), y);
    FromHexPairOfHex(b);
  }

  lemma GrewTwice(c: NsorfCtx, d: NsorfCtx, e: NsorfCtx, x: seq<Byte>, y: seq<Byte>)
    requires Grew(c, d, x) && Grew(d, e, y)
    ensures Grew(c, e, x + y)
  {
    assert (c.data + x) + y == c.data + (x + y);
  }

  lemma {:induction false} ScanHex(c: NsorfCtx, payload: seq<Byte>)
    requires InPayload(c)
    ensures Grew(c, Scan(c, Hex(payload)), payload)
  {
    if payload == [] {
      assert c.data + [] == c.data;
    } else {
      var n := |payload| - 1;
      ScanHex(c, payload[..n]);
      var d := Scan(c, Hex(payload[..n]));
      var pair := [ToHex(payload[n] / 16), ToHex(payload[n] % 16)];
      ScanConcat(c, Hex(payload[..n]), pair);
      ScanHexPair(d, payload[n]);
      GrewTwice(c, d, Scan(d, pair), payload[..n], [payload[n]]);
      assert payload[..n] + [payload[n]] == payload;
    }
  }

  lemma ScanPayload(c: NsorfCtx, payload: seq<Byte>)
    requires InPayload(c)
    ensures Grew(c.(complete := true), Scan(c, [QUOTE] + Hex(payload) + [QUOTE, COMMA]), payload)
  {
    ScanHex(c, payload);
    ScanSeparated(c, Hex(payload), true);
  }

  // ---------------------------------------------------------------------------
  // The reply
  // ---------------------------------------------------------------------------

  /** A datagram as the modem reports it. */
  datatype Datagram = Datagram(socket: nat, ip: seq<Byte>, port: nat, payload: seq<Byte>, remaining: nat)

  /** The non-payload fields fit the decoder's field buffer. */
  predicate Fits(d: Datagram) {
    && |Dec(d.socket)| < 16
    && FieldText(d.ip)
    && |Dec(d.port)| < 16
    && |Dec(|d.payload|)| < 16
  }

  /** socket,"ip",port,length, */
  function Header(d: Datagram): seq<Byte> {
    (Dec(d.socket) + [44]) + ([34] + d.ip + [34, 44]) + (Dec(d.port) + [44]) + (Dec(|d.payload|) + [44])
  }

  /** The whole line: header,"payload",remaining */
  function ReplyLine(d: Datagram): seq<Byte> {
    (Header(d) + ([34] + Hex(d.payload) + [34, 44])) + (Dec(d.remaining) + [13, 10])
  }

  lemma DecIsFieldText(n: nat)
    requires |Dec(n)| < MAX_FIELD_SIZE
    ensures FieldText(Dec(n)) && Atoi(Dec(n)) == n
  {
    AtoiOfDec(n, []);
    assert Dec(n) + [] == Dec(n);
  }

  lemma ScanHeader(d: Datagram)
    requires Fits(d)
    ensures Scan(NsorfStart(), Header(d)) == NsorfStart().(sockfd := d.socket, ip := d.ip, port := d.port, fieldno := 4)
  {
    DecIsFieldText(d.socket);
    DecIsFieldText(d.port);
    DecIsFieldText(|d.payload|);
    var c0 := NsorfStart();
    var s0, s1 := Dec(d.socket) + [COMMA], [QUOTE] + d.ip + [QUOTE, COMMA];
    var s2, s3 := Dec(d.port) + [COMMA], Dec(|d.payload|) + [COMMA];
    ScanField(c0, Dec(d.socket), false);
    var c1 := c0.(sockfd := d.socket, fieldno := 1);
    ScanField(c1, d.ip, true);
    var c2 := c1.(ip := d.ip, fieldno := 2);
    ScanField(c2, Dec(d.port), false);
    var c3 := c2.(port := d.port, fieldno := 3);
    ScanField(c3, Dec(|d.payload|), false);
    ScanConcat(c0, s0, s1);
    ScanConcat(c0, s0 + s1, s2);
    ScanConcat(c0, s0 + s1 + s2, s3);
  }

  /** The decoder's context after the reply line. */
  ghost predicate Delivered(c: NsorfCtx, d: Datagram) {
    && c.complete && !c.overrun
    && c.sockfd == d.socket && c.ip == d.ip && c.port == d.port
    && c.data == d.payload && c.received == |d.payload| && c.remaining == 0
  }

  lemma ScanReply(d: Datagram)
    requires Fits(d)
    ensures Delivered(Scan(NsorfStart(), ReplyLine(d)), d)
  {
    ScanHeader(d);
    var c := Scan(NsorfStart(), Header(d));
    var body := [QUOTE] + Hex(d.payload) + [QUOTE, COMMA];
    ScanPayload(c, d.payload);
    assert [] + d.payload == d.payload;
    ScanConcat(NsorfStart(), Header(d), body);
    ScanWhenComplete(Scan(c, body), Dec(d.remaining) + [CR, LF]);
    ScanConcat(NsorfStart(), Header(d) + body, Dec(d.remaining) + [CR, LF]);
  }

  /** No carriage return and no '+'. */
  predicate Clean(s: seq<Byte>) {
    CR !in s && PLUS !in s
  }

  lemma {:induction false} HexIsClean(payload: seq<Byte>)
    ensures Clean(Hex(payload))
  {
    if payload != [] {
      HexIsClean(payload[..|payload| - 1]);
    }
  }

  lemma DecIsClean(n: nat)
    ensures Clean(Dec(n))
  {
    assert forall k :: 0 <= k < |Dec(n)| ==> IsDigit(Dec(n)[k]);
  }

  lemma FieldIsClean(text: seq<Byte>)
    requires FieldText(text)
    ensures Clean(text)
  {
    assert forall k :: 0 <= k < |text| ==> FieldChar(text[k]);
  }

  lemma CleanLine(s: seq<Byte>)
    requires Clean(s)
    ensures IsLine(s + [CR, LF]) && PLUS !in s + [CR, LF]
  {
    var line := s + [CR, LF];
    assert forall k :: 0 <= k < |s| ==> line[k] == s[k];
    EndOfLineIs(line, 0, |line|);
  }

  lemma ReplyIsLine(d: Datagram)
    requires Fits(d)
    ensures IsLine(ReplyLine(d)) && PLUS !in ReplyLine(d) && CodeOf(ReplyLine(d)) == AtTimeout
  {
    DecIsClean(d.socket);
    DecIsClean(d.port);
    DecIsClean(|d.payload|);
    DecIsClean(d.remaining);
    FieldIsClean(d.ip);
    HexIsClean(d.payload);
    var body := Header(d) + ([QUOTE] + Hex(d.payload) + [QUOTE, COMMA]) + Dec(d.remaining);
    CleanLine(body);
    assert ReplyLine(d) == body + [CR, LF];
    assert ReplyLine(d)[0] == Dec(d.socket)[0];
  }

  lemma BlankDoesNothing(c: NsorfCtx)
    requires NsorfSettled(c)
    ensures LineCtx(Nsorf(), c, BLANK) == c
  {
    CharsAreScan(c, BLANK, |BLANK|);
    assert BLANK[..|BLANK|] == [CR] + [LF];
    ScanConcat(c, [CR], [LF]);
    ScanOne(c, CR);
    ScanOne(c, LF);
  }

  lemma NsorfIgnoresQuiet(c: NsorfCtx)
    requires NsorfSettled(c)
    ensures IgnoresQuiet(Nsorf(), c)
  {
    forall line | Quiet(line)
      ensures LineCtx(Nsorf(), c, line) == c
    {
      if IsUrcLine(line) {
        UrcLineDoesNothing(Nsorf(), NsorfSettled, c, line);
      } else {
        BlankDoesNothing(c);
      }
    }
  }

  lemma ReplyDelivers(d: Datagram)
    requires Fits(d)
    ensures Delivered(LineCtx(Nsorf(), NsorfStart(), ReplyLine(d)), d)
  {
    var line := ReplyLine(d);
    ReplyIsLine(d);
    CharsAreScan(NsorfStart(), line, |line|);
    assert line[..|line|] == line;
    ScanReply(d);
  }

  /** The final OK does not concern a complete reply. */
  lemma FinalOk(c: NsorfCtx)
    requires c.complete
    ensures Chars(Nsorf(), c, OK, |OK|) == c
  {
    CharsAreScan(c, OK, |OK|);
    ScanWhenComplete(c, OK[..|OK|]);
  }

  lemma CompleteLine(c: NsorfCtx, line: seq<Byte>, n: nat)
    requires c.complete && n <= |line|
    ensures Chars(Nsorf(), c, line, n) == c
    decreases n
  {
    if n > 0 {
      CompleteLine(c, line, n - 1);
    }
  }

  /** Nor do any other lines. */
  lemma {:induction false} CompleteLines(c: NsorfCtx, lines: seq<seq<Byte>>)
    requires c.complete && c.remaining == 0
    ensures LinesCtx(Nsorf(), c, lines) == c
    decreases |lines|
  {
    if lines != [] {
      CompleteLine(c, lines[0], |lines[0]|);
      CompleteLines(c, lines[1..]);
    }
  }

  /** The input a reader sees: the reply line with blank or unsolicited lines before it, the final
      OK with whatever lines before it, then anything. */
  function Reply(d: Datagram, before: seq<seq<Byte>>, between: seq<seq<Byte>>, rest: seq<Byte>): seq<Byte> {
    OneLineReply(before, ReplyLine(d), between, rest)
  }

  /** For every datagram, decoding the reply that carries it succeeds, and returns exactly
      its payload, length, socket, address and port, having consumed through the OK. */
  lemma RoundTrip(d: Datagram, before: seq<seq<Byte>>, between: seq<seq<Byte>>, rest: seq<Byte>)
    requires Fits(d) && AllQuiet(before) && AllOrdinary(between)
    ensures var r := Decode(Nsorf(), NsorfStart(), Reply(d, before, between, rest));
            && r.code == AtOk
            && Delivered(r.ctx, d)
            && r.consumed + |rest| == |Reply(d, before, between, rest)|
  {
    var c := LineCtx(Nsorf(), NsorfStart(), ReplyLine(d));
    ReplyIsLine(d);
    ReplyDelivers(d);
    NsorfIgnoresQuiet(NsorfStart());
    QuietLines(Nsorf(), NsorfStart(), before);
    CompleteLines(c, between);
    LineDecides(Nsorf(), NsorfStart(), NsorfStart(), c, before, ReplyLine(d), between, rest);
    FinalOk(c);
  }

  lemma {:induction false} DecLength(n: nat, digits: nat, limit: nat)
    requires digits > 0 && limit == Pow10(digits) && n < limit
    ensures |Dec(n)| <= digits
    decreases n
  {
    if n >= 10 {
      DecLength(n / 10, digits - 1, Pow10(digits - 1));
    }
  }

  function Pow10(n: nat): nat {
    if n == 0 then 1 else 10 * Pow10(n - 1)
  }

  /** Numbers that fit the modem's 32-bit fields fit the decoder's. */
  lemma MachineNumbersFit(d: Datagram)
    requires d.socket < 0x8000_0000 && d.port < 0x8000_0000 && |d.payload| < 0x8000_0000 && FieldText(d.ip)
    ensures Fits(d)
  {
    assert Pow10(10) == 10000000000;
    DecLength(d.socket, 10, 10000000000);
    DecLength(d.port, 10, 10000000000);
    DecLength(|d.payload|, 10, 10000000000);
  }
}
