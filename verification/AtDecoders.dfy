/** The reply decoders of Firmware/src/at_commands.c that return data: NSOCR, NSOST, NSORF
    and CIMI, each a pair of callbacks for decode_input. */
module AtDecoders {
  import opened Bytes
  import opened Text
  import opened AtCommands
  import opened AtLines
  import opened Numerals

  const QUOTE: Byte := 34
  const MAX_FIELD_SIZE := 16

  // ---------------------------------------------------------------------------
  // NSOCR: the descriptor of a new socket
  // ---------------------------------------------------------------------------

  function NsocrEol(sockfd: int, rb: Buf, urc: bool): int {
    if !urc && rb.size > 2 then Atoi(rb.data) else sockfd
  }

  function Nsocr(): Callbacks<int> {
    Callbacks((sockfd, _, _, _, _) => sockfd, (sockfd, rb, urc) => NsocrEol(sockfd, rb, urc))
  }

  const NO_DESCRIPTOR := -2

  method AtnsocrDecode(input: seq<Byte>) returns (code: Code, sockfd: int, consumed: nat)
    ensures Outcome(code, sockfd, consumed) == Decode(Nsocr(), NO_DESCRIPTOR, input)
  {
    sockfd := NO_DESCRIPTOR;
    code, sockfd, consumed := DecodeInput(input, sockfd, Nsocr());
  }

  // ---------------------------------------------------------------------------
  // NSOST: how much of a datagram was sent
  // ---------------------------------------------------------------------------

  datatype NsostCtx = NsostCtx(sockfd: int, len: int)

  function NsostEol(c: NsostCtx, rb: Buf, urc: bool): NsostCtx
  {
    if !urc && c.len == 0 && rb.size > 2 && |rb.data| > 2 && rb.data[1] == COMMA
    then NsostCtx((rb.data[0] as int) - 48, Atoi(rb.data[2..]))
    else c
  }

  function Nsost(): Callbacks<NsostCtx> {
    Callbacks((c, _, _, _, _) => c, (c, rb, urc) => NsostEol(c, rb, urc))
  }

  method AtnsostDecode(input: seq<Byte>, sockfd: int, sent: int) returns (code: Code, ctx: NsostCtx, consumed: nat)
    ensures Outcome(code, ctx, consumed) == Decode(Nsost(), NsostCtx(sockfd, sent), input)
  {
    code, ctx, consumed := DecodeInput(input, NsostCtx(sockfd, sent), Nsost());
  }

  // ---------------------------------------------------------------------------
  // NSORF: received data
  // ---------------------------------------------------------------------------

  /** data holds the bytes stored so far; overrun records a write past the end of field, or
      a read of a field with no terminator in it. */
  datatype NsorfCtx = NsorfCtx(
    sockfd: int, ip: seq<Byte>, port: int, data: seq<Byte>, received: nat, remaining: nat,
    fieldno: nat, fieldindex: nat, field: seq<Byte>, complete: bool, overrun: bool)

  function Zeros(n: nat): (z: seq<Byte>)
    ensures |z| == n
  {
    seq(n, i => 0)
  }

  function NsorfStart(): NsorfCtx {
    NsorfCtx(0, [], 0, [], 0, 0, 0, 0, Zeros(MAX_FIELD_SIZE), false, false)
  }

  function NextField(c: NsorfCtx): NsorfCtx {
    c.(field := Zeros(MAX_FIELD_SIZE), fieldno := c.fieldno + 1)
  }

  function NsorfComma(c: NsorfCtx): NsorfCtx {
    var c := c.(fieldindex := 0);
    var open := 0 !in c.field;
    if c.fieldno == 0 then NextField(c.(sockfd := Atoi(CString(c.field, 0)), overrun := c.overrun || open))
    else if c.fieldno == 1 then NextField(c.(ip := CString(c.field, 0), overrun := c.overrun || open))
    else if c.fieldno == 2 then NextField(c.(port := Atoi(CString(c.field, 0)), overrun := c.overrun || open))
    else if c.fieldno == 3 then NextField(c)
    else if c.fieldno == 4 then c.(complete := true)
    else c
  }

  function NsorfStore(c: NsorfCtx, b: Byte): NsorfCtx {
    if c.fieldindex >= |c.field| then c.(fieldindex := c.fieldindex + 1, overrun := true)
    else
      var c := c.(field := c.field[c.fieldindex := b], fieldindex := c.fieldindex + 1);
      if c.fieldno == 4 && c.fieldindex == 2 && |c.field| >= 2
      then c.(data := c.data + [FromHexPair(c.field[0], c.field[1])], received := c.received + 1, fieldindex := 0)
      else c
  }

  function NsorfChar(c: NsorfCtx, b: Byte, urc: bool, space: bool): NsorfCtx {
    if urc || space || c.complete then c
    else if b == COMMA then NsorfComma(c)
    else if b == QUOTE then c
    else NsorfStore(c, b)
  }

  function NsorfEol(c: NsorfCtx): NsorfCtx {
    if c.complete then c.(remaining := 0) else c
  }

  function Nsorf(): Callbacks<NsorfCtx> {
    Callbacks((c, _, b, urc, space) => NsorfChar(c, b, urc, space), (c, _, _) => NsorfEol(c))
  }

  method AtnsorfDecode(input: seq<Byte>) returns (code: Code, ctx: NsorfCtx, consumed: nat)
    ensures Outcome(code, ctx, consumed) == Decode(Nsorf(), NsorfStart(), input)
  {
    code, ctx, consumed := DecodeInput(input, NsorfStart(), Nsorf());
  }

  // ---------------------------------------------------------------------------
  // CIMI: the subscriber identity
  // ---------------------------------------------------------------------------

  /** imsi is the caller's whole buffer; the index is 8 bits wide. */
  datatype CimiCtx = CimiCtx(imsi: seq<Byte>, index: nat, done: bool, overrun: bool)

  function CimiStore(c: CimiCtx, b: Byte): CimiCtx {
    if c.index < |c.imsi| then c.(imsi := c.imsi[c.index := b]) else c.(overrun := true)
  }

  function CimiChar(c: CimiCtx, b: Byte, urc: bool, space: bool): CimiCtx {
    if !c.done && !urc && !space then CimiStore(c, b).(index := (c.index + 1) % 0x100) else c
  }

  function CimiEol(c: CimiCtx): CimiCtx {
    if !c.done && c.index > 0 then CimiStore(c, 0).(done := true) else c
  }

  function Cimi(): Callbacks<CimiCtx> {
    Callbacks((c, _, b, urc, space) => CimiChar(c, b, urc, space), (c, _, _) => CimiEol(c))
  }

  method AtcimiDecode(input: seq<Byte>, imsi: seq<Byte>) returns (code: Code, ctx: CimiCtx, consumed: nat)
    ensures Outcome(code, ctx, consumed) == Decode(Cimi(), CimiCtx(imsi, 0, false, false), input)
  {
    code, ctx, consumed := DecodeInput(input, CimiCtx(imsi, 0, false, false), Cimi());
  }

  // ---------------------------------------------------------------------------
  // Unsolicited result codes in the middle of a reply
  // ---------------------------------------------------------------------------

  /** Between lines a complete NSORF reply has nothing remaining. */
  ghost predicate NsorfSettled(c: NsorfCtx) {
    c.complete ==> c.remaining == 0
  }

  /** Between lines a non-empty identity is done. */
  ghost predicate CimiSettled(c: CimiCtx) {
    c.index > 0 ==> c.done
  }

  ghost predicate SameOutcome<Ctx>(cb: Callbacks<Ctx>, ctx: Ctx,
                                   x: seq<seq<Byte>>, y: seq<seq<Byte>>, tail: seq<Byte>)
  {
    var a, b := Decode(cb, ctx, Flatten(x) + tail), Decode(cb, ctx, Flatten(y) + tail);
    a.code == b.code && a.ctx == b.ctx
  }

  lemma SameForDisregarding<Ctx(!new)>(cb: Callbacks<Ctx>, settled: Ctx -> bool, ctx: Ctx,
                                      x: seq<seq<Byte>>, y: seq<seq<Byte>>, tail: seq<Byte>)
    requires Disregards(cb, settled) && settled(ctx) && AllLines(x) && AllLines(y) && Replies(x) == Replies(y)
    ensures SameOutcome(cb, ctx, x, y, tail)
  {
    UrcsAreInvisible(cb, settled, ctx, x, y, tail);
  }

  lemma AllFourDisregard()
    ensures Disregards(Nsocr(), c => true) && Disregards(Nsost(), c => true)
    ensures Disregards(Nsorf(), NsorfSettled) && Disregards(Cimi(), CimiSettled)
  {
  }

  /** Inserting or removing unsolicited lines anywhere between the lines of a reply changes
      neither the return code nor any output of the four decoders. */
  lemma UrcInsertionIsInvisible(x: seq<seq<Byte>>, y: seq<seq<Byte>>, tail: seq<Byte>,
                                sent: int, fd: int, imsi: seq<Byte>)
    requires AllLines(x) && AllLines(y) && Replies(x) == Replies(y)
    ensures SameOutcome(Nsocr(), NO_DESCRIPTOR, x, y, tail)
    ensures SameOutcome(Nsost(), NsostCtx(fd, sent), x, y, tail)
    ensures SameOutcome(Nsorf(), NsorfStart(), x, y, tail)
    ensures SameOutcome(Cimi(), CimiCtx(imsi, 0, false, false), x, y, tail)
  {
    AllFourDisregard();
    SameForDisregarding(Nsocr(), c => true, NO_DESCRIPTOR, x, y, tail);
    SameForDisregarding(Nsost(), c => true, NsostCtx(fd, sent), x, y, tail);
    SameForDisregarding(Nsorf(), NsorfSettled, NsorfStart(), x, y, tail);
    SameForDisregarding(Cimi(), CimiSettled, CimiCtx(imsi, 0, false, false), x, y, tail);
  }
}
