/** Reading modem replies (Firmware/src/at_commands.c): the short line buffer and the
    decode_input loop, which drives every decoder through two callbacks and recognises the
    final result codes of section 5.7 of ITU-T V.250. */
module AtCommands {
  import opened Bytes
  import opened Text

  const PLUS: Byte := 43
  const B_SIZE := 10
  const SIZE_LIMIT := 0x1_0000 // the line length is kept in 16 bits

  const OK: seq<Byte> := [79, 75, 13, 10]
  const ERROR: seq<Byte> := [69, 82, 82, 79, 82, 13, 10]

  datatype Code = AtOk | AtError | AtTimeout

  /** isspace() in the C locale. */
  predicate IsSpace(b: Byte) {
    b == 32 || 9 <= b <= 13
  }

  // ---------------------------------------------------------------------------
  // struct buf
  // ---------------------------------------------------------------------------

  /** What a callback sees of the line buffer. */
  datatype Buf = Buf(data: seq<Byte>, size: nat)

  /** The buffer after the given bytes of a line: the first ten of them, padded with zeros,
      and their number in 16 bits. */
  function BufOf(line: seq<Byte>): (rb: Buf)
    ensures |rb.data| == B_SIZE
  {
    Buf(seq(B_SIZE, i requires 0 <= i < B_SIZE => if i < |line| then line[i] else 0), |line| % SIZE_LIMIT)
  }

  class LineBuffer {
    const data: array<Byte>
    var index: nat
    var size: nat
    ghost var line: seq<Byte> // the bytes added since the last reset

    ghost predicate Valid()
      reads this, data
    {
      && data.Length == B_SIZE
      && index == (if |line| < B_SIZE then |line| else B_SIZE)
      && Buf(data[..], size) == BufOf(line)
    }

    constructor ()
      ensures Valid() && line == [] && fresh(data)
    {
      data := new Byte[B_SIZE](_ => 0);
      index, size, line := 0, 0, [];
    }

    /** b_reset */
    method Reset()
      requires Valid()
      modifies this, data
      ensures Valid() && line == []
    {
      for i := 0 to B_SIZE
        invariant forall j :: 0 <= j < i ==> data[j] == 0
      {
        data[i] := 0;
      }
      index, size, line := 0, 0, [];
    }

    /** b_add */
    method Add(b: Byte)
      requires Valid()
      modifies this, data
      ensures Valid() && line == old(line) + [b]
    {
      if index < B_SIZE {
        data[index] := b;
        index := index + 1;
      }
      size := (size + 1) % SIZE_LIMIT;
      line := line + [b];
      assert Buf(data[..], size).data == BufOf(line).data;
    }

    /** b_is, for a pattern without NUL that fits the buffer. */
    method Is(str: seq<Byte>) returns (same: bool)
      requires Valid() && |str| <= B_SIZE && 0 !in str
      ensures same <==> str <= line
    {
      assert forall i :: 0 <= i < |str| ==> data[..|str|][i] == BufOf(line).data[i];
      assert |line| < |str| ==> BufOf(line).data[|line|] != str[|line|];
      same := data[..|str|] == str;
    }
  }

  /** The result code tests of decode_input; AtTimeout stands for no code yet. */
  method FinalCode(rb: LineBuffer) returns (code: Code)
    requires rb.Valid()
    requires (OK <= rb.line ==> rb.line == OK) && (ERROR <= rb.line ==> rb.line == ERROR)
    ensures code == if rb.line == OK then AtOk else if rb.line == ERROR then AtError else AtTimeout
  {
    code := AtTimeout;
    if rb.size >= 4 {
      var isOk := rb.Is(OK);
      if isOk {
        return AtOk;
      }
      var isError := rb.Is(ERROR);
      if isError {
        return AtError;
      }
    }
  }

  // ---------------------------------------------------------------------------
  // Replies as lines
  // ---------------------------------------------------------------------------

  /** Just past the first CR LF of s that ends at or after index i; -1 if there is none. */
  function EndOfLine(s: seq<Byte>, i: nat): (e: int)
    ensures e == -1 || (i < e <= |s| && 2 <= e && s[e - 2] == CR && s[e - 1] == LF)
    ensures forall k :: i <= k < |s| && 0 < k && (e == -1 || k < e - 1) ==> !(s[k - 1] == CR && s[k] == LF)
    decreases |s| - i
  {
    if i >= |s| then -1
    else if i > 0 && s[i - 1] == CR && s[i] == LF then i + 1
    else EndOfLine(s, i + 1)
  }

  /** A complete line: it ends in CR LF and contains no other. */
  predicate IsLine(line: seq<Byte>) {
    |line| > 0 && EndOfLine(line, 0) == |line|
  }

  /** Part of a line: no CR LF yet. */
  predicate IsPartial(line: seq<Byte>) {
    EndOfLine(line, 0) == -1
  }

  lemma EndOfLineIs(s: seq<Byte>, i: nat, e: nat)
    requires i < e <= |s| && 2 <= e && s[e - 2] == CR && s[e - 1] == LF
    requires forall k :: i <= k < e - 1 && 0 < k ==> !(s[k - 1] == CR && s[k] == LF)
    ensures EndOfLine(s, i) == e
    decreases e - i
  {
    if i + 1 < e {
      EndOfLineIs(s, i + 1, e);
    }
  }

  /** Appending a byte completes a line exactly when it is the LF after a CR. */
  lemma GrowLine(line: seq<Byte>, b: Byte)
    requires IsPartial(line)
    ensures line != [] && line[|line| - 1] == CR && b == LF ==> IsLine(line + [b])
    ensures !(line != [] && line[|line| - 1] == CR && b == LF) ==> IsPartial(line + [b])
  {
    var s := line + [b];
    assert forall k :: 0 < k < |line| ==> !(s[k - 1] == CR && s[k] == LF);
    if line != [] && line[|line| - 1] == CR && b == LF {
      EndOfLineIs(s, 0, |s|);
    }
  }

  lemma LineOfPrefix(s: seq<Byte>, n: nat)
    requires n <= |s|
    ensures IsLine(s[..n]) ==> EndOfLine(s, 0) == n
    ensures n == |s| && IsPartial(s[..n]) ==> EndOfLine(s, 0) == -1
  {
    if IsLine(s[..n]) {
      assert forall k :: 0 < k < n - 1 ==> !(s[..n][k - 1] == CR && s[..n][k] == LF);
      EndOfLineIs(s, 0, n);
    }
    assert n == |s| ==> s[..n] == s;
  }

  /** Whether the part of a line read so far counts as an unsolicited result code: it
      starts with '+'.  The 16-bit length wraps, so a '+' at a multiple of 65536 does too. */
  predicate Urc(line: seq<Byte>) {
    exists i :: 0 <= i < |line| && i % SIZE_LIMIT == 0 && line[i] == PLUS
  }

  // ---------------------------------------------------------------------------
  // decode_input
  // ---------------------------------------------------------------------------

  /** The callbacks take and return the decoder's context.  A NULL callback is the one
      that changes nothing. */
  datatype Callbacks<!Ctx> = Callbacks(
    onChar: (Ctx, Buf, Byte, bool, bool) -> Ctx,
    onEol: (Ctx, Buf, bool) -> Ctx)

  datatype Outcome<Ctx> = Outcome(code: Code, ctx: Ctx, consumed: nat)

  /** The context after the first n characters of a line. */
  function Chars<Ctx>(cb: Callbacks<Ctx>, ctx: Ctx, line: seq<Byte>, n: nat): Ctx
    requires n <= |line|
  {
    if n == 0 then ctx
    else
      var b := line[n - 1];
      cb.onChar(Chars(cb, ctx, line, n - 1), BufOf(line[..n]), b, Urc(line[..n]), IsSpace(b))
  }

  /** Decoding line by line: every line goes through the character callback; the first line
      that is OK or ERROR decides; every other complete line ends with the end-of-line
      callback; running out of input is a timeout. */
  function Decode<Ctx>(cb: Callbacks<Ctx>, ctx: Ctx, input: seq<Byte>): (r: Outcome<Ctx>)
    decreases |input|
  {
    var e := EndOfLine(input, 0);
    if e == -1 then Outcome(AtTimeout, Chars(cb, ctx, input, |input|), |input|)
    else
      var line := input[..e];
      var ctx' := Chars(cb, ctx, line, e);
      if line == OK then Outcome(AtOk, ctx', e)
      else if line == ERROR then Outcome(AtError, ctx', e)
      else
        var r := Decode(cb, cb.onEol(ctx', BufOf(line), Urc(line)), input[e..]);
        r.(consumed := e + r.consumed)
  }

  lemma UrcStep(line: seq<Byte>, b: Byte)
    ensures Urc(line + [b]) <==> Urc(line) || (b == PLUS && |line| % SIZE_LIMIT == 0)
  {
    var s := line + [b];
    if Urc(line) {
      var i :| 0 <= i < |line| && i % SIZE_LIMIT == 0 && line[i] == PLUS;
      assert s[i] == PLUS;
    }
    if b == PLUS && |line| % SIZE_LIMIT == 0 {
      assert s[|line|] == PLUS;
    }
  }

  /** A partial line that begins like a final result code is one, complete. */
  lemma FinalLine(line: seq<Byte>, b: Byte, code: seq<Byte>)
    requires IsPartial(line) && IsLine(code) && code <= line + [b]
    ensures line + [b] == code
  {
    var s, n := line + [b], |code|;
    assert s[n - 2] == code[n - 2] && s[n - 1] == code[n - 1];
  }

  lemma FinalLines()
    ensures IsLine(OK) && IsLine(ERROR)
  {
    EndOfLineIs(OK, 0, 4);
    EndOfLineIs(ERROR, 0, 7);
  }

  function Later<Ctx>(n: nat, r: Outcome<Ctx>): Outcome<Ctx> {
    r.(consumed := n + r.consumed)
  }

  lemma {:induction false} CharsOfPrefix<Ctx>(cb: Callbacks<Ctx>, ctx: Ctx, line: seq<Byte>, m: nat, n: nat)
    requires n <= m <= |line|
    ensures Chars(cb, ctx, line[..m], n) == Chars(cb, ctx, line, n)
    decreases n
  {
    if n > 0 {
      CharsOfPrefix(cb, ctx, line, m, n - 1);
      assert line[..m][..n] == line[..n];
    }
  }

  /** The first line of what is left decides, or is followed by the rest. */
  lemma DecodeFirstLine<Ctx>(cb: Callbacks<Ctx>, ctx: Ctx, input: seq<Byte>, n: nat)
    requires n <= |input| && IsLine(input[..n])
    ensures var line, ctx' := input[..n], Chars(cb, ctx, input, n);
            Decode(cb, ctx, input) ==
              if line == OK then Outcome(AtOk, ctx', n)
              else if line == ERROR then Outcome(AtError, ctx', n)
              else Later(n, Decode(cb, cb.onEol(ctx', BufOf(line), Urc(line)), input[n..]))
  {
    LineOfPrefix(input, n);
    CharsOfPrefix(cb, ctx, input, n, n);
  }

  ghost function AfterChar<Ctx>(cb: Callbacks<Ctx>, ctx: Ctx, line: seq<Byte>, b: Byte): Ctx {
    cb.onChar(ctx, BufOf(line), b, Urc(line), IsSpace(b))
  }

  ghost function AfterLine<Ctx>(cb: Callbacks<Ctx>, ctx: Ctx, line: seq<Byte>): Ctx {
    cb.onEol(ctx, BufOf(line), Urc(line))
  }

  function CodeOf(line: seq<Byte>): Code {
    if line == OK then AtOk else if line == ERROR then AtError else AtTimeout
  }

  lemma GrownBy(line: seq<Byte>, b: Byte)
    requires IsPartial(line)
    ensures IsLine(line + [b]) <==> line != [] && line[|line| - 1] == CR && b == LF
    ensures !IsLine(line + [b]) ==> IsPartial(line + [b])
    ensures Urc(line + [b]) <==> Urc(line) || (b == PLUS && |line| % SIZE_LIMIT == 0)
    ensures (OK <= line + [b] <==> line + [b] == OK) && (ERROR <= line + [b] <==> line + [b] == ERROR)
  {
    GrowLine(line, b);
    UrcStep(line, b);
    FinalLines();
    if OK <= line + [b] {
      FinalLine(line, b, OK);
    }
    if ERROR <= line + [b] {
      FinalLine(line, b, ERROR);
    }
  }

  /** One turn of the loop in decode_input.  AtTimeout means that the loop goes on. */
  method Turn<Ctx>(rb: LineBuffer, b: Byte, prev: Byte, urc: bool, ctx0: Ctx, cb: Callbacks<Ctx>)
    returns (code: Code, ctx: Ctx, isUrc: bool)
    requires rb.Valid() && IsPartial(rb.line) && urc == Urc(rb.line)
    requires prev == CR <==> rb.line != [] && rb.line[|rb.line| - 1] == CR
    modifies rb, rb.data
    ensures rb.Valid()
    ensures var line := old(rb.line) + [b];
            var seen := AfterChar(cb, ctx0, line, b);
            && code == CodeOf(line)
            && (code != AtTimeout ==> ctx == seen)
            && (code == AtTimeout && IsLine(line) ==> rb.line == [] && !isUrc && ctx == AfterLine(cb, seen, line))
            && (code == AtTimeout && !IsLine(line) ==>
                  rb.line == line && IsPartial(line) && isUrc == Urc(line) && ctx == seen)
  {
    GrownBy(rb.line, b);
    isUrc := urc;
    if b == PLUS && rb.size == 0 {
      isUrc := true;
    }
    rb.Add(b);
    ctx := cb.onChar(ctx0, Buf(rb.data[..], rb.size), b, isUrc, IsSpace(b));
    code := FinalCode(rb);
    if code == AtTimeout && prev == CR && b == LF {
      ctx := cb.onEol(ctx, Buf(rb.data[..], rb.size), isUrc);
      rb.Reset();
      isUrc := false;
    }
  }

  /** The loop of decode_input as a byte-at-a-time machine: the line so far, the context,
      the input still to come. */
  ghost function Run<Ctx>(cb: Callbacks<Ctx>, line: seq<Byte>, ctx: Ctx, input: seq<Byte>): (r: Outcome<Ctx>)
    decreases |input|
  {
    if input == [] then Outcome(AtTimeout, ctx, 0)
    else
      var line' := line + [input[0]];
      var seen := AfterChar(cb, ctx, line', input[0]);
      if CodeOf(line') != AtTimeout then Outcome(CodeOf(line'), seen, 1)
      else if IsLine(line') then Later(1, Run(cb, [], AfterLine(cb, seen, line'), input[1..]))
      else Later(1, Run(cb, line', seen, input[1..]))
  }

  /** The machine, anywhere inside a line, ends as the line-by-line reading does. */
  lemma {:induction false} RunIsDecode<Ctx>(cb: Callbacks<Ctx>, ctx: Ctx, input: seq<Byte>, n: nat)
    requires n <= |input| && IsPartial(input[..n])
    ensures Later(n, Run(cb, input[..n], Chars(cb, ctx, input, n), input[n..])) == Decode(cb, ctx, input)
    decreases |input|, |input| - n
  {
    if n == |input| {
      assert input[..n] == input;
    } else {
      var line := input[..n] + [input[n]];
      assert line == input[..n + 1];
      assert input[n..][1..] == input[n + 1..];
      GrownBy(input[..n], input[n]);
      FinalLines();
      if IsLine(line) {
        DecodeFirstLine(cb, ctx, input, n + 1);
        var rest := input[n + 1..];
        var next := AfterLine(cb, Chars(cb, ctx, input, n + 1), line);
        assert rest[..0] == [] && rest[0..] == rest;
        RunIsDecode(cb, next, rest, 0);
      } else {
        RunIsDecode(cb, ctx, input, n + 1);
      }
    }
  }

  /** decode_input, reading from an input that ends where the modem would fall silent. */
  method DecodeInput<Ctx>(input: seq<Byte>, ctx0: Ctx, cb: Callbacks<Ctx>) returns (code: Code, ctx: Ctx, consumed: nat)
    ensures Outcome(code, ctx, consumed) == Decode(cb, ctx0, input)
  {
    assert input[..0] == [] && input[0..] == input;
    RunIsDecode(cb, ctx0, input, 0);
    var rb := new LineBuffer();
    var prev: Byte := 32;
    var isUrc := false;
    ctx := ctx0;
    var pos := 0;
    while pos < |input|
      invariant rb.Valid() && fresh(rb) && fresh(rb.data)
      invariant 0 <= pos <= |input|
      invariant Decode(cb, ctx0, input) == Later(pos, Run(cb, rb.line, ctx, input[pos..]))
      invariant IsPartial(rb.line) && isUrc == Urc(rb.line)
      invariant prev == CR <==> rb.line != [] && rb.line[|rb.line| - 1] == CR
    {
      var b := input[pos];
      assert input[pos..][1..] == input[pos + 1..];
      pos := pos + 1;
      code, ctx, isUrc := Turn(rb, b, prev, isUrc, ctx, cb);
      if code != AtTimeout {
        return code, ctx, pos;
      }
      prev := b;
    }
    return AtTimeout, ctx, pos;
  }
}
