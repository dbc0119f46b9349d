/** Modem replies seen as sequences of lines: which line decides, how much is consumed,
    what the end-of-line callback is given, and why unsolicited result codes do not show. */
module AtLines {
  import opened Bytes
  import opened AtCommands

  function Flatten(lines: seq<seq<Byte>>): seq<Byte> {
    if lines == [] then [] else lines[0] + Flatten(lines[1..])
  }

  predicate AllLines(lines: seq<seq<Byte>>) {
    forall k :: 0 <= k < |lines| ==> IsLine(lines[k])
  }

  /** Every input is complete lines followed by part of a line. */
  lemma {:induction false} EveryInputIsLines(input: seq<Byte>) returns (lines: seq<seq<Byte>>, tail: seq<Byte>)
    ensures AllLines(lines) && IsPartial(tail) && input == Flatten(lines) + tail
    decreases |input|
  {
    var e := EndOfLine(input, 0);
    if e == -1 {
      return [], input;
    }
    var first := input[..e];
    assert IsLine(first) by {
      EndOfLineIs(first, 0, e);
    }
    var rest, t := EveryInputIsLines(input[e..]);
    lines, tail := [first] + rest, t;
    assert lines[1..] == rest;
    assert input == first + (Flatten(rest) + t);
  }

  /** The context after a whole line that is not a final result code. */
  ghost function LineCtx<Ctx>(cb: Callbacks<Ctx>, ctx: Ctx, line: seq<Byte>): Ctx {
    AfterLine(cb, Chars(cb, ctx, line, |line|), line)
  }

  lemma DecodeCons<Ctx>(cb: Callbacks<Ctx>, ctx: Ctx, line: seq<Byte>, rest: seq<Byte>)
    requires IsLine(line)
    ensures Decode(cb, ctx, line + rest) ==
            if CodeOf(line) != AtTimeout then Outcome(CodeOf(line), Chars(cb, ctx, line, |line|), |line|)
            else Later(|line|, Decode(cb, LineCtx(cb, ctx, line), rest))
  {
    var input, n := line + rest, |line|;
    assert input[..n] == line && input[n..] == rest;
    DecodeFirstLine(cb, ctx, input, n);
    CharsOfPrefix(cb, ctx, input, n, n);
  }

  lemma FlattenCons(lines: seq<seq<Byte>>, tail: seq<Byte>)
    requires lines != []
    ensures Flatten(lines) + tail == lines[0] + (Flatten(lines[1..]) + tail)
  {
  }

  // ---------------------------------------------------------------------------
  // The first final result code decides
  // ---------------------------------------------------------------------------

  /** Complete lines none of which is OK or ERROR. */
  predicate AllOrdinary(lines: seq<seq<Byte>>) {
    forall k :: 0 <= k < |lines| ==> IsLine(lines[k]) && CodeOf(lines[k]) == AtTimeout
  }

  ghost function LinesCtx<Ctx>(cb: Callbacks<Ctx>, ctx: Ctx, lines: seq<seq<Byte>>): Ctx
    decreases |lines|
  {
    if lines == [] then ctx else LinesCtx(cb, LineCtx(cb, ctx, lines[0]), lines[1..])
  }

  lemma {:induction false} OrdinaryLines<Ctx>(cb: Callbacks<Ctx>, ctx: Ctx, lines: seq<seq<Byte>>, rest: seq<Byte>)
    requires AllOrdinary(lines)
    ensures Decode(cb, ctx, Flatten(lines) + rest) ==
            Later(|Flatten(lines)|, Decode(cb, LinesCtx(cb, ctx, lines), rest))
    decreases |lines|
  {
    if lines == [] {
      assert [] + rest == rest;
    } else {
      FlattenCons(lines, rest);
      DecodeCons(cb, ctx, lines[0], Flatten(lines[1..]) + rest);
      OrdinaryLines(cb, LineCtx(cb, ctx, lines[0]), lines[1..], rest);
    }
  }

  /** decode_input reports the first line equal to OK or ERROR and consumes exactly through
      it. */
  lemma FirstFinalLineDecides<Ctx>(cb: Callbacks<Ctx>, ctx: Ctx,
                                   lines: seq<seq<Byte>>, final: seq<Byte>, rest: seq<Byte>)
    requires AllOrdinary(lines) && IsLine(final) && CodeOf(final) != AtTimeout
    ensures Decode(cb, ctx, Flatten(lines) + (final + rest)) ==
            Outcome(CodeOf(final), Chars(cb, LinesCtx(cb, ctx, lines), final, |final|), |Flatten(lines)| + |final|)
  {
    OrdinaryLines(cb, ctx, lines, final + rest);
    DecodeCons(cb, LinesCtx(cb, ctx, lines), final, rest);
  }

  /** Without such a line it times out, having consumed everything. */
  lemma NoFinalLineTimesOut<Ctx>(cb: Callbacks<Ctx>, ctx: Ctx, lines: seq<seq<Byte>>, tail: seq<Byte>)
    requires AllOrdinary(lines) && IsPartial(tail)
    ensures Decode(cb, ctx, Flatten(lines) + tail) ==
            Outcome(AtTimeout, Chars(cb, LinesCtx(cb, ctx, lines), tail, |tail|), |Flatten(lines)| + |tail|)
  {
    OrdinaryLines(cb, ctx, lines, tail);
  }

  /** OK or ERROR, and the line end. */
  predicate IsFinal(line: seq<Byte>) {
    line == [79, 75, 13, 10] || line == [69, 82, 82, 79, 82, 13, 10]
  }

  /** The position of the first line that is OK or ERROR, or the number of lines. */
  function FirstFinal(lines: seq<seq<Byte>>): (k: nat)
    ensures k <= |lines|
    ensures forall i :: 0 <= i < k ==> !IsFinal(lines[i])
    ensures k < |lines| ==> IsFinal(lines[k])
  {
    if lines == [] || IsFinal(lines[0]) then 0 else 1 + FirstFinal(lines[1..])
  }

  lemma {:induction false} FlattenConcat(x: seq<seq<Byte>>, y: seq<seq<Byte>>)
    ensures Flatten(x + y) == Flatten(x) + Flatten(y)
  {
    if x == [] {
      assert x + y == y;
    } else {
      FlattenConcat(x[1..], y);
      assert (x + y)[0] == x[0] && (x + y)[1..] == x[1..] + y;
      FlattenCons(x, Flatten(y));
    }
  }

  lemma FlattenFrom(lines: seq<seq<Byte>>, k: nat)
    requires k < |lines|
    ensures lines[..k] + lines[k..] == lines
    ensures Flatten(lines[k..]) == lines[k] + Flatten(lines[k + 1..])
  {
    assert lines[k..][1..] == lines[k + 1..];
  }

  lemma FlattenSplit(lines: seq<seq<Byte>>, k: nat, tail: seq<Byte>)
    requires k < |lines|
    ensures Flatten(lines) + tail == Flatten(lines[..k]) + (lines[k] + (Flatten(lines[k + 1..]) + tail))
  {
    FlattenFrom(lines, k);
    FlattenConcat(lines[..k], lines[k..]);
    RegroupBytes(Flatten(lines[..k]), lines[k], Flatten(lines[k + 1..]), tail);
  }

  lemma RegroupBytes(x: seq<Byte>, y: seq<Byte>, z: seq<Byte>, tail: seq<Byte>)
    ensures (x + (y + z)) + tail == x + (y + (z + tail))
  {
  }

  /** On every input, cut into its lines: the code is that of the first final line, and a
      timeout if there is none; exactly the input through that line is consumed. */
  lemma CodeOfFirstFinal<Ctx>(cb: Callbacks<Ctx>, ctx: Ctx, lines: seq<seq<Byte>>, tail: seq<Byte>)
    requires AllLines(lines) && IsPartial(tail)
    ensures var k, r := FirstFinal(lines), Decode(cb, ctx, Flatten(lines) + tail);
            if k < |lines|
            then
              && r.code == (if lines[k] == [79, 75, 13, 10] then AtOk else AtError)
              && r.consumed == |Flatten(lines[..k])| + |lines[k]|
            else r.code == AtTimeout && r.consumed == |Flatten(lines) + tail|
  {
    var k := FirstFinal(lines);
    if k < |lines| {
      FlattenSplit(lines, k, tail);
      FirstFinalLineDecides(cb, ctx, lines[..k], lines[k], Flatten(lines[k + 1..]) + tail);
    } else {
      NoFinalLineTimesOut(cb, ctx, lines, tail);
    }
  }

  /** A decoder that only writes down what the end-of-line callback is given. */
  function Recorder(): Callbacks<seq<Buf>> {
    Callbacks((seen, _, _, _, _) => seen, (seen, rb, _) => seen + [rb])
  }

  /** The first ten bytes of a line, or all of them and zeros; and the length in 16 bits. */
  function Beginning(line: seq<Byte>): Buf {
    Buf(if |line| >= 10 then line[..10] else line + seq(10 - |line|, i => 0), |line| % 0x1_0000)
  }

  lemma BufOfIsBeginning(line: seq<Byte>)
    ensures BufOf(line) == Beginning(line)
  {
    assert BufOf(line).data == Beginning(line).data;
  }

  function Beginnings(lines: seq<seq<Byte>>): (bufs: seq<Buf>) {
    if lines == [] then [] else [Beginning(lines[0])] + Beginnings(lines[1..])
  }

  lemma {:induction false} RecorderIgnoresChars(seen: seq<Buf>, line: seq<Byte>, n: nat)
    requires n <= |line|
    ensures Chars(Recorder(), seen, line, n) == seen
    decreases n
  {
    if n > 0 {
      RecorderIgnoresChars(seen, line, n - 1);
    }
  }

  lemma RecorderLine(seen: seq<Buf>, line: seq<Byte>)
    ensures LineCtx(Recorder(), seen, line) == seen + [Beginning(line)]
  {
    RecorderIgnoresChars(seen, line, |line|);
    BufOfIsBeginning(line);
  }

  lemma Regroup(seen: seq<Buf>, rb: Buf, rest: seq<Buf>)
    ensures (seen + [rb]) + rest == seen + ([rb] + rest)
  {
  }

  /** The end-of-line callback is called once for each ordinary line, in order, with that
      line's leading ten bytes and its length. */
  lemma {:induction false} EolOncePerLine(seen: seq<Buf>, lines: seq<seq<Byte>>)
    ensures LinesCtx(Recorder(), seen, lines) == seen + Beginnings(lines)
    decreases |lines|
  {
    if lines == [] {
      assert seen + [] == seen;
    } else {
      RecorderLine(seen, lines[0]);
      EolOncePerLine(seen + [Beginning(lines[0])], lines[1..]);
      Regroup(seen, Beginning(lines[0]), Beginnings(lines[1..]));
    }
  }

  /** On every input it is called for exactly the lines before the final one. */
  lemma EolBeforeFinal(seen: seq<Buf>, lines: seq<seq<Byte>>, tail: seq<Byte>)
    requires AllLines(lines) && IsPartial(tail)
    ensures Decode(Recorder(), seen, Flatten(lines) + tail).ctx == seen + Beginnings(lines[..FirstFinal(lines)])
  {
    var k := FirstFinal(lines);
    EolOncePerLine(seen, lines[..k]);
    if k < |lines| {
      FlattenSplit(lines, k, tail);
      FirstFinalLineDecides(Recorder(), seen, lines[..k], lines[k], Flatten(lines[k + 1..]) + tail);
      RecorderIgnoresChars(seen + Beginnings(lines[..k]), lines[k], |lines[k]|);
    } else {
      NoFinalLineTimesOut(Recorder(), seen, lines, tail);
      assert lines[..k] == lines;
      RecorderIgnoresChars(seen + Beginnings(lines), tail, |tail|);
    }
  }

  /** The code does not depend on the decoder. */
  lemma {:induction false} CodeIsShared<A, B>(x: Callbacks<A>, a: A, y: Callbacks<B>, b: B, input: seq<Byte>)
    ensures Decode(x, a, input).code == Decode(y, b, input).code
    ensures Decode(x, a, input).consumed == Decode(y, b, input).consumed
    decreases |input|
  {
    var e := EndOfLine(input, 0);
    if e != -1 && CodeOf(input[..e]) == AtTimeout {
      CodeIsShared(x, x.onEol(Chars(x, a, input[..e], e), BufOf(input[..e]), Urc(input[..e])),
                   y, y.onEol(Chars(y, b, input[..e], e), BufOf(input[..e]), Urc(input[..e])), input[e..]);
    }
  }

  // ---------------------------------------------------------------------------
  // Unsolicited result codes
  // ---------------------------------------------------------------------------

  predicate IsUrcLine(line: seq<Byte>) {
    line != [] && line[0] == 43
  }

  /** The reply without its unsolicited lines. */
  function Replies(lines: seq<seq<Byte>>): (kept: seq<seq<Byte>>)
  {
    if lines == [] then []
    else if IsUrcLine(lines[0]) then Replies(lines[1..])
    else [lines[0]] + Replies(lines[1..])
  }

  /** A decoder whose callbacks disregard characters of unsolicited lines, and whose
      end-of-line callback disregards their ends whenever the previous line was ended. */
  ghost predicate Disregards<Ctx(!new)>(cb: Callbacks<Ctx>, settled: Ctx -> bool) {
    && (forall ctx, rb, b, space :: cb.onChar(ctx, rb, b, true, space) == ctx)
    && (forall ctx, rb :: settled(ctx) ==> cb.onEol(ctx, rb, true) == ctx)
    && (forall ctx, rb, urc :: settled(cb.onEol(ctx, rb, urc)))
  }

  lemma UrcFromStart(line: seq<Byte>, n: nat)
    requires IsUrcLine(line) && 0 < n <= |line|
    ensures Urc(line[..n])
  {
    assert line[..n][0] == PLUS;
  }

  lemma {:induction false} UrcCharsDoNothing<Ctx(!new)>(cb: Callbacks<Ctx>, settled: Ctx -> bool, ctx: Ctx,
                                                      line: seq<Byte>, n: nat)
    requires Disregards(cb, settled) && IsUrcLine(line) && n <= |line|
    ensures Chars(cb, ctx, line, n) == ctx
    decreases n
  {
    if n > 0 {
      UrcFromStart(line, n);
      UrcCharsDoNothing(cb, settled, ctx, line, n - 1);
    }
  }

  lemma UrcLineDoesNothing<Ctx(!new)>(cb: Callbacks<Ctx>, settled: Ctx -> bool, ctx: Ctx, line: seq<Byte>)
    requires Disregards(cb, settled) && IsUrcLine(line) && settled(ctx)
    ensures CodeOf(line) == AtTimeout && LineCtx(cb, ctx, line) == ctx
  {
    UrcCharsDoNothing(cb, settled, ctx, line, |line|);
    UrcFromStart(line, |line|);
    assert line[..|line|] == line;
  }

  /** Dropping the unsolicited lines of a reply changes neither the code nor the decoder's
      context. */
  lemma {:induction false} RepliesDecide<Ctx(!new)>(cb: Callbacks<Ctx>, settled: Ctx -> bool, ctx: Ctx,
                                                  lines: seq<seq<Byte>>, tail: seq<Byte>)
    requires Disregards(cb, settled) && settled(ctx) && AllLines(lines)
    ensures var all := Decode(cb, ctx, Flatten(lines) + tail);
            var kept := Decode(cb, ctx, Flatten(Replies(lines)) + tail);
            all.code == kept.code && all.ctx == kept.ctx
  {
    if lines != [] {
      var line, rest := lines[0], lines[1..];
      FlattenCons(lines, tail);
      DecodeCons(cb, ctx, line, Flatten(rest) + tail);
      if IsUrcLine(line) {
        UrcLineDoesNothing(cb, settled, ctx, line);
        RepliesDecide(cb, settled, ctx, rest, tail);
      } else {
        var kept := Replies(lines);
        assert kept[1..] == Replies(rest);
        FlattenCons(kept, tail);
        DecodeCons(cb, ctx, line, Flatten(Replies(rest)) + tail);
        if CodeOf(line) == AtTimeout {
          RepliesDecide(cb, settled, LineCtx(cb, ctx, line), rest, tail);
        }
      }
    }
  }

  /** Two replies that agree once their unsolicited lines are dropped, however many those
      are and wherever they stand, are the same to such a decoder. */
  lemma UrcsAreInvisible<Ctx(!new)>(cb: Callbacks<Ctx>, settled: Ctx -> bool, ctx: Ctx,
                                  x: seq<seq<Byte>>, y: seq<seq<Byte>>, tail: seq<Byte>)
    requires Disregards(cb, settled) && settled(ctx)
    requires AllLines(x) && AllLines(y) && Replies(x) == Replies(y)
    ensures Decode(cb, ctx, Flatten(x) + tail).code == Decode(cb, ctx, Flatten(y) + tail).code
    ensures Decode(cb, ctx, Flatten(x) + tail).ctx == Decode(cb, ctx, Flatten(y) + tail).ctx
  {
    RepliesDecide(cb, settled, ctx, x, tail);
    RepliesDecide(cb, settled, ctx, y, tail);
  }

  // ---------------------------------------------------------------------------
  // Replies of one line
  // ---------------------------------------------------------------------------

  const BLANK: seq<Byte> := [13, 10]

  /** Lines a modem may put anywhere around a reply: blank ones and unsolicited ones. */
  predicate Quiet(line: seq<Byte>) {
    IsLine(line) && (line == BLANK || IsUrcLine(line))
  }

  predicate AllQuiet(lines: seq<seq<Byte>>) {
    forall k :: 0 <= k < |lines| ==> Quiet(lines[k])
  }

  ghost predicate IgnoresQuiet<Ctx>(cb: Callbacks<Ctx>, ctx: Ctx) {
    forall line :: Quiet(line) ==> LineCtx(cb, ctx, line) == ctx
  }

  lemma QuietIsOrdinary(line: seq<Byte>)
    requires Quiet(line)
    ensures CodeOf(line) == AtTimeout
  {
  }

  lemma {:induction false} QuietLines<Ctx>(cb: Callbacks<Ctx>, ctx: Ctx, lines: seq<seq<Byte>>)
    requires IgnoresQuiet(cb, ctx) && AllQuiet(lines)
    ensures AllOrdinary(lines) && LinesCtx(cb, ctx, lines) == ctx
    decreases |lines|
  {
    if lines != [] {
      QuietIsOrdinary(lines[0]);
      QuietLines(cb, ctx, lines[1..]);
      assert forall k :: 1 <= k < |lines| ==> lines[k] == lines[1..][k - 1];
    }
  }

  lemma {:induction false} QuietAreOrdinary(lines: seq<seq<Byte>>)
    requires AllQuiet(lines)
    ensures AllOrdinary(lines)
  {
    forall k | 0 <= k < |lines|
      ensures CodeOf(lines[k]) == AtTimeout
    {
      QuietIsOrdinary(lines[k]);
    }
  }

  /** What a reader sees: a line and the final OK, each with other lines before it, then
      anything. */
  function OneLineReply(before: seq<seq<Byte>>, line: seq<Byte>, between: seq<seq<Byte>>, rest: seq<Byte>): seq<Byte> {
    Flatten(before) + (line + (Flatten(between) + (OK + rest)))
  }

  /** If the lines behind it change nothing, such a reply comes to what its line comes to. */
  lemma LineDecides<Ctx>(cb: Callbacks<Ctx>, start: Ctx, mid: Ctx, end: Ctx,
                         before: seq<seq<Byte>>, line: seq<Byte>, between: seq<seq<Byte>>, rest: seq<Byte>)
    requires AllOrdinary(before) && AllOrdinary(between) && IsLine(line) && CodeOf(line) == AtTimeout
    requires LinesCtx(cb, start, before) == mid && LineCtx(cb, mid, line) == end && LinesCtx(cb, end, between) == end
    ensures var r := Decode(cb, start, OneLineReply(before, line, between, rest));
            && r.code == AtOk && r.ctx == Chars(cb, end, OK, |OK|)
            && r.consumed + |rest| == |OneLineReply(before, line, between, rest)|
  {
    OrdinaryLines(cb, start, before, line + (Flatten(between) + (OK + rest)));
    DecodeCons(cb, mid, line, Flatten(between) + (OK + rest));
    FinalLines();
    FirstFinalLineDecides(cb, end, between, OK, rest);
  }

  /** With quiet lines all around. */
  lemma OneLineDecides<Ctx>(cb: Callbacks<Ctx>, start: Ctx, end: Ctx,
                            before: seq<seq<Byte>>, line: seq<Byte>, between: seq<seq<Byte>>, rest: seq<Byte>)
    requires AllQuiet(before) && AllQuiet(between) && IsLine(line) && CodeOf(line) == AtTimeout
    requires IgnoresQuiet(cb, start) && IgnoresQuiet(cb, end) && LineCtx(cb, start, line) == end
    ensures var r := Decode(cb, start, OneLineReply(before, line, between, rest));
            && r.code == AtOk && r.ctx == Chars(cb, end, OK, |OK|)
            && r.consumed + |rest| == |OneLineReply(before, line, between, rest)|
  {
    QuietLines(cb, start, before);
    QuietLines(cb, end, between);
    LineDecides(cb, start, start, end, before, line, between, rest);
  }

  /** A reply without a line of its own: the modem just says OK. */
  lemma NoLineDecides<Ctx>(cb: Callbacks<Ctx>, start: Ctx, before: seq<seq<Byte>>, rest: seq<Byte>)
    requires AllQuiet(before) && IgnoresQuiet(cb, start)
    ensures var r := Decode(cb, start, Flatten(before) + (OK + rest));
            r.code == AtOk && r.ctx == Chars(cb, start, OK, |OK|)
  {
    QuietLines(cb, start, before);
    FinalLines();
    FirstFinalLineDecides(cb, start, before, OK, rest);
  }
}
