/** NSORF replies that are less tidy than the modem's own: blanks anywhere in the line, and fields
    too long for the decoder. */
module NsorfFields {
  import opened Bytes
  import opened AtCommands
  import opened AtLines
  import opened AtDecoders
  import opened NsorfRoundTrip

  // ---------------------------------------------------------------------------
  // Blanks
  // ---------------------------------------------------------------------------

  /** The text without spaces, tabs and line ends. */
  function WithoutBlanks(text: seq<Byte>): (rest: seq<Byte>) {
    if text == [] then []
    else
      var n := |text| - 1;
      WithoutBlanks(text[..n]) + (if text[n] == 32 || 9 <= text[n] <= 13 then [] else [text[n]])
  }

  lemma ScanSnoc(c: NsorfCtx, text: seq<Byte>, b: Byte)
    ensures Scan(c, text + [b]) == NsorfChar(Scan(c, text), b, false, IsSpace(b))
  {
    assert (text + [b])[..|text|] == text;
  }

  lemma {:induction false} BlanksAreSkipped(c: NsorfCtx, text: seq<Byte>)
    ensures Scan(c, text) == Scan(c, WithoutBlanks(text))
  {
    if text != [] {
      var front, b := text[..|text| - 1], text[|text| - 1];
      assert front + [b] == text;
      BlanksAreSkipped(c, front);
      ScanSnoc(c, front, b);
      ScanSnoc(c, WithoutBlanks(front), b);
      assert WithoutBlanks(front) + [] == WithoutBlanks(front);
    }
  }

  /** However blanks are strewn over the line of a reply, the same datagram is decoded from it. */
  lemma SpacedRoundTrip(d: Datagram, line: seq<Byte>, before: seq<seq<Byte>>, between: seq<seq<Byte>>, rest: seq<Byte>)
    requires Fits(d) && IsLine(line) && CodeOf(line) == AtTimeout && PLUS !in line
    requires WithoutBlanks(line) == WithoutBlanks(ReplyLine(d)) && AllQuiet(before) && AllOrdinary(between)
    ensures var r := Decode(Nsorf(), NsorfStart(), OneLineReply(before, line, between, rest));
            r.code == AtOk && Delivered(r.ctx, d)
  {
    var start, end := NsorfStart(), LineCtx(Nsorf(), NsorfStart(), line);
    CharsAreScan(start, line, |line|);
    assert line[..|line|] == line;
    BlanksAreSkipped(start, line);
    BlanksAreSkipped(start, ReplyLine(d));
    ScanReply(d);
    NsorfIgnoresQuiet(start);
    QuietLines(Nsorf(), start, before);
    CompleteLines(end, between);
    LineDecides(Nsorf(), start, start, end, before, line, between, rest);
    FinalOk(end);
  }

  // ---------------------------------------------------------------------------
  // Long fields
  // ---------------------------------------------------------------------------

  /** After some characters of a field: those that fit are in the buffer. */
  ghost predicate InField(c: NsorfCtx, d: NsorfCtx, text: seq<Byte>) {
    && d.fieldno == c.fieldno && !d.complete && |d.field| == 16 && d.fieldindex == |text|
    && (d.overrun <==> |text| > 16)
    && (|text| <= 16 ==> d.field == text + Zeros(16 - |text|))
  }

  lemma {:induction false} ScanAnyText(c: NsorfCtx, text: seq<Byte>)
    requires c.fieldno < 4 && AtFieldStart(c, c.fieldno) && !c.overrun
    requires forall k :: 0 <= k < |text| ==> FieldChar(text[k])
    ensures InField(c, Scan(c, text), text)
  {
    if text == [] {
      assert [] + Zeros(16) == Zeros(16);
    } else {
      var n := |text| - 1;
      ScanAnyText(c, text[..n]);
      if n < 16 {
        assert (text[..n] + Zeros(16 - n))[n := text[n]] == text + Zeros(16 - |text|);
      }
    }
  }

  lemma CommaOverruns(d: NsorfCtx)
    requires !d.complete && d.fieldno < 4
    ensures NsorfChar(d, 44, false, false).overrun <==> d.overrun || (d.fieldno < 3 && 0 !in d.field)
  {
  }

  lemma ZeroInField(text: seq<Byte>)
    requires |text| <= 16 && forall k :: 0 <= k < |text| ==> FieldChar(text[k])
    ensures 0 in text + Zeros(16 - |text|) <==> |text| < 16
  {
    var field := text + Zeros(16 - |text|);
    if |text| < 16 {
      assert field[|text|] == 0;
    } else {
      assert field == text;
    }
  }

  /** The decoder leaves its field buffer exactly if a field has more than 16 characters, or
      exactly 16 and is one whose terminator is looked for, which is any but the length. */
  lemma FieldOverrunsIff(c: NsorfCtx, text: seq<Byte>)
    requires c.fieldno < 4 && AtFieldStart(c, c.fieldno) && !c.overrun
    requires forall k :: 0 <= k < |text| ==> FieldChar(text[k])
    ensures Scan(c, text + [44]).overrun <==> |text| > 16 || (|text| == 16 && c.fieldno < 3)
  {
    ScanAnyText(c, text);
    ScanSnoc(c, text, 44);
    CommaOverruns(Scan(c, text));
    if |text| <= 16 {
      ZeroInField(text);
    }
  }
}
