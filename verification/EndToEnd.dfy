/** The modem stack as a whole: one stream of replies and unsolicited lines, taken apart by
    the UART callback, the URC thread and the decoders in any interleaving. */
module EndToEnd {
  import opened Bytes
  import opened Text
  import opened AtCommands
  import opened AtLines
  import opened AtDecoders
  import opened NsorfRoundTrip
  import Comms
  import opened UrcNotices

  // ---------------------------------------------------------------------------
  // The modem's stream as lines of text
  // ---------------------------------------------------------------------------

  function TextLine(line: ModemLine): seq<Byte> {
    Body(line) + BLANK
  }

  function TextLines(lines: seq<ModemLine>): (texts: seq<seq<Byte>>)
    ensures |texts| == |lines|
    ensures forall k :: 0 <= k < |lines| ==> texts[k] == TextLine(lines[k])
  {
    seq(|lines|, k requires 0 <= k < |lines| => TextLine(lines[k]))
  }

  lemma TextLinesConcat(x: seq<ModemLine>, y: seq<ModemLine>)
    ensures TextLines(x + y) == TextLines(x) + TextLines(y)
  {
  }

  lemma TextLinesSnoc(x: seq<ModemLine>, line: ModemLine)
    ensures TextLines(x + [line]) == TextLines(x) + [TextLine(line)]
  {
  }

  lemma FlattenOne(line: seq<Byte>)
    ensures Flatten([line]) == line
  {
    assert [line][1..] == [];
  }

  lemma {:induction false} StreamIsFlatten(lines: seq<ModemLine>)
    ensures Stream(lines) == Flatten(TextLines(lines))
  {
    if lines != [] {
      var n := |lines| - 1;
      StreamIsFlatten(lines[..n]);
      TextLinesSnoc(lines[..n], lines[n]);
      assert lines[..n] + [lines[n]] == lines;
      FlattenConcat(TextLines(lines[..n]), [TextLine(lines[n])]);
      FlattenOne(TextLine(lines[n]));
      LinesSnoc(lines[..n], lines[n]);
      assert Stream(lines[..n]) + Body(lines[n]) + [CR, LF] == Stream(lines[..n]) + TextLine(lines[n]);
    }
  }

  lemma BodyIsLine(body: seq<Byte>)
    requires CR !in body && LF !in body
    ensures IsLine(body + BLANK)
  {
    var line := body + BLANK;
    assert forall k :: 0 <= k < |body| ==> line[k] == body[k];
    EndOfLineIs(line, 0, |line|);
  }

  lemma TextsAreLines(lines: seq<ModemLine>)
    requires AllWellFormed(lines)
    ensures AllLines(TextLines(lines))
  {
    forall k | 0 <= k < |lines|
      ensures IsLine(TextLines(lines)[k])
    {
      assert WellFormed(lines[k]);
      BodyIsLine(Body(lines[k]));
    }
  }

  // ---------------------------------------------------------------------------
  // Both sides at once
  // ---------------------------------------------------------------------------

  /** A run in which everything the modem sent has been processed and nothing was dropped. */
  ghost predicate Completed(r: Comms.Rings, run: seq<Comms.Event>, s: Comms.State, lines: seq<ModemLine>) {
    && Comms.ValidRings(r) && Comms.Reaches(r, Comms.Initial(), run, s)
    && s.lost == [] && s.urcDropped == 0
    && AllWellFormed(lines) && s.arrived == Stream(lines) && Quiescent(s)
  }

  /** In every such run the URC thread has made exactly the calls the notifications ask for,
      and a decoder over what the readers were given sees the reply lines alone, however
      notifications and other unsolicited lines were mixed in. */
  lemma NoticesAndReplies<Ctx(!new)>(r: Comms.Rings, run: seq<Comms.Event>, s: Comms.State, lines: seq<ModemLine>,
                                   cb: Callbacks<Ctx>, settled: Ctx -> bool, ctx: Ctx)
    requires Completed(r, run, s, lines)
    requires Disregards(cb, settled) && settled(ctx)
    ensures s.thread.notices == Expected(lines)
    ensures var all, kept := Decode(cb, ctx, s.delivered), Decode(cb, ctx, Flatten(Replies(TextLines(lines))));
            all.code == kept.code && all.ctx == kept.ctx
  {
    EveryNoticeExactlyOnce(r, run, s, lines);
    StreamIsFlatten(lines);
    TextsAreLines(lines);
    RepliesDecide(cb, settled, ctx, TextLines(lines), []);
    assert Flatten(TextLines(lines)) + [] == Flatten(TextLines(lines));
    assert Flatten(Replies(TextLines(lines))) + [] == Flatten(Replies(TextLines(lines)));
  }

  // ---------------------------------------------------------------------------
  // A datagram among notifications
  // ---------------------------------------------------------------------------

  /** Blank lines and unsolicited ones, notifications included. */
  predicate AllAside(lines: seq<ModemLine>) {
    forall k :: 0 <= k < |lines| ==> Body(lines[k]) == [] || Body(lines[k])[0] == PLUS
  }

  lemma AsideIsQuiet(lines: seq<ModemLine>)
    requires AllAside(lines) && AllWellFormed(lines)
    ensures AllQuiet(TextLines(lines))
  {
    TextsAreLines(lines);
    forall k | 0 <= k < |lines|
      ensures Quiet(TextLines(lines)[k])
    {
      if Body(lines[k]) == [] {
        assert [] + BLANK == BLANK;
      }
    }
  }

  /** What the modem sends: a reply line, then OK, with other lines before each. */
  function Conversation(before: seq<ModemLine>, reply: ModemLine, between: seq<ModemLine>): seq<ModemLine> {
    before + [reply] + (between + [Other([79, 75])])
  }

  lemma ConversationIsReply(d: Datagram, before: seq<ModemLine>, reply: ModemLine, between: seq<ModemLine>)
    requires TextLine(reply) == ReplyLine(d)
    ensures Stream(Conversation(before, reply, between)) == Reply(d, TextLines(before), TextLines(between), [])
  {
    var ok: ModemLine := Other([79, 75]);
    var lines := Conversation(before, reply, between);
    StreamIsFlatten(lines);
    assert TextLine(ok) == OK;
    TextLinesSnoc(before, reply);
    TextLinesSnoc(between, ok);
    TextLinesConcat(before + [reply], between + [ok]);
    FlattenParts(TextLines(before), ReplyLine(d), TextLines(between), OK);
  }

  lemma FlattenParts(x: seq<seq<Byte>>, a: seq<Byte>, y: seq<seq<Byte>>, b: seq<Byte>)
    ensures Flatten(x + [a] + (y + [b])) == Flatten(x) + (a + (Flatten(y) + (b + [])))
  {
    FlattenConcat(x + [a], y + [b]);
    FlattenConcat(x, [a]);
    FlattenConcat(y, [b]);
    FlattenOne(a);
    FlattenOne(b);
    Regroup(Flatten(x), a, Flatten(y), b);
  }

  lemma Regroup(x: seq<Byte>, a: seq<Byte>, y: seq<Byte>, b: seq<Byte>)
    ensures (x + a) + (y + b) == x + (a + (y + (b + [])))
  {
  }

  /** From the wire to the caller, under every interleaving: a datagram sent while
      notifications arrive is decoded with exactly its payload, length and sender, and each
      notification leads to exactly one call, in order, with its own numbers. */
  lemma DatagramAndNotices(r: Comms.Rings, run: seq<Comms.Event>, s: Comms.State,
                           d: Datagram, before: seq<ModemLine>, reply: ModemLine, between: seq<ModemLine>)
    requires Completed(r, run, s, Conversation(before, reply, between))
    requires Fits(d) && reply.Other? && TextLine(reply) == ReplyLine(d)
    requires AllAside(before) && AllWellFormed(before) && AllAside(between) && AllWellFormed(between)
    ensures var out := Decode(Nsorf(), NsorfStart(), s.delivered);
            out.code == AtOk && Delivered(out.ctx, d)
    ensures s.thread.notices == Expected(before) + Expected(between)
  {
    EveryNoticeExactlyOnce(r, run, s, Conversation(before, reply, between));
    ConversationIsReply(d, before, reply, between);
    AsideIsQuiet(before);
    AsideIsQuiet(between);
    QuietAreOrdinary(TextLines(between));
    RoundTrip(d, TextLines(before), TextLines(between), []);
    ExpectedParts(before, reply, between);
  }

  lemma ExpectedConcatOne(x: seq<ModemLine>, z: seq<ModemLine>, line: ModemLine)
    requires Expected(x + z) == Expected(x) + Expected(z)
    ensures Expected(x + (z + [line])) == Expected(x) + Expected(z + [line])
  {
    assert x + (z + [line]) == (x + z) + [line];
    LinesSnoc(x + z, line);
    LinesSnoc(z, line);
    RegroupNotices(Expected(x), Expected(z), Meaning(line));
  }

  lemma {:induction false} ExpectedConcat(x: seq<ModemLine>, y: seq<ModemLine>)
    ensures Expected(x + y) == Expected(x) + Expected(y)
  {
    if y == [] {
      assert x + y == x;
    } else {
      var n := |y| - 1;
      var z, line := y[..n], y[n];
      ExpectedConcat(x, z);
      assert z + [line] == y;
      ExpectedConcatOne(x, z, line);
    }
  }

  lemma RegroupNotices(x: seq<Comms.Notice>, y: seq<Comms.Notice>, z: seq<Comms.Notice>)
    ensures (x + y) + z == x + (y + z)
  {
  }

  lemma ExpectedOther(x: seq<ModemLine>, line: ModemLine)
    requires line.Other?
    ensures Expected(x + [line]) == Expected(x)
  {
    LinesSnoc(x, line);
    assert Expected(x) + [] == Expected(x);
  }

  lemma ExpectedParts(before: seq<ModemLine>, reply: ModemLine, between: seq<ModemLine>)
    requires reply.Other?
    ensures Expected(Conversation(before, reply, between)) == Expected(before) + Expected(between)
  {
    ExpectedConcat(before + [reply], between + [Other([79, 75])]);
    ExpectedOther(before, reply);
    ExpectedOther(between, Other([79, 75]));
  }
}
