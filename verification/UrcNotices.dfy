/** Receive notifications: from a "+NSONMI: fd,count" line in the modem's byte stream,
    through the URC ring and the URC thread, to exactly one call of the receive callback,
    whatever the interleaving. */
module UrcNotices {
  import opened Bytes
  import opened Text
  import opened AtCommands
  import opened Numerals
  import opened Comms
  import opened UrcSelection

  // ---------------------------------------------------------------------------
  // The stream as the modem means it
  // ---------------------------------------------------------------------------

  /** A line from the modem: a receive notification, or anything else. */
  datatype ModemLine = Notification(fd: nat, count: nat) | Other(body: seq<Byte>)

  function Body(line: ModemLine): seq<Byte> {
    match line
    case Notification(fd, count) => [43, 78, 83, 79, 78, 77, 73, 58] + [32] + Dec(fd) + [44] + Dec(count)
    case Other(body) => body
  }

  /** Such a line is unsolicited. */
  predicate Opens(body: seq<Byte>) {
    body != [] && body[0] == 43
  }

  /** No line end inside; an unsolicited line fits the URC thread's buffer; and only
      notifications look like one. */
  predicate WellFormed(line: ModemLine) {
    && CR !in Body(line) && LF !in Body(line)
    && (Opens(Body(line)) ==> |Body(line)| < 64)
    && (line.Other? ==> !IsNsonmi(line.body))
  }

  predicate AllWellFormed(lines: seq<ModemLine>) {
    forall k :: 0 <= k < |lines| ==> WellFormed(lines[k])
  }

  function Stream(lines: seq<ModemLine>): seq<Byte> {
    if lines == [] then []
    else Stream(lines[..|lines| - 1]) + Body(lines[|lines| - 1]) + [13, 10]
  }

  /** The calls the modem's lines ask for, in order. */
  function Expected(lines: seq<ModemLine>): seq<Notice> {
    if lines == [] then []
    else
      var n := |lines| - 1;
      Expected(lines[..n]) + Meaning(lines[n])
  }

  function Meaning(line: ModemLine): seq<Notice> {
    if line.Notification? then [Notice(line.fd, line.count)] else []
  }

  lemma LinesSnoc(lines: seq<ModemLine>, line: ModemLine)
    ensures Stream(lines + [line]) == Stream(lines) + Body(line) + [CR, LF]
    ensures Expected(lines + [line]) == Expected(lines) + Meaning(line)
  {
    assert (lines + [line])[..|lines|] == lines;
  }

  // ---------------------------------------------------------------------------
  // What is selected from such a stream
  // ---------------------------------------------------------------------------

  /** Between lines of a stream that has lost nothing. */
  predicate AtLineStart(s: seq<Byte>) {
    Memory(s, NOTHING) == LF && !Inside(s, NOTHING)
  }

  /** The bytes of an open line: all of it if it starts with '+', else none. */
  lemma {:induction false} SelectedBody(before: seq<Byte>, body: seq<Byte>)
    requires AtLineStart(before) && CR !in body && LF !in body
    ensures Selected(before + body, NOTHING) == Selected(before, NOTHING) + (if Opens(body) then body else [])
    ensures Inside(before + body, NOTHING) == Opens(body)
    ensures body != [] ==> Memory(before + body, NOTHING) != LF
  {
    if body == [] {
      assert before + body == before;
      NothingMore(Selected(before, NOTHING));
    } else {
      var front, b := body[..|body| - 1], body[|body| - 1];
      SelectedBody(before, front);
      StreamSnoc(before + front, NOTHING, b);
      Regroup(before, front, b);
      Regroup(Selected(before, NOTHING), front, b);
      assert front + [b] == body;
      assert front == [] ==> before + front == before;
    }
  }

  lemma Regroup(x: seq<Byte>, y: seq<Byte>, b: Byte)
    ensures (x + y) + [b] == x + (y + [b])
  {
  }

  lemma NothingMore<T>(x: seq<T>)
    ensures x + [] == x
  {
  }

  /** A line end closes whatever was open. */
  lemma SelectedEnd(s: seq<Byte>)
    requires Memory(s, NOTHING) != LF || !Inside(s, NOTHING)
    ensures Selected(s + [CR, LF], NOTHING) == Selected(s, NOTHING) + (if Inside(s, NOTHING) then [CR] else [])
    ensures AtLineStart(s + [CR, LF])
  {
    StreamSnoc(s, NOTHING, CR);
    StreamSnoc(s + [CR], NOTHING, LF);
    assert (s + [CR]) + [LF] == s + [CR, LF];
    NothingMore(Selected(s + [CR], NOTHING));
  }

  lemma SelectedLine(before: seq<Byte>, body: seq<Byte>)
    requires AtLineStart(before) && CR !in body && LF !in body
    ensures var full := before + body + [CR, LF];
            && Selected(full, NOTHING) == Selected(before, NOTHING) + (if Opens(body) then body + [CR] else [])
            && AtLineStart(full)
  {
    SelectedBody(before, body);
    SelectedEnd(before + body);
    Regroup(Selected(before, NOTHING), body, CR);
    NothingMore(Selected(before, NOTHING));
  }

  function SelectedLines(lines: seq<ModemLine>): seq<Byte> {
    if lines == [] then []
    else
      var n := |lines| - 1;
      SelectedLines(lines[..n]) + (if Opens(Body(lines[n])) then Body(lines[n]) + [13] else [])
  }

  lemma {:induction false} SelectedStream(lines: seq<ModemLine>)
    requires AllWellFormed(lines)
    ensures Selected(Stream(lines), NOTHING) == SelectedLines(lines)
    ensures AtLineStart(Stream(lines))
  {
    if lines != [] {
      var n := |lines| - 1;
      SelectedStream(lines[..n]);
      assert WellFormed(lines[n]);
      SelectedLine(Stream(lines[..n]), Body(lines[n]));
    }
  }

  lemma {:induction false} SelectedIsMonotone(x: seq<Byte>, y: seq<Byte>)
    ensures Selected(x, NOTHING) <= Selected(x + y, NOTHING)
  {
    if y == [] {
      assert x + y == x;
    } else {
      var n := |y| - 1;
      SelectedIsMonotone(x, y[..n]);
      assert (x + y)[..|x + y| - 1] == x + y[..n];
    }
  }

  // ---------------------------------------------------------------------------
  // What the URC thread does with it
  // ---------------------------------------------------------------------------

  lemma {:induction false} ThreadConcat(t: Thread, x: seq<Byte>, y: seq<Byte>)
    ensures ThreadFrom(t, x + y) == ThreadFrom(ThreadFrom(t, x), y)
  {
    if y == [] {
      assert x + y == x;
    } else {
      var n := |y| - 1;
      ThreadConcat(t, x, y[..n]);
      assert (x + y)[..|x + y| - 1] == x + y[..n];
    }
  }

  lemma {:induction false} NoticesGrow(t: Thread, y: seq<Byte>)
    ensures t.notices <= ThreadFrom(t, y).notices && (t.overrun ==> ThreadFrom(t, y).overrun)
  {
    if y != [] {
      NoticesGrow(t, y[..|y| - 1]);
    }
  }

  lemma NoticesAreMonotone(t: Thread, x: seq<Byte>, y: seq<Byte>)
    ensures ThreadFrom(t, x).notices <= ThreadFrom(t, x + y).notices
    ensures ThreadFrom(t, x).overrun ==> ThreadFrom(t, x + y).overrun
  {
    ThreadConcat(t, x, y);
    NoticesGrow(ThreadFrom(t, x), y);
  }

  /** Between lines. */
  predicate Ready(t: Thread) {
    |t.buf| == URC_SIZE && t.index == 0 && !t.overrun
  }

  lemma {:induction false} ThreadBody(t: Thread, body: seq<Byte>)
    requires Ready(t) && |body| < URC_SIZE && CR !in body && LF !in body
    ensures var u := ThreadFrom(t, body);
            && |u.buf| == URC_SIZE && u.index == |body| && u.buf[..u.index] == body
            && u.notices == t.notices && !u.overrun
  {
    if body != [] {
      var n := |body| - 1;
      ThreadBody(t, body[..n]);
      var u := ThreadFrom(t, body[..n]);
      assert u.buf[n := body[n]][..n + 1] == u.buf[..n] + [body[n]];
      assert body == body[..n] + [body[n]];
    }
  }

  lemma CStringIs(buf: seq<Byte>, at: nat, text: seq<Byte>)
    requires at + |text| < |buf| && buf[at..at + |text|] == text && 0 !in text && buf[at + |text|] == 0
    ensures CString(buf, at) == text
  {
    assert forall k :: at <= k < at + |text| ==> buf[k] == text[k - at];
    CStringOf(buf, at, at + |text|);
  }

  lemma {:induction false} LastCommaIs(buf: seq<Byte>, n: nat, at: nat)
    requires at < n <= |buf| && buf[at] == COMMA && COMMA !in buf[at + 1..n]
    ensures LastComma(buf, n) == at
    decreases n
  {
    if at + 1 < n {
      assert buf[n - 1] == buf[at + 1..n][n - 1 - (at + 1)];
      assert buf[at + 1..n - 1] == buf[at + 1..n][..n - 1 - (at + 1)];
      LastCommaIs(buf, n - 1, at);
    }
  }

  lemma DecIsDigits(n: nat)
    ensures 0 !in Dec(n) && COMMA !in Dec(n) && CR !in Dec(n) && LF !in Dec(n) && Atoi(Dec(n)) == n
  {
    AtoiOfDec(n, []);
    assert Dec(n) + [] == Dec(n);
    assert forall k :: 0 <= k < |Dec(n)| ==> IsDigit(Dec(n)[k]);
  }

  /** The layout of a notification in the URC thread's buffer. */
  ghost predicate Holds(buf: seq<Byte>, fd: seq<Byte>, count: seq<Byte>, comma: nat, index: nat) {
    && comma == |NSONMI| + 1 + |fd| && index == comma + 1 + |count| && index < |buf|
    && buf[..|NSONMI|] == NSONMI
    && buf[|NSONMI| + 1..comma] == fd && buf[comma] == COMMA && buf[comma + 1..index] == count
  }

  lemma PartsOfPrefix(buf: seq<Byte>, x: seq<Byte>, sep: seq<Byte>, y: seq<Byte>, comma: Byte, z: seq<Byte>)
    requires x + sep + y + [comma] + z <= buf
    ensures var a := |x| + |sep|;
            var b := a + |y|;
            && buf[..|x|] == x && buf[a..b] == y && buf[b] == comma && buf[b + 1..b + 1 + |z|] == z
  {
    var body := x + sep + y + [comma] + z;
    assert forall k :: 0 <= k < |body| ==> buf[k] == body[k];
  }

  lemma BodyLayout(buf: seq<Byte>, fd: nat, count: nat)
    requires |Body(Notification(fd, count))| < |buf| && Body(Notification(fd, count)) <= buf
    ensures var comma := |NSONMI| + 1 + |Dec(fd)|;
            Holds(buf, Dec(fd), Dec(count), comma, |Body(Notification(fd, count))|)
  {
    PartsOfPrefix(buf, NSONMI, [32], Dec(fd), COMMA, Dec(count));
  }

  lemma CutKeeps(buf: seq<Byte>, index: nat, from: nat, to: nat)
    requires from <= to <= index < |buf| && COMMA !in buf[from..to]
    ensures Cut(buf, index)[from..to] == buf[from..to]
  {
    forall k | from <= k < to
      ensures Cut(buf, index)[k] == buf[k]
    {
      assert buf[k] == buf[from..to][k - from];
    }
  }

  lemma ThreadEnds(t: Thread, body: seq<Byte>) returns (buf: seq<Byte>)
    requires Ready(t) && |body| < URC_SIZE && CR !in body && LF !in body
    ensures |body| < |buf| && buf[..|body|] == body
    ensures var u := ThreadFrom(t, body + [CR]); Ready(u) && u.notices == t.notices + NoticeOf(buf, |body|)
  {
    ThreadBody(t, body);
    ThreadSnoc(t, body, CR);
    buf := ThreadFrom(t, body).buf;
  }

  // Lines that are not quite notifications.

  lemma PrefixParts(buf: seq<Byte>, index: nat, sep: Byte, rest: seq<Byte>)
    requires index < |buf| && buf[..index] == NSONMI + [sep] + rest
    ensures index == |NSONMI| + 1 + |rest| && IsNsonmi(buf[..index]) && buf[|NSONMI| + 1..index] == rest
    ensures forall k :: 0 <= k < |rest| ==> buf[|NSONMI| + 1 + k] == rest[k]
  {
    assert buf[..index][..|NSONMI|] == NSONMI;
    assert forall k :: 0 <= k < |rest| ==> buf[..index][|NSONMI| + 1 + k] == rest[k];
  }

  lemma FieldsAt(buf: seq<Byte>, from: nat, x: seq<Byte>, y: seq<Byte>, z: seq<Byte>, index: nat)
    requires y == [] || y[|y| - 1] == 44
    requires from + |x + [44] + y + z| == index <= |buf|
    requires forall k :: 0 <= k < |x + [44] + y + z| ==> buf[from + k] == (x + [44] + y + z)[k]
    ensures buf[from..from + |x|] == x && buf[from + |x|] == 44
    ensures buf[index - |z| - 1] == 44 && buf[index - |z|..index] == z
  {
    var rest := x + [44] + y + z;
    assert rest[..|x|] == x && rest[|x|] == 44 && rest[|x| + 1 + |y|..] == z;
    assert rest[|x| + |y|] == 44;
    forall k | 0 <= k < |z|
      ensures buf[index - |z|..index][k] == z[k]
    {
      assert rest[|x| + 1 + |y| + k] == z[k];
    }
  }

  /** A number up to a comma or the end of the line. */
  lemma NumberIs(buf: seq<Byte>, index: nat, from: nat, to: nat, n: nat)
    requires from <= to <= index < |buf| && buf[from..to] == Dec(n) && (to < index ==> buf[to] == COMMA)
    ensures CString(Cut(buf, index), from) == Dec(n) && Atoi(Dec(n)) == n
  {
    DecIsDigits(n);
    CutKeeps(buf, index, from, to);
    CStringIs(Cut(buf, index), from, Dec(n));
  }

  /** The numbers of a line lie behind the prefix and behind the last comma. */
  lemma NumbersAre(buf: seq<Byte>, index: nat, fd: nat, stop: nat, comma: nat, count: nat)
    requires |NSONMI| + 1 <= stop <= comma < index < |buf| && IsNsonmi(buf[..index])
    requires buf[|NSONMI| + 1..stop] == Dec(fd) && buf[stop] == COMMA
    requires buf[comma] == COMMA && buf[comma + 1..index] == Dec(count)
    ensures NoticeOf(buf, index) == [Notice(fd, count)]
  {
    DecIsDigits(count);
    LastCommaIs(buf, index, comma);
    NumberIs(buf, index, |NSONMI| + 1, stop, fd);
    NumberIs(buf, index, comma + 1, index, count);
  }

  lemma NoticeOfNotification(buf: seq<Byte>, fd: nat, count: nat, comma: nat, index: nat)
    requires Holds(buf, Dec(fd), Dec(count), comma, index)
    ensures NoticeOf(buf, index) == [Notice(fd, count)]
  {
    assert buf[..index][..|NSONMI|] == buf[..|NSONMI|];
    NumbersAre(buf, index, fd, comma, comma, count);
  }

  /** If the line has more than two numbers, the count is the one behind the last comma. */
  lemma NoticeOfFields(buf: seq<Byte>, index: nat, sep: Byte, fd: nat, middle: seq<Byte>, count: nat)
    requires index < |buf| && (middle == [] || middle[|middle| - 1] == 44)
    requires buf[..index] == NSONMI + [sep] + (Dec(fd) + [44] + middle + Dec(count))
    ensures NoticeOf(buf, index) == [Notice(fd, count)]
  {
    var from := |NSONMI| + 1;
    PrefixParts(buf, index, sep, Dec(fd) + [44] + middle + Dec(count));
    FieldsAt(buf, from, Dec(fd), middle, Dec(count), index);
    NumbersAre(buf, index, fd, from + |Dec(fd)|, index - |Dec(count)| - 1, count);
  }

  lemma {:induction false} NoCommaIs(buf: seq<Byte>, n: nat)
    requires n <= |buf| && COMMA !in buf[..n]
    ensures LastComma(buf, n) == -1
  {
    if n > 0 {
      assert buf[..n][n - 1] == buf[n - 1] && buf[..n - 1] == buf[..n][..n - 1];
      NoCommaIs(buf, n - 1);
    }
  }

  /** Without a comma there is no count to read. */
  lemma NoticeOfNumber(buf: seq<Byte>, index: nat, sep: Byte, fd: nat)
    requires index < |buf| && sep != 44 && buf[..index] == NSONMI + [sep] + Dec(fd)
    ensures NoticeOf(buf, index) == [NoCount(fd)]
  {
    var a := |NSONMI| + 1;
    PrefixParts(buf, index, sep, Dec(fd));
    DecIsDigits(fd);
    NoCommaIs(buf, index);
    NumberIs(buf, index, a, index, fd);
  }

  /** Each such line makes one call all the same; a line with any other beginning makes none. */
  lemma ThreadCalls(t: Thread, sep: Byte, fd: nat, middle: seq<Byte>, count: nat, body: seq<Byte>)
    requires Ready(t) && |body| < 64 && CR !in body && LF !in body
    ensures var u := ThreadFrom(t, body + [CR]);
            && Ready(u)
            && ((middle == [] || middle[|middle| - 1] == 44) &&
                body == NSONMI + [sep] + (Dec(fd) + [44] + middle + Dec(count)) ==>
                  u.notices == t.notices + [Notice(fd, count)])
            && (sep != 44 && body == NSONMI + [sep] + Dec(fd) ==> u.notices == t.notices + [NoCount(fd)])
            && (!([43, 78, 83, 79, 78, 77, 73, 58] <= body) ==> u.notices == t.notices)
  {
    var buf := ThreadEnds(t, body);
    if (middle == [] || middle[|middle| - 1] == 44) && body == NSONMI + [sep] + (Dec(fd) + [44] + middle + Dec(count)) {
      NoticeOfFields(buf, |body|, sep, fd, middle, count);
    }
    if sep != 44 && body == NSONMI + [sep] + Dec(fd) {
      NoticeOfNumber(buf, |body|, sep, fd);
    }
    NothingMore(t.notices);
  }

  /** A complete unsolicited line makes exactly the calls it means. */
  lemma ThreadLine(t: Thread, line: ModemLine)
    requires Ready(t) && WellFormed(line) && |Body(line)| < URC_SIZE
    ensures var u := ThreadFrom(t, Body(line) + [CR]);
            Ready(u) && u.notices == t.notices + Meaning(line)
  {
    var buf := ThreadEnds(t, Body(line));
    if line.Notification? {
      BodyLayout(buf, line.fd, line.count);
      NoticeOfNotification(buf, line.fd, line.count, |NSONMI| + 1 + |Dec(line.fd)|, |Body(line)|);
    } else {
      NothingMore(t.notices);
    }
  }

  lemma ThreadOpenLine(selected: seq<Byte>, line: ModemLine)
    requires Ready(ThreadFrom(NewThread(), selected)) && WellFormed(line) && Opens(Body(line))
    ensures var t, u := ThreadFrom(NewThread(), selected), ThreadFrom(NewThread(), selected + (Body(line) + [CR]));
            Ready(u) && u.notices == t.notices + Meaning(line)
  {
    ThreadConcat(NewThread(), selected, Body(line) + [CR]);
    ThreadLine(ThreadFrom(NewThread(), selected), line);
  }

  lemma ThreadLastLine(lines: seq<ModemLine>, n: nat)
    requires |lines| == n + 1 && WellFormed(lines[n])
    requires var t := ThreadFrom(NewThread(), SelectedLines(lines[..n]));
             Ready(t) && t.notices == Expected(lines[..n])
    ensures var u := ThreadFrom(NewThread(), SelectedLines(lines));
            Ready(u) && u.notices == Expected(lines)
  {
    if Opens(Body(lines[n])) {
      ThreadOpenLine(SelectedLines(lines[..n]), lines[n]);
    } else {
      if lines[n].Notification? {
        NotificationsStartWithPlus(lines[n]);
      }
      NothingMore(SelectedLines(lines[..n]));
      NothingMore(Expected(lines[..n]));
    }
  }

  lemma {:induction false} ThreadLines(lines: seq<ModemLine>)
    requires AllWellFormed(lines)
    ensures var u := ThreadFrom(NewThread(), SelectedLines(lines));
            Ready(u) && u.notices == Expected(lines)
  {
    if lines != [] {
      var n := |lines| - 1;
      ThreadLines(lines[..n]);
      assert WellFormed(lines[n]);
      ThreadLastLine(lines, n);
    }
  }

  lemma NotificationsStartWithPlus(line: ModemLine)
    requires line.Notification?
    ensures Opens(Body(line))
  {
    assert NSONMI[0] == PLUS;
  }

  // ---------------------------------------------------------------------------
  // Exactly once, in order
  // ---------------------------------------------------------------------------

  /** The queues are empty and nobody is in the middle of a byte. */
  predicate Quiescent(s: State) {
    s.pc == Idle && s.urc == [] && s.rx == []
  }

  lemma SelectedPrefix(x: seq<Byte>, y: seq<Byte>)
    requires x <= y
    ensures Selected(x, NOTHING) <= Selected(y, NOTHING)
  {
    assert x + y[|x|..] == y;
    SelectedIsMonotone(x, y[|x|..]);
  }

  lemma NoticesPrefix(x: seq<Byte>, y: seq<Byte>)
    requires x <= y
    ensures ThreadFrom(NewThread(), x).notices <= ThreadFrom(NewThread(), y).notices
    ensures ThreadFrom(NewThread(), x).overrun ==> ThreadFrom(NewThread(), y).overrun
  {
    assert x + y[|x|..] == y;
    NoticesAreMonotone(NewThread(), x, y[|x|..]);
  }

  /** In every run in which the URC ring drops no byte and what the reply ring drops disturbs no
      recognition of a '+', while the modem sends well-formed lines: the callbacks made so far
      are a prefix of those the lines ask for, and the URC thread stays inside its buffer; and
      if the reply ring drops nothing at all, every byte that has arrived completely is in the
      reply stream. */
  lemma NoticesInOrder(r: Rings, run: seq<Event>, s: State, lines: seq<ModemLine>)
    requires ValidRings(r) && Reaches(r, Initial(), run, s)
    requires Undisturbed(s.arrived, s.lost) && s.urcDropped == 0
    requires AllWellFormed(lines) && s.arrived <= Stream(lines)
    ensures s.thread.notices <= Expected(lines) && !s.thread.overrun
    ensures s.pc == Idle && s.lost == [] ==> s.delivered + s.rx == s.arrived
  {
    UrcConservation(r, run, s);
    RxConservation(r, run, s);
    SameSelection(s.arrived, s.lost);
    SelectedStream(lines);
    ThreadLines(lines);
    SelectedPrefix(s.arrived, Stream(lines));
    assert s.urcGot <= s.urcPut <= SelectedLines(lines);
    NoticesPrefix(s.urcGot, SelectedLines(lines));
  }

  /** And once everything sent has been processed, each notification has led to exactly one
      call, in stream order, with its own numbers; and if nothing was dropped the readers have
      had every byte. */
  lemma EveryNoticeExactlyOnce(r: Rings, run: seq<Event>, s: State, lines: seq<ModemLine>)
    requires ValidRings(r) && Reaches(r, Initial(), run, s)
    requires Undisturbed(s.arrived, s.lost) && s.urcDropped == 0
    requires AllWellFormed(lines) && s.arrived == Stream(lines) && Quiescent(s)
    ensures s.thread.notices == Expected(lines) && !s.thread.overrun
    ensures s.lost == [] ==> s.delivered == Stream(lines)
  {
    UrcConservation(r, run, s);
    RxConservation(r, run, s);
    SameSelection(s.arrived, s.lost);
    SelectedStream(lines);
    ThreadLines(lines);
    assert s.urcGot + [] == s.urcGot;
    assert s.delivered + [] == s.delivered;
  }
}
