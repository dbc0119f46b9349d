/** From the wire to poll: the notifications in the modem's stream, through the rings, the URC
    thread and its callback into the socket table, whatever the interleavings on both sides. */
module NoticesToPoll {
  import Comms
  import opened UrcNotices
  import opened EndToEnd
  import opened SocketTable
  import SocketRuns
  import SlotHistory

  /** The notifications among the first n events at the table, as calls of the callback. */
  function Notifies(run: seq<SocketRuns.Event>, n: nat): (notices: seq<Comms.Notice>)
    requires n <= |run|
  {
    if n == 0 then []
    else
      Notifies(run, n - 1) + (if run[n - 1].Notify? then [Comms.Notice(run[n - 1].fd, run[n - 1].bytes)] else [])
  }

  /** The bytes that some calls announce for a modem id. */
  function Total(notices: seq<Comms.Notice>, id: int): nat {
    if notices == [] then 0
    else
      var n := notices[|notices| - 1];
      Total(notices[..|notices| - 1], id) + (if n.Notice? && n.fd == id && n.count > 0 then n.count else 0)
  }

  lemma TotalSnoc(notices: seq<Comms.Notice>, n: Comms.Notice, id: int)
    ensures Total(notices + [n], id) ==
            Total(notices, id) + (if n.Notice? && n.fd == id && n.count > 0 then n.count else 0)
  {
    assert (notices + [n])[..|notices|] == notices;
  }

  // ---------------------------------------------------------------------------
  // The table's side
  // ---------------------------------------------------------------------------

  /** The announcements in a slot's history are the calls. */
  predicate Matches(effect: SlotHistory.Effect, e: SocketRuns.Event) {
    if e.Notify? then effect == SlotHistory.Announce(e.fd, e.bytes) else !effect.Announce?
  }

  lemma EffectMatches(t: Table, e: SocketRuns.Event, slot: nat)
    ensures Matches(SocketRuns.EffectOf(t, e, slot), e)
  {
  }

  predicate AllMatch(history: seq<SlotHistory.Effect>, run: seq<SocketRuns.Event>) {
    |history| == |run| && forall m :: 0 <= m < |run| ==> Matches(history[m], run[m])
  }

  lemma HistoryMatches(run: seq<SocketRuns.Event>, worlds: seq<SocketRuns.World>, slot: nat,
                       history: seq<SlotHistory.Effect>)
    requires SocketRuns.IsHistory(run, worlds, slot, history)
    ensures AllMatch(history, run)
  {
    forall m | 0 <= m < |run|
      ensures Matches(history[m], run[m])
    {
      EffectMatches(worlds[m].table, run[m], slot);
    }
  }

  /** The calls between the k-th and the n-th event. */
  function Since(run: seq<SocketRuns.Event>, k: nat, n: nat): (notices: seq<Comms.Notice>)
    requires k <= n <= |run|
    decreases n - k
  {
    if k == n then []
    else
      Since(run, k, n - 1) + (if run[n - 1].Notify? then [Comms.Notice(run[n - 1].fd, run[n - 1].bytes)] else [])
  }

  lemma {:induction false} NotifiesSince(run: seq<SocketRuns.Event>, k: nat, n: nat)
    requires k <= n <= |run|
    ensures Notifies(run, n) == Notifies(run, k) + Since(run, k, n)
    decreases n
  {
    if k < n {
      NotifiesSince(run, k, n - 1);
      Regroup(Notifies(run, k), Since(run, k, n - 1),
              if run[n - 1].Notify? then [Comms.Notice(run[n - 1].fd, run[n - 1].bytes)] else []);
    }
  }

  lemma Regroup<T>(x: seq<T>, y: seq<T>, z: seq<T>)
    ensures (x + y) + z == x + (y + z)
  {
  }

  lemma {:induction false} AnnouncedIsTotal(run: seq<SocketRuns.Event>, history: seq<SlotHistory.Effect>,
                                            k: nat, n: nat, id: int)
    requires k <= n <= |run| && AllMatch(history, run)
    ensures SlotHistory.Announced(history, k, n, id) == Total(Since(run, k, n), id)
    decreases n
  {
    if k < n {
      assert Matches(history[n - 1], run[n - 1]);
      AnnouncedIsTotal(run, history, k, n - 1, id);
      if run[n - 1].Notify? {
        TotalSnoc(Since(run, k, n - 1), Comms.Notice(run[n - 1].fd, run[n - 1].bytes), id);
      } else {
        assert Since(run, k, n - 1) + [] == Since(run, k, n - 1);
      }
    }
  }

  /** What an open slot believes to be pending is what the calls announced since it was opened or
      last read. */
  lemma IncomingIsTotal(run: seq<SocketRuns.Event>, worlds: seq<SocketRuns.World>, i: nat) returns (k: nat)
    requires SocketRuns.Trace(run, worlds) && SocketRuns.OpenIn(worlds[|run|], i)
    ensures SlotHistory.LastSettled(SocketRuns.History(run, worlds, i), k, |run|)
    ensures var slot := worlds[|run|].table.slots[i]; slot.incoming == Total(Since(run, k, |run|), slot.id)
  {
    var history := SocketRuns.History(run, worlds, i);
    var w := worlds[|run|];
    var id := w.table.slots[i].id;
    k := SocketRuns.OpenSlotWasSettled(run, worlds, i, history);
    SocketRuns.EveryRunKeepsInv(run, worlds, |run|);
    assert SocketRuns.Faithful(w.table.slots[i], w.notes, i);
    SocketRuns.PendingOfHistory(run, worlds, |run|, i, id, history);
    SlotHistory.PendingIsAnnounced(history, k, |run|, id);
    HistoryMatches(run, worlds, i, history);
    AnnouncedIsTotal(run, history, k, |run|, id);
  }

  // ---------------------------------------------------------------------------
  // The wire's side
  // ---------------------------------------------------------------------------

  /** Where the stream stands after some of its notifications. */
  lemma {:induction false} LinesUpTo(lines: seq<ModemLine>, m: nat) returns (cut: nat)
    requires m <= |Expected(lines)|
    ensures cut <= |lines| && Expected(lines[..cut]) == Expected(lines)[..m]
    decreases |lines|
  {
    cut := |lines|;
    if m == |Expected(lines)| {
      assert lines[..cut] == lines;
    } else {
      var n := |lines| - 1;
      assert |Expected(lines[..n])| >= m;
      cut := LinesUpTo(lines[..n], m);
      assert lines[..n][..cut] == lines[..cut];
    }
  }

  /** A line that announces a positive number of bytes for the id. */
  predicate Announces(line: ModemLine, id: int) {
    line.Notification? && line.fd == id && line.count > 0
  }

  lemma {:induction false} TotalIsPositiveIff(lines: seq<ModemLine>, id: int)
    ensures Total(Expected(lines), id) > 0 <==> exists k :: 0 <= k < |lines| && Announces(lines[k], id)
  {
    if lines != [] {
      var front, line := lines[..|lines| - 1], lines[|lines| - 1];
      assert front + [line] == lines;
      TotalIsPositiveIff(front, id);
      LinesSnoc(front, line);
      if line.Notification? {
        TotalSnoc(Expected(front), Comms.Notice(line.fd, line.count), id);
      } else {
        assert Expected(front) + [] == Expected(front);
      }
    }
  }

  // ---------------------------------------------------------------------------
  // Both together
  // ---------------------------------------------------------------------------

  /** The pending bytes of an open socket are those the lines announced after some point. */
  lemma IncomingIsOnTheWire(r: Comms.Rings, modemRun: seq<Comms.Event>, s: Comms.State, lines: seq<ModemLine>,
                            run: seq<SocketRuns.Event>, worlds: seq<SocketRuns.World>, i: nat) returns (k: nat, cut: nat)
    requires Completed(r, modemRun, s, lines)
    requires SocketRuns.Trace(run, worlds) && Notifies(run, |run|) == s.thread.notices
    requires SocketRuns.OpenIn(worlds[|run|], i)
    ensures SlotHistory.LastSettled(SocketRuns.History(run, worlds, i), k, |run|)
    ensures cut <= |lines| && Notifies(run, k) == Expected(lines[..cut])
    ensures var slot := worlds[|run|].table.slots[i]; slot.incoming == Total(Expected(lines[cut..]), slot.id)
  {
    NoticesAre(r, modemRun, s, lines);
    k := IncomingIsTotal(run, worlds, i);
    NotifiesSince(run, k, |run|);
    cut := LinesUpTo(lines, |Notifies(run, k)|);
    SinceIsRest(lines, cut, Notifies(run, k), Since(run, k, |run|));
  }

  lemma PollAnswer(t: Table, i: nat)
    requires Sized(t) && i < |t.slots| && t.slots[i].inUse
    ensures Revent(t, 100 + i) == Ready(t.slots[i].incoming > 0)
  {
  }

  /** When all calls have entered the table: for every open socket, what is pending is what the
      lines announced for its modem id after the point in the stream that had been handled when
      the socket was opened or last read; and poll reports it exactly if one of those lines
      announced a positive number of bytes. */
  lemma PollReportsTheWire(r: Comms.Rings, modemRun: seq<Comms.Event>, s: Comms.State, lines: seq<ModemLine>,
                           run: seq<SocketRuns.Event>, worlds: seq<SocketRuns.World>, i: nat) returns (k: nat, cut: nat)
    requires Completed(r, modemRun, s, lines)
    requires SocketRuns.Trace(run, worlds) && Notifies(run, |run|) == s.thread.notices
    requires SocketRuns.OpenIn(worlds[|run|], i)
    ensures SlotHistory.LastSettled(SocketRuns.History(run, worlds, i), k, |run|)
    ensures cut <= |lines| && Notifies(run, k) == Expected(lines[..cut])
    ensures var slot := worlds[|run|].table.slots[i];
            && slot.incoming == Total(Expected(lines[cut..]), slot.id)
            && Sized(worlds[|run|].table)
            && Revent(worlds[|run|].table, 100 + i) ==
                 Ready(exists j :: cut <= j < |lines| && Announces(lines[j], slot.id))
  {
    var id := worlds[|run|].table.slots[i].id;
    k, cut := IncomingIsOnTheWire(r, modemRun, s, lines, run, worlds, i);
    SocketRuns.EveryRunKeepsInv(run, worlds, |run|);
    PollAnswer(worlds[|run|].table, i);
    TotalIsPositiveIff(lines[cut..], id);
    AnnouncedLater(lines, cut, id);
  }

  lemma NoticesAre(r: Comms.Rings, run: seq<Comms.Event>, s: Comms.State, lines: seq<ModemLine>)
    requires Completed(r, run, s, lines)
    ensures s.thread.notices == Expected(lines)
  {
    EveryNoticeExactlyOnce(r, run, s, lines);
  }

  lemma SamePieces<T>(x: seq<T>, y: seq<T>, u: seq<T>, v: seq<T>)
    requires x + y == u + v && |x| == |u|
    ensures x == u && y == v
  {
    assert x == (x + y)[..|x|] && u == (u + v)[..|u|];
    assert y == (x + y)[|x|..] && v == (u + v)[|u|..];
  }

  lemma Rejoin<T>(x: seq<T>, cut: nat)
    requires cut <= |x|
    ensures x[..cut] + x[cut..] == x
  {
  }

  lemma SinceIsRest(lines: seq<ModemLine>, cut: nat, handled: seq<Comms.Notice>, since: seq<Comms.Notice>)
    requires cut <= |lines| && handled + since == Expected(lines)
    requires Expected(lines[..cut]) == Expected(lines)[..|handled|]
    ensures handled == Expected(lines[..cut]) && since == Expected(lines[cut..])
  {
    Rejoin(lines, cut);
    ExpectedConcat(lines[..cut], lines[cut..]);
    SamePieces(handled, since, Expected(lines[..cut]), Expected(lines[cut..]));
  }

  lemma AnnouncedLater(lines: seq<ModemLine>, cut: nat, id: int)
    requires cut <= |lines|
    ensures (exists k :: 0 <= k < |lines[cut..]| && Announces(lines[cut..][k], id)) <==>
            (exists k :: cut <= k < |lines| && Announces(lines[k], id))
  {
    if k :| cut <= k < |lines| && Announces(lines[k], id) {
      assert lines[cut..][k - cut] == lines[k];
    }
  }
}
