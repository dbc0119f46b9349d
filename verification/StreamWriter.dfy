/** The writer of a streaming client (server/pkg/pipeline/stream/client.go): it takes messages
    from its channel and packs whatever is queued into one text frame, one message a line. */
module StreamWriter {
  import opened Broker
  import opened Separated

  const NEWLINE := '\n'

  predicate OneLine(m: Message) {
    NEWLINE !in m
  }

  /** Messages as compact JSON contain no line feed. */
  predicate OneLiners(messages: seq<Message>) {
    forall k :: 0 <= k < |messages| ==> OneLine(messages[k])
  }

  function Frame(messages: seq<Message>): string
    requires messages != []
  {
    Join(messages, NEWLINE)
  }

  /** What a reader that cuts a frame at its line feeds sees. */
  function Lines(text: string): (lines: seq<Message>)
    ensures lines != []
  {
    Split(text, '\n')
  }

  /** All the messages a reader of the frames sees. */
  function Seen(frames: seq<string>): seq<Message> {
    if frames == [] then [] else Seen(frames[..|frames| - 1]) + Lines(frames[|frames| - 1])
  }

  lemma NextInQueue(all: seq<Message>, arriving: seq<Message>, k: nat)
    requires k < |all|
    ensures (all[k..] + arriving)[0] == all[k] && (all[k..] + arriving)[1..] == all[k + 1..] + arriving
    ensures all[..k] + [all[k]] == all[..k + 1]
  {
  }

  class Writer {
    var queue: seq<Message>
    var closed: bool
    var frames: seq<string>
    var closeSent: bool
    ghost var taken: seq<Message>

    /** Everything taken from the channel has reached the connection, in order. */
    ghost predicate Valid()
      reads this
    {
      OneLiners(queue) && Seen(frames) == taken
    }

    constructor ()
      ensures Valid() && taken == [] && queue == [] && !closed && !closeSent
    {
      queue, closed, frames, closeSent, taken := [], false, [], false, [];
    }

    method Receive() returns (message: Message)
      requires queue != []
      modifies this`queue, this`taken
      ensures message == old(queue)[0] && queue == old(queue)[1..] && taken == old(taken) + [message]
    {
      message := queue[0];
      queue, taken := queue[1..], taken + [message];
    }

    /** The rest of a frame: as many messages as were queued when the length was read.  Those
        that the broker queues after that wait for the next frame. */
    method Pack(first: Message, arriving: seq<Message>) returns (w: string)
      modifies this`queue, this`taken
      ensures w == Frame([first] + old(queue))
      ensures taken == old(taken) + old(queue) && queue == arriving
    {
      w := first;
      var n := |queue|;
      ghost var all := queue;
      queue := queue + arriving;
      assert queue == all[0..] + arriving && taken == taken + all[..0] && [first] + all[..0] == [first];
      for i := 0 to n
        invariant queue == all[i..] + arriving
        invariant taken == old(taken) + all[..i]
        invariant w == Frame([first] + all[..i])
      {
        NextInQueue(all, arriving, i);
        JoinSnoc([first] + all[..i], all[i], NEWLINE);
        assert [first] + all[..i + 1] == ([first] + all[..i]) + [all[i]];
        var message := Receive();
        w := w + [NEWLINE] + message;
      }
      assert all[..n] == all && all[n..] == [];
    }

    /** The send branch of writeLoop; opens and closes say whether the connection gives a
        writer for the frame, and whether the frame can be finished.  A closed channel is
        drained before the close is seen and passed on.  Once a frame has failed the writer
        stops, and what it took for that frame never arrives. */
    method WriteTurn(arriving: seq<Message>, opens: bool, closes: bool) returns (more: bool)
      requires Valid() && (queue == [] ==> closed)
      requires OneLiners(arriving) && (closed ==> arriving == [])
      modifies this`queue, this`taken, this`frames, this`closeSent
      ensures more == (old(queue) != [] && opens && closes)
      ensures more ==> Valid() && taken == old(taken) + old(queue) && queue == arriving && |frames| == |old(frames)| + 1
      ensures !more ==> frames == old(frames) && Seen(frames) == old(taken) <= taken <= old(taken) + old(queue)
      ensures closeSent == (old(closeSent) || old(queue) == [])
    {
      if queue == [] {
        closeSent := true;
        return false;
      }
      ghost var all := queue;
      var message := Receive();
      assert all == [message] + queue;
      if !opens {
        return false;
      }
      var w := Pack(message, arriving);
      assert taken == old(taken) + all;
      if !closes {
        return false;
      }
      SplitOfJoin(all, NEWLINE);
      frames := frames + [w];
      assert frames[..|frames| - 1] == old(frames);
      return true;
    }
  }
}
