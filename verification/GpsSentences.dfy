/** Sentences on the wire: a printed sentence, sent to a receiver that has nothing pending, is
    handed over as one line, reported with its own fields and talker, and given to the decoder
    that its type names. */
module GpsSentences {
  import opened Bytes
  import opened Text
  import opened Nmea
  import opened NmeaSentences
  import opened GpsLines
  import opened Gps
  import opened GpsReceiver
  import opened GpsAbandoned

  /** The first field is a talker of two characters, not a proprietary one, and the name of a
      decoder; and the sentence fits the receiver. */
  predicate Sendable(fields: seq<seq<Byte>>, talker: seq<Byte>, kind: Kind) {
    && PlainFields(fields) && |fields| <= 64 && |Print(fields)| < 254
    && kind != Ignored && kind != Unknown
    && |talker| == 2 && talker[0] != 80 && fields[0] == talker + Name(kind)
  }

  lemma PrintIsLine(fields: seq<seq<Byte>>)
    requires PlainFields(fields) && |Print(fields)| < 254
    ensures IsLine(Print(fields)) && Holds(Clean(Print(fields)), Body(fields))
  {
    var line, body := Print(fields), Body(fields);
    JoinIsPlain(fields);
    forall k | 0 <= k < |line| - 1
      ensures line[k] != LF
    {
      if 0 < k <= |body| {
        assert line[k] == body[k - 1];
      }
    }
  }

  /** The line is accepted, and its report is the sentence. */
  lemma PrintIsAccepted(fields: seq<seq<Byte>>)
    requires PlainFields(fields) && |fields| <= 64 && |Print(fields)| < 254 && |fields[0]| >= 2 && fields[0][0] != 80
    ensures IsLine(Print(fields)) && Holds(Clean(Print(fields)), Body(fields))
    ensures Accepted(Print(fields)) && Recordable(Print(fields)) && !StopsAtPreamble(Print(fields))
    ensures ReportOf(Print(fields)) == Parsed(fields, fields[0][..2])
  {
    PrintIsLine(fields);
    var clean := Clean(Print(fields));
    PrintedIsValid(clean, fields);
    ParseOfPrint(clean, fields);
    FirstFieldAt(clean, fields);
    TalkerOfPrint(clean, fields);
  }

  lemma TypeOfPrint(fields: seq<seq<Byte>>, name: seq<Byte>)
    requires PlainFields(fields) && |Print(fields)| < 254 && IsLine(Print(fields)) && Accepted(Print(fields))
    requires Holds(Clean(Print(fields)), Body(fields))
    requires |fields[0]| >= 2 && fields[0][0] != 80 && fields[0][2..] == name
    ensures var after := Cleared(Clean(Print(fields)));
            TypeOf(Print(fields)) == 3 && 3 + |name| <= |after| && after[3..3 + |name|] == name
  {
    var clean := Clean(Print(fields));
    FirstFieldAt(clean, fields);
    TalkerOfPrint(clean, fields);
    StringFrom(Cleared(clean), 3, name, |name|);
    assert name[..|name|] == name;
  }

  lemma LineOfSentence(fields: seq<seq<Byte>>, talker: seq<Byte>, kind: Kind)
    requires Sendable(fields, talker, kind)
    ensures Accepted(Print(fields)) && Recordable(Print(fields)) && !StopsAtPreamble(Print(fields))
    ensures KindOf(Clean(Print(fields)), Print(fields)) == kind
    ensures ReportOf(Print(fields)) == Parsed(fields, talker)
  {
    assert fields[0][..2] == talker && fields[0][2..] == Name(kind) && fields[0][0] == talker[0];
    PrintIsAccepted(fields);
    TypeOfPrint(fields, Name(kind));
    TypeIsReadable(Clean(Print(fields)), Print(fields));
    KindIff(Cleared(Clean(Print(fields))), 3, kind);
  }

  /** Whatever the receiver has seen before. */
  lemma SentencePicksItsDecoder(stream: seq<Byte>, fields: seq<seq<Byte>>, talker: seq<Byte>, kind: Kind)
    requires Pending(stream) == [] && Sendable(fields, talker, kind)
    ensures SplitLines(stream + Print(fields)).0 == SplitLines(stream).0 + [Print(fields)]
    ensures KindsAfter(stream + Print(fields)) == KindsAfter(stream) + [kind]
    ensures IsLine(Print(fields)) && ReportOf(Print(fields)) == Parsed(fields, talker)
  {
    var line := Print(fields);
    LineOfSentence(fields, talker, kind);
    LineAfter(stream, line);
    KindFromLine(Completed(Overlay(BufferAfter(stream), 0, line[..|line| - 1]), |line| - 1), line);
    ReceivedIsSplitLines(stream);
    ReceivedIsSplitLines(stream + line);
  }

  /** In particular if it has just been started. */
  lemma FirstSentencePicksItsDecoder(fields: seq<seq<Byte>>, talker: seq<Byte>, kind: Kind)
    requires Sendable(fields, talker, kind)
    ensures SplitLines(Print(fields)).0 == [Print(fields)] && KindsAfter(Print(fields)) == [kind]
    ensures IsLine(Print(fields)) && ReportOf(Print(fields)) == Parsed(fields, talker)
  {
    SentencePicksItsDecoder([], fields, talker, kind);
    assert [] + Print(fields) == Print(fields) && SplitLines([]).0 == [] && KindsAfter([]) == [];
    assert [] + [Print(fields)] == [Print(fields)] && [] + [kind] == [kind];
  }
}
