/** Text made of parts with a separator between them: the fields of an NMEA sentence, the lines
    of a frame.  Joining parts and splitting text undo each other. */
module Separated {

  function Join<T>(parts: seq<seq<T>>, sep: T): (text: seq<T>)
    requires parts != []
  {
    var n := |parts| - 1;
    if n == 0 then parts[0] else Join(parts[..n], sep) + [sep] + parts[n]
  }

  function Split<T(==)>(text: seq<T>, sep: T): (parts: seq<seq<T>>)
    ensures parts != []
  {
    if text == [] then [[]]
    else
      var n := |text| - 1;
      SplitMore(Split(text[..n], sep), text[n], sep)
  }

  /** The parts of a text to which one element has been added. */
  function SplitMore<T(==)>(parts: seq<seq<T>>, x: T, sep: T): (more: seq<seq<T>>)
    requires parts != []
    ensures more != []
  {
    var last := |parts| - 1;
    if x == sep then parts + [[]] else parts[last := parts[last] + [x]]
  }

  lemma SplitSnoc<T>(text: seq<T>, x: T, sep: T)
    ensures Split(text + [x], sep) == SplitMore(Split(text, sep), x, sep)
  {
    assert (text + [x])[..|text|] == text;
  }

  lemma JoinSnoc<T>(parts: seq<seq<T>>, part: seq<T>, sep: T)
    requires parts != []
    ensures Join(parts + [part], sep) == Join(parts, sep) + [sep] + part
  {
    assert (parts + [part])[..|parts|] == parts;
  }

  /** Text without a separator goes to the last part. */
  function Extended<T>(parts: seq<seq<T>>, more: seq<T>): seq<seq<T>>
    requires parts != []
  {
    parts[|parts| - 1 := parts[|parts| - 1] + more]
  }

  lemma ExtendedTwice<T>(parts: seq<seq<T>>, more: seq<T>, x: T)
    requires parts != []
    ensures Extended(Extended(parts, more), [x]) == Extended(parts, more + [x])
  {
    var last := parts[|parts| - 1];
    assert (last + more) + [x] == last + (more + [x]);
  }

  lemma {:induction false} SplitAppend<T>(text: seq<T>, more: seq<T>, sep: T)
    requires sep !in more
    ensures Split(text + more, sep) == Extended(Split(text, sep), more)
  {
    if more == [] {
      assert text + more == text;
      assert Split(text, sep)[|Split(text, sep)| - 1] + more == Split(text, sep)[|Split(text, sep)| - 1];
    } else {
      var front, x := more[..|more| - 1], more[|more| - 1];
      assert more == front + [x];
      SplitAppend(text, front, sep);
      SplitSnoc(text + front, x, sep);
      ExtendedTwice(Split(text, sep), front, x);
      assert (text + front) + [x] == text + more;
    }
  }

  lemma SplitNextPart<T>(text: seq<T>, part: seq<T>, sep: T)
    requires sep !in part
    ensures Split(text + [sep] + part, sep) == Split(text, sep) + [part]
  {
    SplitSnoc(text, sep, sep);
    SplitAppend(text + [sep], part, sep);
    assert [] + part == part;
    assert Extended(Split(text, sep) + [[]], part) == Split(text, sep) + [part];
  }

  lemma SplitOnePart<T>(part: seq<T>, sep: T)
    requires sep !in part
    ensures Split(part, sep) == [part]
  {
    SplitAppend([], part, sep);
    assert [] + part == part;
  }

  /** Splitting undoes joining. */
  lemma {:induction false} SplitOfJoin<T>(parts: seq<seq<T>>, sep: T)
    requires parts != [] && forall k :: 0 <= k < |parts| ==> sep !in parts[k]
    ensures Split(Join(parts, sep), sep) == parts
  {
    var n := |parts| - 1;
    if n == 0 {
      SplitOnePart(parts[0], sep);
    } else {
      SplitOfJoin(parts[..n], sep);
      assert parts[..n] + [parts[n]] == parts;
      SplitNextPart(Join(parts[..n], sep), parts[n], sep);
    }
  }

  lemma JoinMore<T>(parts: seq<seq<T>>, x: T, sep: T)
    requires parts != []
    ensures Join(SplitMore(parts, x, sep), sep) == Join(parts, sep) + [x]
  {
    var n := |parts| - 1;
    if x == sep {
      JoinSnoc(parts, [], sep);
    } else {
      assert parts[n := parts[n] + [x]][..n] == parts[..n];
    }
  }

  /** Joining undoes splitting. */
  lemma {:induction false} JoinOfSplit<T>(text: seq<T>, sep: T)
    ensures Join(Split(text, sep), sep) == text
  {
    if text != [] {
      var n := |text| - 1;
      JoinOfSplit(text[..n], sep);
      JoinMore(Split(text[..n], sep), text[n], sep);
    }
  }
}
