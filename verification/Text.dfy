/** Characters that end or separate text, and the NUL-terminated strings of C. */
module Text {
  import opened Bytes

  const CR: Byte := 13
  const LF: Byte := 10
  const COMMA: Byte := 44

  /** A hexadecimal digit, 0 to 9 or A to F, and its value. */
  predicate HexDigit(c: Byte, value: int) {
    (48 <= c <= 57 && value == c - 48) || (65 <= c <= 70 && value == c - 55)
  }

  /** Two of them, and the number they are the digits of. */
  ghost predicate HexPair(x: Byte, y: Byte, value: int) {
    exists h, l :: HexDigit(x, h) && HexDigit(y, l) && 16 * h + l == value
  }

  /** The NUL-terminated string at an offset. */
  function CString(buf: seq<Byte>, at: nat): (text: seq<Byte>)
    decreases |buf| - at
  {
    if at >= |buf| || buf[at] == 0 then [] else [buf[at]] + CString(buf, at + 1)
  }

  lemma {:induction false} CStringOf(buf: seq<Byte>, at: nat, stop: nat)
    requires at <= stop < |buf| && buf[stop] == 0
    requires forall k :: at <= k < stop ==> buf[k] != 0
    ensures CString(buf, at) == buf[at..stop]
    decreases stop - at
  {
    if at < stop {
      CStringOf(buf, at + 1, stop);
    }
  }

  /** A string depends only on the bytes up to a NUL at or behind its start. */
  lemma {:induction false} CStringInPrefix(buf: seq<Byte>, other: seq<Byte>, at: nat, stop: nat)
    requires at <= stop < |buf| && stop < |other| && buf[stop] == 0
    requires forall k :: at <= k <= stop ==> buf[k] == other[k]
    ensures CString(buf, at) == CString(other, at)
    decreases stop - at
  {
    if at < stop {
      CStringInPrefix(buf, other, at + 1, stop);
    }
  }
}
