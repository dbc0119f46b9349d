/** Numbers as text: decimal as printf writes and atoi reads it, and the hexadecimal
    payloads of the modem commands. */
module Numerals {
  import opened Bytes
  import opened Text
  import opened AtCommands

  const MINUS: Byte := 45

  predicate IsDigit(b: Byte) {
    48 <= b <= 57
  }

  /** The printed form of a number (%d of a non-negative value). */
  function Dec(n: nat): (text: seq<Byte>)
    ensures text != [] && forall k :: 0 <= k < |text| ==> IsDigit(text[k])
  {
    if n < 10 then [48 + n] else Dec(n / 10) + [48 + n % 10]
  }

  function Digits(s: seq<Byte>, sofar: nat): nat
    decreases |s|
  {
    if s == [] || !IsDigit(s[0]) then sofar else Digits(s[1..], 10 * sofar + (s[0] - 48))
  }

  /** atoi, without overflow. */
  function Atoi(s: seq<Byte>): int
    decreases |s|
  {
    if s == [] then 0
    else if IsSpace(s[0]) then Atoi(s[1..])
    else if s[0] == MINUS then 0 - Digits(s[1..], 0)
    else if s[0] == PLUS then Digits(s[1..], 0)
    else Digits(s, 0)
  }

  lemma {:induction false} DigitsOfDec(n: nat, rest: seq<Byte>)
    ensures Digits(Dec(n) + rest, 0) == Digits(rest, n)
  {
    if n < 10 {
      assert (Dec(n) + rest)[1..] == rest;
    } else {
      var last: Byte := 48 + n % 10;
      assert Dec(n) + rest == Dec(n / 10) + ([last] + rest);
      DigitsOfDec(n / 10, [last] + rest);
      assert ([last] + rest)[1..] == rest;
    }
  }

  /** atoi reads back a printed number, whatever follows that is not a digit. */
  lemma AtoiOfDec(n: nat, rest: seq<Byte>)
    requires rest == [] || !IsDigit(rest[0])
    ensures Atoi(Dec(n) + rest) == n
  {
    DigitsOfDec(n, rest);
    assert (Dec(n) + rest)[0] == Dec(n)[0];
  }

  lemma AtoiOfSigned(sign: seq<Byte>, n: nat, rest: seq<Byte>)
    requires (sign == [] || sign == [43] || sign == [45]) && (rest == [] || !IsDigit(rest[0]))
    ensures Atoi(sign + (Dec(n) + rest)) == if sign == [45] then 0 - n else n
  {
    AtoiOfDec(n, rest);
    if sign == [] {
      assert sign + (Dec(n) + rest) == Dec(n) + rest;
    } else {
      DigitsOfDec(n, rest);
      assert (sign + (Dec(n) + rest))[1..] == Dec(n) + rest;
    }
  }

  /** Blanks in front are skipped and a sign is obeyed. */
  lemma AtoiOfText(blanks: seq<Byte>, sign: seq<Byte>, n: nat, rest: seq<Byte>)
    requires forall k :: 0 <= k < |blanks| ==> blanks[k] == 32 || 9 <= blanks[k] <= 13
    requires (sign == [] || sign == [43] || sign == [45]) && (rest == [] || !IsDigit(rest[0]))
    ensures Atoi(blanks + (sign + (Dec(n) + rest))) == if sign == [45] then 0 - n else n
  {
    AtoiOfSigned(sign, n, rest);
    AtoiSkips(blanks, sign + (Dec(n) + rest));
  }

  lemma {:induction false} AtoiSkips(blanks: seq<Byte>, text: seq<Byte>)
    requires forall k :: 0 <= k < |blanks| ==> blanks[k] == 32 || 9 <= blanks[k] <= 13
    ensures Atoi(blanks + text) == Atoi(text)
  {
    if blanks == [] {
      assert [] + text == text;
    } else {
      AtoiSkips(blanks[1..], text);
      assert (blanks + text)[1..] == blanks[1..] + text;
    }
  }

  /** Text that starts with neither is no number, and reads as zero. */
  lemma AtoiOfOther(text: seq<Byte>)
    requires text == [] || !(text[0] in {32, 43, 45} || 9 <= text[0] <= 13 || 48 <= text[0] <= 57)
    ensures Atoi(text) == 0
  {
  }

  /** TO_HEX */
  function ToHex(i: nat): (c: Byte)
    requires i < 16
  {
    if i <= 9 then 48 + i else 55 + i
  }

  /** FROM_HEX */
  function FromHex(x: Byte): int {
    if x - 48 > 9 then x - 65 + 10 else x - 48
  }

  /** Shift, or, and truncation to a byte. */
  function Pack(high: int, low: int): (b: Byte) {
    var h, l := (16 * high) % 0x100, low % 0x100;
    BitOrByte(h, l);
    BitOr(h, l)
  }

  /** Two characters as the decoder packs them. */
  function FromHexPair(x: Byte, y: Byte): (b: Byte) {
    Pack(FromHex(x), FromHex(y))
  }

  lemma PackOfNibbles(high: nat, low: nat)
    requires high < 16 && low < 16
    ensures Pack(high, low) == 16 * high + low
  {
    assert (16 * high) % 0x100 == 16 * high && low % 0x100 == low;
    BitOrNibbles(high, low);
  }

  lemma HexDigits(x: Byte, y: Byte, high: int, low: int)
    requires HexDigit(x, high) && HexDigit(y, low)
    ensures 0 <= high < 16 && 0 <= low < 16 && x == ToHex(high) && y == ToHex(low)
    ensures FromHex(x) == high && FromHex(y) == low
  {
  }

  /** The decoder reads two hexadecimal digits as the number they stand for. */
  lemma FromHexPairOfDigits(x: Byte, y: Byte, value: int)
    requires HexPair(x, y, value)
    ensures FromHexPair(x, y) == value
  {
    var h, l :| HexDigit(x, h) && HexDigit(y, l) && 16 * h + l == value;
    HexDigits(x, y, h, l);
    PackOfNibbles(h, l);
  }

  /** And the sender writes such digits. */
  lemma HexPairOfByte(b: Byte)
    ensures HexPair(ToHex(b / 16), ToHex(b % 16), b)
  {
    assert HexDigit(ToHex(b / 16), b / 16) && HexDigit(ToHex(b % 16), b % 16);
  }

  lemma FromHexPairOfHex(b: Byte)
    ensures FromHexPair(ToHex(b / 16), ToHex(b % 16)) == b
  {
    HexPairOfByte(b);
    FromHexPairOfDigits(ToHex(b / 16), ToHex(b % 16), b);
  }

  /** A payload as offload_sendto writes it. */
  function Hex(payload: seq<Byte>): (text: seq<Byte>)
    ensures |text| == 2 * |payload|
  {
    if payload == [] then []
    else
      var n := |payload| - 1;
      Hex(payload[..n]) + [ToHex(payload[n] / 16), ToHex(payload[n] % 16)]
  }

  /** Two digits for each byte, in order. */
  lemma {:induction false} HexIsPairs(payload: seq<Byte>, k: nat)
    requires k < |payload|
    ensures HexPair(Hex(payload)[2 * k], Hex(payload)[2 * k + 1], payload[k])
  {
    var n := |payload| - 1;
    if k < n {
      HexIsPairs(payload[..n], k);
    } else {
      HexPairOfByte(payload[n]);
    }
  }
}
