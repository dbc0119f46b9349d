/** The shift register behind the sensor checksum: sixteen cells, cell 0 shifted out
    first, taps where the reflected polynomial 0xA001 has its bits.  This is the
    reference the word-at-a-time code of Crc16 is proved against; all error-detection
    arguments are made here. */
module ShiftRegister {

  type Register = r: seq<bool> | |r| == 16 witness seq(16, i => false)

  function Zeros(): Register {
    seq(16, i => false)
  }

  function AllSet(): Register {
    seq(16, i => true)
  }

  predicate Tap(i: nat) {
    i == 0 || i == 13 || i == 15
  }

  /** One shift; the cell shifted out is added back in at the taps. */
  function Step(r: Register): Register {
    seq(16, i requires 0 <= i < 16 => (i < 15 && r[i + 1]) != (r[0] && Tap(i)))
  }

  /** The shift run backwards: the last cell tells what was shifted out. */
  function Unstep(r: Register): Register {
    seq(16, i requires 0 <= i < 16 => if i == 0 then r[15] else r[i - 1] != (r[15] && Tap(i - 1)))
  }

  function Steps(r: Register, n: nat): Register
    decreases n, r
  {
    if n == 0 then r else Step(Steps(r, n - 1))
  }

  /** A message bit enters at cell 0 before the shift. */
  function Flip(r: Register, bit: bool): Register {
    r[0 := r[0] != bit]
  }

  function Feed(r: Register, bits: seq<bool>): Register {
    if bits == [] then r
    else Step(Flip(Feed(r, bits[..|bits| - 1]), bits[|bits| - 1]))
  }

  function Xor(x: seq<bool>, y: seq<bool>): (r: seq<bool>)
    requires |x| == |y|
    ensures |r| == |x|
  {
    seq(|x|, i requires 0 <= i < |x| => x[i] != y[i])
  }

  // ---------------------------------------------------------------------------
  // Nothing is lost in a shift, and the register is linear
  // ---------------------------------------------------------------------------

  lemma StepIsABijection(r: Register)
    ensures Unstep(Step(r)) == r
    ensures Step(Unstep(r)) == r
  {
  }

  lemma {:induction false} StepsInjective(x: Register, y: Register, n: nat)
    requires Steps(x, n) == Steps(y, n)
    ensures x == y
  {
    if n > 0 {
      StepIsABijection(Steps(x, n - 1));
      StepIsABijection(Steps(y, n - 1));
      StepsInjective(x, y, n - 1);
    }
  }

  lemma {:induction false} StepsOfZero(n: nat)
    ensures Steps(Zeros(), n) == Zeros()
  {
    if n > 0 {
      StepsOfZero(n - 1);
      assert Step(Zeros()) == Zeros();
    }
  }

  lemma StepLinear(x: Register, y: Register)
    ensures Step(Xor(x, y)) == Xor(Step(x), Step(y))
  {
  }

  lemma {:induction false} FeedLinear(r: Register, s: Register, x: seq<bool>, y: seq<bool>)
    requires |x| == |y|
    ensures Feed(Xor(r, s), Xor(x, y)) == Xor(Feed(r, x), Feed(s, y))
  {
    if x != [] {
      var n := |x| - 1;
      FeedLinear(r, s, x[..n], y[..n]);
      assert Xor(x, y)[..n] == Xor(x[..n], y[..n]);
      var p, q := Feed(r, x[..n]), Feed(s, y[..n]);
      assert Flip(Xor(p, q), x[n] != y[n]) == Xor(Flip(p, x[n]), Flip(q, y[n]));
      StepLinear(Flip(p, x[n]), Flip(q, y[n]));
    }
  }

  lemma {:induction false} FeedConcat(r: Register, x: seq<bool>, y: seq<bool>)
    ensures Feed(r, x + y) == Feed(Feed(r, x), y)
  {
    if y == [] {
      assert x + y == x;
    } else {
      var n := |y| - 1;
      assert (x + y)[..|x + y| - 1] == x + y[..n];
      FeedConcat(r, x, y[..n]);
    }
  }

  // ---------------------------------------------------------------------------
  // Feeding a word bit by bit is adding it in at once
  // ---------------------------------------------------------------------------

  function Pad(bits: seq<bool>): Register
    requires |bits| <= 16
  {
    seq(16, i requires 0 <= i < 16 => i < |bits| && bits[i])
  }

  lemma StepPadded(r: Register, n: nat, bits: seq<bool>)
    requires n < |bits| <= 16
    ensures Step(Xor(r, Pad(bits[n..]))) == Xor(Step(Flip(r, bits[n])), Pad(bits[n + 1..]))
  {
  }

  lemma {:induction false} FeedPrefix(r: Register, bits: seq<bool>, n: nat)
    requires n <= |bits| <= 16
    ensures Steps(Xor(r, Pad(bits)), n) == Xor(Feed(r, bits[..n]), Pad(bits[n..]))
  {
    if n == 0 {
      assert bits[0..] == bits;
    } else {
      FeedPrefix(r, bits, n - 1);
      assert bits[..n][..n - 1] == bits[..n - 1];
      StepPadded(Feed(r, bits[..n - 1]), n - 1, bits);
    }
  }

  /** Up to the width of the register, the serial feed equals one addition followed by
      as many shifts. */
  lemma FeedWord(r: Register, bits: seq<bool>)
    requires |bits| <= 16
    ensures Feed(r, bits) == Steps(Xor(r, Pad(bits)), |bits|)
  {
    FeedPrefix(r, bits, |bits|);
    assert bits[..|bits|] == bits;
    var f := Feed(r, bits);
    assert Xor(f, Pad([])) == f;
  }

  // ---------------------------------------------------------------------------
  // Error detection
  // ---------------------------------------------------------------------------

  lemma {:induction false} FeedZeros(r: Register, bits: seq<bool>)
    requires forall i :: 0 <= i < |bits| ==> !bits[i]
    ensures Feed(r, bits) == Steps(r, |bits|)
  {
    if bits != [] {
      var n := |bits| - 1;
      FeedZeros(r, bits[..n]);
      var f := Feed(r, bits[..n]);
      assert Flip(f, false) == f;
    }
  }

  lemma ShortWordLeavesATrace(word: seq<bool>, k: nat)
    requires k < |word| <= 16 && word[k]
    ensures Feed(Zeros(), word) != Zeros()
  {
    FeedWord(Zeros(), word);
    StepsOfZero(|word|);
    assert Xor(Zeros(), Pad(word))[k];
    if Feed(Zeros(), word) == Zeros() {
      StepsInjective(Xor(Zeros(), Pad(word)), Zeros(), |word|);
    }
  }

  lemma ZeroFramedWord(before: seq<bool>, word: seq<bool>, after: seq<bool>)
    requires forall i :: 0 <= i < |before| ==> !before[i]
    requires forall i :: 0 <= i < |after| ==> !after[i]
    ensures Feed(Zeros(), before + word + after) == Zeros() <==> Feed(Zeros(), word) == Zeros()
  {
    FeedConcat(Zeros(), before + word, after);
    FeedConcat(Zeros(), before, word);
    FeedZeros(Zeros(), before);
    StepsOfZero(|before|);
    FeedZeros(Feed(Zeros(), word), after);
    StepsOfZero(|after|);
    if Feed(Zeros(), before + word + after) == Zeros() {
      StepsInjective(Feed(Zeros(), word), Zeros(), |after|);
    }
  }

  /** An error pattern confined to a window no wider than the register leaves a trace,
      however long the message is before and after it. */
  lemma BurstLeavesATrace(errors: seq<bool>, lo: nat, width: nat, k: nat)
    requires width <= 16 && lo + width <= |errors|
    requires forall i :: 0 <= i < |errors| && errors[i] ==> lo <= i < lo + width
    requires k < |errors| && errors[k]
    ensures Feed(Zeros(), errors) != Zeros()
  {
    var before, word, after := errors[..lo], errors[lo..lo + width], errors[lo + width..];
    assert errors == before + word + after;
    ZeroFramedWord(before, word, after);
    ShortWordLeavesATrace(word, k - lo);
  }

  /** x^16 + x^15 + x^2 + 1, highest power first. */
  predicate IsGenerator(word: seq<bool>) {
    |word| == 17 && forall i :: 0 <= i < 17 ==> (word[i] <==> i == 0 || i == 1 || i == 14 || i == 16)
  }

  lemma OneBitLeavesTheTaps()
    ensures forall i :: 0 <= i < 16 ==> Feed(Zeros(), [true])[i] == Tap(i)
  {
    assert [true][..0] == [];
    assert Feed(Zeros(), [true]) == Step(Flip(Zeros(), true));
  }

  lemma TapsBehindTop(word: seq<bool>, taps: Register, rest: Register)
    requires word == [true] + rest && forall i :: 0 <= i < 16 ==> taps[i] == Tap(i)
    ensures IsGenerator(word) <==> taps == rest
  {
    if IsGenerator(word) {
      assert forall i :: 0 <= i < 16 ==> rest[i] == word[i + 1];
    }
  }

  /** The first pattern that leaves no trace is one bit wider than the register, and it is the
      polynomial itself. */
  lemma GeneratorLeavesNoTrace(word: seq<bool>)
    requires |word| == 17 && word[0]
    ensures Feed(Zeros(), word) == Zeros() <==> IsGenerator(word)
  {
    var taps, rest: Register := Feed(Zeros(), [true]), word[1..];
    assert word == [true] + rest;
    OneBitLeavesTheTaps();
    FeedConcat(Zeros(), [true], rest);
    FeedWord(taps, rest);
    assert Pad(rest) == rest;
    StepsOfZero(16);
    XorIsZero(taps, rest);
    if Feed(Zeros(), word) == Zeros() {
      StepsInjective(Xor(taps, rest), Zeros(), 16);
    }
    TapsBehindTop(word, taps, rest);
  }

  lemma XorIsZero(x: Register, y: Register)
    ensures Xor(x, y) == Zeros() <==> x == y
  {
    assert forall i :: 0 <= i < 16 ==> Xor(x, y)[i] == (x[i] != y[i]);
  }

  /** Anywhere in a message of zeros. */
  lemma WideBurstLeavesNoTrace(errors: seq<bool>, lo: nat)
    requires lo + 17 <= |errors| && errors[lo]
    requires forall i :: 0 <= i < |errors| && errors[i] ==> lo <= i < lo + 17
    ensures Feed(Zeros(), errors) == Zeros() <==> IsGenerator(errors[lo..lo + 17])
  {
    var before, word, after := errors[..lo], errors[lo..lo + 17], errors[lo + 17..];
    assert errors == before + word + after;
    ZeroFramedWord(before, word, after);
    GeneratorLeavesNoTrace(word);
  }

  // ---------------------------------------------------------------------------
  // Where the register starts
  // ---------------------------------------------------------------------------

  /** Different registers stay different, whatever is fed into both. */
  lemma {:induction false} FeedInjective(r: Register, s: Register, bits: seq<bool>)
    requires Feed(r, bits) == Feed(s, bits)
    ensures r == s
  {
    if bits != [] {
      var n := |bits| - 1;
      var p, q := Feed(r, bits[..n]), Feed(s, bits[..n]);
      StepIsABijection(Flip(p, bits[n]));
      StepIsABijection(Flip(q, bits[n]));
      assert p == Flip(Flip(p, bits[n]), bits[n]) && q == Flip(Flip(q, bits[n]), bits[n]);
      FeedInjective(r, s, bits[..n]);
    }
  }

  /** The first shift of a full register clears the cell behind a tap, and the gap moves on. */
  lemma {:induction false} GapMovesDown(n: nat)
    requires 0 < n < 14
    ensures !Steps(AllSet(), n)[14 - n]
  {
    if n == 1 {
      assert Steps(AllSet(), 1) == Step(Steps(AllSet(), 0));
    } else {
      GapMovesDown(n - 1);
    }
  }

  /** The number of bits set. */
  function Ones(bits: seq<bool>): nat {
    if bits == [] then 0 else Ones(bits[..|bits| - 1]) + (if bits[|bits| - 1] then 1 else 0)
  }

  predicate Odd(bits: seq<bool>) {
    Ones(bits) % 2 == 1
  }

  lemma {:induction false} OddOfConcat(x: seq<bool>, y: seq<bool>)
    ensures Odd(x + y) == (Odd(x) != Odd(y))
  {
    if y == [] {
      assert x + y == x;
    } else {
      var n := |y| - 1;
      assert (x + y)[..|x + y| - 1] == x + y[..n];
      OddOfConcat(x, y[..n]);
    }
  }

  lemma {:induction false} OddOfXor(x: seq<bool>, y: seq<bool>)
    requires |x| == |y|
    ensures Odd(Xor(x, y)) == (Odd(x) != Odd(y))
  {
    if x != [] {
      var n := |x| - 1;
      assert Xor(x, y)[..n] == Xor(x[..n], y[..n]);
      OddOfXor(x[..n], y[..n]);
    }
  }

  lemma {:induction false} OddOfZeros(n: nat)
    ensures !Odd(seq(n, i => false))
  {
    if n > 0 {
      OddOfZeros(n - 1);
      assert seq(n, i => false)[..n - 1] == seq(n - 1, i => false);
    }
  }

  lemma TapsAreOdd(taps: Register)
    requires forall i :: 0 <= i < 16 ==> taps[i] == Tap(i)
    ensures Odd(taps)
  {
    var gap: seq<bool> := seq(12, i => false);
    assert taps == [true] + gap + [true] + [false] + [true];
    OddOfZeros(12);
    OddOfConcat([true], gap);
    OddOfConcat([true] + gap, [true]);
    OddOfConcat([true] + gap + [true], [false]);
    OddOfConcat([true] + gap + [true] + [false], [true]);
    assert [true][..0] == [] && [false][..0] == [];
  }

  /** The polynomial has an even number of terms, so a shift keeps the parity. */
  lemma StepKeepsParity(r: Register)
    ensures Odd(Step(r)) == Odd(r)
  {
    var shifted: Register := r[1..] + [false];
    var taps: Register := seq(16, i requires 0 <= i < 16 => Tap(i));
    assert [r[0]] + r[1..] == r;
    OddOfConcat([r[0]], r[1..]);
    OddOfConcat(r[1..], [false]);
    assert [r[0]][..0] == [] && [false][..0] == [];
    if r[0] {
      TapsAreOdd(taps);
      assert Step(r) == Xor(shifted, taps);
      OddOfXor(shifted, taps);
    } else {
      assert Step(r) == shifted;
    }
  }

  lemma FlipParity(r: Register, bit: bool)
    ensures Odd(Flip(r, bit)) == (Odd(r) != bit)
  {
    assert [r[0]] + r[1..] == r;
    assert [r[0] != bit] + r[1..] == Flip(r, bit);
    OddOfConcat([r[0]], r[1..]);
    OddOfConcat([r[0] != bit], r[1..]);
    assert [r[0]][..0] == [] && [r[0] != bit][..0] == [];
  }

  /** The parity of the register is the parity of everything fed into it. */
  lemma {:induction false} FeedParity(r: Register, bits: seq<bool>)
    ensures Odd(Feed(r, bits)) == (Odd(r) != Odd(bits))
  {
    if bits != [] {
      var n := |bits| - 1;
      FeedParity(r, bits[..n]);
      var f := Feed(r, bits[..n]);
      FlipParity(f, bits[n]);
      StepKeepsParity(Flip(f, bits[n]));
    }
  }
}
