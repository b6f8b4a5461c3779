/** The IEEE 1212 CRC: the nibble-at-a-time algorithm against bit-serial division by
    x^16 + x^12 + x^5 + 1 (section 7.3 of IEEE 1212-2001).
    Machine words are bit sequences, most significant bit first. */
module Crc16 {

  type Bits = seq<bool>
  type Word16 = w: Bits | |w| == 16 witness seq(16, _ => false)
  type Quadlet = q: Bits | |q| == 32 witness seq(32, _ => false)

  function Zeros(n: nat): Bits {
    seq(n, _ => false)
  }

  function Xor(a: Bits, b: Bits): Bits
    requires |a| == |b|
  {
    seq(|a|, i requires 0 <= i < |a| => a[i] != b[i])
  }

  /** Left shift within 16 bits. */
  function Shl(w: Word16, n: nat): Word16
    requires n <= 16
  {
    w[n..] + Zeros(n)
  }

  // ----- Bit-serial division -----

  /** Bits 12, 5 and 0 of the divisor. */
  predicate Divisor(i: nat) {
    i == 3 || i == 10 || i == 15
  }

  /** Shift one message bit into the remainder, subtracting the divisor when a one leaves the top. */
  function BitStep(crc: Word16, bit: bool): Word16 {
    seq(16, i requires 0 <= i < 16 => (i < 15 && crc[i + 1]) != ((crc[0] != bit) && Divisor(i)))
  }

  function Divide(crc: Word16, bits: Bits): Word16
    decreases bits
  {
    if bits == [] then crc else Divide(BitStep(crc, bits[0]), bits[1..])
  }

  /** The message as a bit stream. */
  function Stream(quadlets: seq<Quadlet>): Bits {
    if quadlets == [] then [] else Stream(quadlets[..|quadlets| - 1]) + quadlets[|quadlets| - 1]
  }

  lemma {:induction false} DivideAppend(crc: Word16, a: Bits, b: Bits)
    ensures Divide(crc, a + b) == Divide(Divide(crc, a), b)
    decreases a
  {
    if a == [] {
      assert a + b == b;
    } else {
      assert (a + b)[1..] == a[1..] + b;
      DivideAppend(BitStep(crc, a[0]), a[1..], b);
    }
  }

  // ----- The nibble algorithm -----

  /** The top four bits of the remainder plus the message nibble, as the low bits of a word. */
  function Selector(crc: Word16, nibble: Bits): Word16
    requires |nibble| == 4
  {
    Zeros(12) + Xor(crc[..4], nibble)
  }

  function NibbleStep(crc: Word16, nibble: Bits): Word16
    requires |nibble| == 4
  {
    var s := Selector(crc, nibble);
    Xor(Xor(Xor(Shl(crc, 4), Shl(s, 12)), Shl(s, 5)), s)
  }

  lemma FourBits(crc: Word16, bits: Bits)
    requires |bits| == 4
    ensures Divide(crc, bits) == BitStep(BitStep(BitStep(BitStep(crc, bits[0]), bits[1]), bits[2]), bits[3])
  {
    var c1 := BitStep(crc, bits[0]);
    var c2 := BitStep(c1, bits[1]);
    var c3 := BitStep(c2, bits[2]);
    assert bits[1..][1..] == bits[2..] && bits[2..][1..] == bits[3..] && bits[3..][1..] == [];
    assert Divide(crc, bits) == Divide(c1, bits[1..]) == Divide(c2, bits[2..]);
    assert Divide(c2, bits[2..]) == Divide(c3, bits[3..]) == BitStep(c3, bits[3]);
  }

  /** Bit i after a nibble: the shifted remainder plus the selector bits whose divisor term lands on i. */
  function Landing(crc: Word16, nibble: Bits, i: nat): bool
    requires |nibble| == 4 && i < 16
  {
    var s := Xor(crc[..4], nibble);
    ((((i < 12 && crc[i + 4]) != (s[0] && Divisor(i + 3))) != (s[1] && Divisor(i + 2)))
      != (s[2] && Divisor(i + 1))) != (s[3] && Divisor(i))
  }

  lemma NibbleLands(crc: Word16, nibble: Bits, i: nat)
    requires |nibble| == 4 && i < 16
    ensures NibbleStep(crc, nibble)[i] == Landing(crc, nibble, i)
  {
    var s, x := Selector(crc, nibble), Xor(crc[..4], nibble);
    assert Shl(crc, 4)[i] == (i < 12 && crc[i + 4]);
    assert Shl(s, 12)[i] == (i < 4 && x[i]);
    assert Shl(s, 5)[i] == (7 <= i < 11 && x[i - 7]);
    assert s[i] == (i >= 12 && x[i - 12]);
  }

  /** One bit step, bit by bit. */
  lemma StepAt(crc: Word16, bit: bool, i: nat)
    requires i < 16
    ensures BitStep(crc, bit)[i] == ((i < 15 && crc[i + 1]) != ((crc[0] != bit) && Divisor(i)))
  {}

  /** The divisor's top low term is three places down, so it cannot disturb the next three selector bits. */
  lemma SelectorBits(crc: Word16, nibble: Bits)
    requires |nibble| == 4
    ensures var c1 := BitStep(crc, nibble[0]); var c2 := BitStep(c1, nibble[1]); var c3 := BitStep(c2, nibble[2]);
            c1[0] == crc[1] && c2[0] == crc[2] && c3[0] == crc[3]
  {
    var c1 := BitStep(crc, nibble[0]);
    var c2 := BitStep(c1, nibble[1]);
    StepAt(crc, nibble[0], 0);
    StepAt(crc, nibble[0], 1);
    StepAt(crc, nibble[0], 2);
    StepAt(c1, nibble[1], 0);
    StepAt(c1, nibble[1], 1);
    StepAt(c2, nibble[2], 0);
  }

  /** The message bits of a nibble, run one at a time, land where the nibble table says. */
  lemma FourStepsLand(crc: Word16, nibble: Bits, i: nat)
    requires |nibble| == 4 && i < 16
    ensures BitStep(BitStep(BitStep(BitStep(crc, nibble[0]), nibble[1]), nibble[2]), nibble[3])[i]
         == Landing(crc, nibble, i)
  {
    var c1 := BitStep(crc, nibble[0]);
    var c2 := BitStep(c1, nibble[1]);
    var c3 := BitStep(c2, nibble[2]);
    SelectorBits(crc, nibble);
    StepAt(c3, nibble[3], i);
    if i < 15 {
      StepAt(c2, nibble[2], i + 1);
    }
    if i < 14 {
      StepAt(c1, nibble[1], i + 2);
    }
    if i < 13 {
      StepAt(crc, nibble[0], i + 3);
    }
    ChainLands(crc, nibble, i, c1, c2, c3, BitStep(c3, nibble[3])[i]);
  }

  lemma ChainLands(crc: Word16, nibble: Bits, i: nat, c1: Word16, c2: Word16, c3: Word16, r: bool)
    requires |nibble| == 4 && i < 16
    requires c1[0] == crc[1] && c2[0] == crc[2] && c3[0] == crc[3]
    requires r == ((i < 15 && c3[i + 1]) != ((c3[0] != nibble[3]) && Divisor(i)))
    requires i < 15 ==> c3[i + 1] == ((i + 1 < 15 && c2[i + 2]) != ((c2[0] != nibble[2]) && Divisor(i + 1)))
    requires i < 14 ==> c2[i + 2] == ((i + 2 < 15 && c1[i + 3]) != ((c1[0] != nibble[1]) && Divisor(i + 2)))
    requires i < 13 ==> c1[i + 3] == ((i + 3 < 15 && crc[i + 4]) != ((crc[0] != nibble[0]) && Divisor(i + 3)))
    ensures r == Landing(crc, nibble, i)
  {
    var s := Xor(crc[..4], nibble);
    assert s[0] == (crc[0] != nibble[0]) && s[1] == (crc[1] != nibble[1]);
    assert s[2] == (crc[2] != nibble[2]) && s[3] == (crc[3] != nibble[3]);
  }

  /** One nibble step is four bit steps. */
  lemma NibbleIsFourBits(crc: Word16, nibble: Bits)
    requires |nibble| == 4
    ensures NibbleStep(crc, nibble) == Divide(crc, nibble)
  {
    FourBits(crc, nibble);
    forall i | 0 <= i < 16
      ensures NibbleStep(crc, nibble)[i] == Divide(crc, nibble)[i]
    {
      NibbleLands(crc, nibble, i);
      FourStepsLand(crc, nibble, i);
    }
  }

  /** One quadlet, by the nibble loop. */
  method QuadletStep(crc: Word16, q: Quadlet) returns (crc': Word16)
    ensures crc' == Divide(crc, q)
  {
    crc' := crc;
    var shift: int := 28;
    while shift >= 0
      invariant -4 <= shift <= 28 && shift % 4 == 0
      invariant crc' == Divide(crc, q[..28 - shift])
    {
      var nibble := q[28 - shift..32 - shift];
      NibbleIsFourBits(crc', nibble);
      DivideAppend(crc, q[..28 - shift], nibble);
      assert q[..28 - shift] + nibble == q[..32 - shift];
      crc' := NibbleStep(crc', nibble);
      shift := shift - 4;
    }
    assert q[..32] == q;
  }

  /** For quadlet lists of every length, the remainder of the whole bit stream. */
  method OverQuadlets(quadlets: seq<Quadlet>) returns (crc: Word16)
    ensures crc == Divide(Zeros(16), Stream(quadlets))
  {
    crc := Zeros(16);
    for i := 0 to |quadlets|
      invariant crc == Divide(Zeros(16), Stream(quadlets[..i]))
    {
      assert quadlets[..i + 1][..i] == quadlets[..i];
      DivideAppend(Zeros(16), Stream(quadlets[..i]), quadlets[i]);
      crc := QuadletStep(crc, quadlets[i]);
    }
    assert quadlets[..|quadlets|] == quadlets;
  }

  // ----- Linearity -----

  lemma BitStepLinear(c: Word16, d: Word16, a: bool, b: bool)
    ensures BitStep(Xor(c, d), a != b) == Xor(BitStep(c, a), BitStep(d, b))
  {}

  /** The CRC of a sum of messages is the sum of their CRCs. */
  lemma {:induction false} DivideLinear(c: Word16, d: Word16, a: Bits, b: Bits)
    requires |a| == |b|
    ensures Divide(Xor(c, d), Xor(a, b)) == Xor(Divide(c, a), Divide(d, b))
    decreases a
  {
    if a == [] {
    } else {
      BitStepLinear(c, d, a[0], b[0]);
      assert Xor(a, b)[1..] == Xor(a[1..], b[1..]);
      DivideLinear(BitStep(c, a[0]), BitStep(d, b[0]), a[1..], b[1..]);
    }
  }

  // ----- Burst errors -----

  /** A step never merges two remainders: its last bit tells whether the divisor was subtracted. */
  lemma BitStepInjective(c: Word16, d: Word16, bit: bool)
    requires BitStep(c, bit) == BitStep(d, bit)
    ensures c == d
  {
    var x, y := BitStep(c, bit), BitStep(d, bit);
    assert x[15] == (c[0] != bit) && y[15] == (d[0] != bit);
    forall i | 0 < i < 16
      ensures c[i] == d[i]
    {
      assert x[i - 1] == (c[i] != ((c[0] != bit) && Divisor(i - 1)));
      assert y[i - 1] == (d[i] != ((d[0] != bit) && Divisor(i - 1)));
    }
  }

  lemma {:induction false} DivideInjective(c: Word16, d: Word16, bits: Bits)
    requires Divide(c, bits) == Divide(d, bits)
    ensures c == d
    decreases bits
  {
    if bits == [] {
    } else {
      DivideInjective(BitStep(c, bits[0]), BitStep(d, bits[0]), bits[1..]);
      BitStepInjective(c, d, bits[0]);
    }
  }

  /** At most 16 message bits, left-aligned in a word. */
  function Aligned(bits: Bits): Word16
    requires |bits| <= 16
  {
    bits + Zeros(16 - |bits|)
  }

  lemma PreXor(c: Word16, bits: Bits)
    requires 0 < |bits| <= 16
    ensures BitStep(Xor(c, Aligned(bits)), false) == Xor(BitStep(c, bits[0]), Aligned(bits[1..]))
  {}

  /** Up to 16 message bits act as if added to the remainder before the shifts. */
  lemma {:induction false} DivideAligned(c: Word16, bits: Bits)
    requires |bits| <= 16
    ensures Divide(c, bits) == Divide(Xor(c, Aligned(bits)), Zeros(|bits|))
    decreases bits
  {
    if bits == [] {
      assert Xor(c, Aligned(bits)) == c;
    } else {
      PreXor(c, bits);
      DivideAligned(BitStep(c, bits[0]), bits[1..]);
      assert Zeros(|bits|)[1..] == Zeros(|bits| - 1);
    }
  }

  /** Sixteen or fewer bits are determined by what they do to a remainder. */
  lemma ShortMessageInjective(c: Word16, a: Bits, b: Bits)
    requires |a| == |b| <= 16 && Divide(c, a) == Divide(c, b)
    ensures a == b
  {
    DivideAligned(c, a);
    DivideAligned(c, b);
    var x, y := Xor(c, Aligned(a)), Xor(c, Aligned(b));
    DivideInjective(x, y, Zeros(|a|));
    forall i | 0 <= i < |a|
      ensures a[i] == b[i]
    {
      assert x[i] == (c[i] != a[i]) && y[i] == (c[i] != b[i]);
    }
  }

  /** Two bit streams of any length that differ only inside 16 consecutive bits, and have the same CRC,
      are the same stream. */
  lemma BurstDetected(prefix: Bits, a: Bits, b: Bits, suffix: Bits)
    requires |a| == |b| <= 16
    requires Divide(Zeros(16), prefix + a + suffix) == Divide(Zeros(16), prefix + b + suffix)
    ensures a == b
  {
    var c := Divide(Zeros(16), prefix);
    DivideAppend(Zeros(16), prefix + a, suffix);
    DivideAppend(Zeros(16), prefix + b, suffix);
    DivideAppend(Zeros(16), prefix, a);
    DivideAppend(Zeros(16), prefix, b);
    DivideInjective(Divide(c, a), Divide(c, b), suffix);
    ShortMessageInjective(c, a, b);
  }

  lemma {:induction false} StreamIsQuadlets(quadlets: seq<Quadlet>)
    ensures |Stream(quadlets)| == 32 * |quadlets|
    ensures forall i :: 0 <= i < |quadlets| ==> Stream(quadlets)[32 * i..32 * i + 32] == quadlets[i]
  {
    if quadlets == [] {
    } else {
      var n := |quadlets| - 1;
      StreamIsQuadlets(quadlets[..n]);
      forall i | 0 <= i < |quadlets|
        ensures Stream(quadlets)[32 * i..32 * i + 32] == quadlets[i]
      {
        if i < n {
          assert Stream(quadlets)[32 * i..32 * i + 32] == Stream(quadlets[..n])[32 * i..32 * i + 32];
        }
      }
    }
  }

  lemma StreamInjective(xs: seq<Quadlet>, ys: seq<Quadlet>)
    requires |xs| == |ys| && Stream(xs) == Stream(ys)
    ensures xs == ys
  {
    StreamIsQuadlets(xs);
    StreamIsQuadlets(ys);
    forall i | 0 <= i < |xs|
      ensures xs[i] == ys[i]
    {
      assert Stream(xs)[32 * i..32 * i + 32] == xs[i];
      assert Stream(ys)[32 * i..32 * i + 32] == ys[i];
    }
  }

  lemma StreamLength(quadlets: seq<Quadlet>)
    ensures |Stream(quadlets)| == 32 * |quadlets|
  {
    StreamIsQuadlets(quadlets);
  }

  ghost predicate AgreeOutside(s: Bits, t: Bits, k: nat, n: nat) {
    |s| == |t| && forall i :: 0 <= i < |s| && !(k <= i < k + n) ==> s[i] == t[i]
  }

  lemma WindowsEqual(s: Bits, t: Bits, k: nat, n: nat)
    requires n <= 16 && k + n <= |s| && AgreeOutside(s, t, k, n)
    requires Divide(Zeros(16), s) == Divide(Zeros(16), t)
    ensures s == t
  {
    var a, b := s[k..k + n], t[k..k + n];
    assert s == s[..k] + a + s[k + n..];
    assert t == s[..k] + b + s[k + n..];
    BurstDetected(s[..k], a, b, s[k + n..]);
  }

  /** ROM contents that differ, but only inside a window of 16 bits, within one quadlet or across a
      boundary, never have the same CRC. */
  lemma QuadletBurstDetected(xs: seq<Quadlet>, ys: seq<Quadlet>, k: nat, n: nat)
    requires |xs| == |ys| && xs != ys && n <= 16 && k + n <= 32 * |xs|
    requires AgreeOutside(Stream(xs), Stream(ys), k, n)
    ensures Divide(Zeros(16), Stream(xs)) != Divide(Zeros(16), Stream(ys))
  {
    StreamLength(xs);
    StreamLength(ys);
    if Divide(Zeros(16), Stream(xs)) == Divide(Zeros(16), Stream(ys)) {
      WindowsEqual(Stream(xs), Stream(ys), k, n);
      StreamInjective(xs, ys);
    }
  }
}
