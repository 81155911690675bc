/** Long division by a fixed polynomial over GF(2), stated for any register type: the
    register only has to offer addition (exclusive or) and multiplication by x modulo
    the divisor. */
module Remainders {
  import opened Basics

  datatype Arithmetic<!T> = Arithmetic(
    zero: T,
    one: T,
    add: (T, T) -> T,
    timesX: T -> T,
    atTop: byte -> T)  // a byte in the eight leading coefficients

  // ---------------------------------------------------------------------------
  // Laws. Each instance is a predicate of its own, so that a proof names the ones it uses.
  // ---------------------------------------------------------------------------

  ghost predicate Commutative<T(!new)>(g: Arithmetic<T>, a: T, b: T) {
    g.add(a, b) == g.add(b, a)
  }

  ghost predicate Associative<T(!new)>(g: Arithmetic<T>, a: T, b: T, c: T) {
    g.add(g.add(a, b), c) == g.add(a, g.add(b, c))
  }

  ghost predicate SelfInverse<T(!new)>(g: Arithmetic<T>, a: T) {
    g.add(a, a) == g.zero
  }

  ghost predicate Neutral<T(!new)>(g: Arithmetic<T>, a: T) {
    g.add(a, g.zero) == a && g.add(g.zero, a) == a
  }

  ghost predicate Additive<T(!new)>(g: Arithmetic<T>, a: T, b: T) {
    g.timesX(g.add(a, b)) == g.add(g.timesX(a), g.timesX(b))
  }

  ghost predicate Injective<T(!new)>(g: Arithmetic<T>, a: T) {
    g.timesX(a) == g.zero <==> a == g.zero
  }

  ghost predicate Laws<T(!new)>(g: Arithmetic<T>) {
    && (forall a, b :: Commutative(g, a, b))
    && (forall a, b, c :: Associative(g, a, b, c))
    && (forall a :: SelfInverse(g, a))
    && (forall a :: Neutral(g, a))
    && (forall a, b :: Additive(g, a, b))
    && (forall a :: Injective(g, a))
  }

  // ---------------------------------------------------------------------------
  // Division
  // ---------------------------------------------------------------------------

  function TimesX<T>(g: Arithmetic<T>, n: nat, r: T): T
    decreases n
  {
    if n == 0 then r else TimesX(g, n - 1, g.timesX(r))
  }

  function Coefficient<T>(g: Arithmetic<T>, b: bool): T {
    if b then g.one else g.zero
  }

  /** Brings down the coefficients of `bits` one by one, highest power first. */
  function Divide<T>(g: Arithmetic<T>, r: T, bits: seq<bool>): T
    decreases |bits|
  {
    if bits == [] then r
    else Divide(g, g.add(g.timesX(r), Coefficient(g, bits[0])), bits[1..])
  }

  function Remainder<T>(g: Arithmetic<T>, bits: seq<bool>): T { Divide(g, g.zero, bits) }

  function Zeros(n: nat): (z: seq<bool>)
    ensures |z| == n
  {
    seq(n, _ => false)
  }

  /** The coefficients of a byte, most significant first. */
  function ByteBits(b: byte): (s: seq<bool>)
    ensures |s| == 8
  {
    [b & 0x80 != 0, b & 0x40 != 0, b & 0x20 != 0, b & 0x10 != 0,
     b & 0x08 != 0, b & 0x04 != 0, b & 0x02 != 0, b & 0x01 != 0]
  }

  function Bits(buf: seq<byte>): (s: seq<bool>)
    ensures |s| == 8 * |buf|
  {
    if buf == [] then [] else ByteBits(buf[0]) + Bits(buf[1..])
  }

  // ---------------------------------------------------------------------------
  // Lemmas
  // ---------------------------------------------------------------------------

  lemma Cancels<T(!new)>(g: Arithmetic<T>, a: T, b: T)
    requires Laws(g)
    ensures g.add(a, b) == g.zero <==> a == b
  {
    assert SelfInverse(g, a) && Associative(g, a, a, b);
    assert Neutral(g, a) && Neutral(g, b);
  }

  lemma Exchange<T(!new)>(g: Arithmetic<T>, a: T, b: T, c: T, d: T)
    requires Laws(g)
    ensures g.add(g.add(a, b), g.add(c, d)) == g.add(g.add(a, c), g.add(b, d))
  {
    assert Associative(g, a, b, g.add(c, d)) && Associative(g, b, c, d);
    assert Commutative(g, b, c);
    assert Associative(g, c, b, d) && Associative(g, a, c, g.add(b, d));
  }

  lemma {:induction false} TimesXAdd<T(!new)>(g: Arithmetic<T>, n: nat, a: T, b: T)
    requires Laws(g)
    ensures TimesX(g, n, g.add(a, b)) == g.add(TimesX(g, n, a), TimesX(g, n, b))
    decreases n
  {
    if n > 0 {
      assert Additive(g, a, b);
      TimesXAdd(g, n - 1, g.timesX(a), g.timesX(b));
    }
  }

  lemma {:induction false} TimesXZero<T(!new)>(g: Arithmetic<T>, n: nat, r: T)
    requires Laws(g)
    ensures TimesX(g, n, r) == g.zero <==> r == g.zero
    decreases n
  {
    if n > 0 {
      assert Injective(g, r);
      TimesXZero(g, n - 1, g.timesX(r));
    }
  }

  lemma {:induction false} TimesXInjective<T(!new)>(g: Arithmetic<T>, n: nat, a: T, b: T)
    requires Laws(g)
    requires TimesX(g, n, a) == TimesX(g, n, b)
    ensures a == b
  {
    TimesXAdd(g, n, a, b);
    TimesXZero(g, n, g.add(a, b));
    Cancels(g, TimesX(g, n, a), TimesX(g, n, b));
    Cancels(g, a, b);
  }

  lemma {:induction false} TimesXSplit<T>(g: Arithmetic<T>, m: nat, n: nat, r: T)
    ensures TimesX(g, m + n, r) == TimesX(g, n, TimesX(g, m, r))
    decreases m
  {
    if m > 0 { TimesXSplit(g, m - 1, n, g.timesX(r)); }
  }

  lemma {:induction false} DivideSplit<T>(g: Arithmetic<T>, r: T, p: seq<bool>, q: seq<bool>)
    ensures Divide(g, r, p + q) == Divide(g, Divide(g, r, p), q)
    decreases |p|
  {
    if p == [] {
      assert p + q == q;
    } else {
      assert (p + q)[1..] == p[1..] + q;
      DivideSplit(g, g.add(g.timesX(r), Coefficient(g, p[0])), p[1..], q);
    }
  }

  /** What is in the register and what is brought down contribute separately. */
  lemma {:induction false} DivideSeparates<T(!new)>(g: Arithmetic<T>, r: T, bits: seq<bool>)
    requires Laws(g)
    ensures Divide(g, r, bits) == g.add(TimesX(g, |bits|, r), Remainder(g, bits))
    decreases |bits|
  {
    if bits == [] {
      assert Neutral(g, r);
    } else {
      var c, rest := Coefficient(g, bits[0]), bits[1..];
      var n := |rest|;
      DivideSeparates(g, g.add(g.timesX(r), c), rest);
      TimesXAdd(g, n, g.timesX(r), c);
      assert Associative(g, TimesX(g, n, g.timesX(r)), TimesX(g, n, c), Remainder(g, rest));
      assert Injective(g, g.zero) && Neutral(g, c);
      DivideSeparates(g, c, rest);
    }
  }

  lemma {:induction false} DivideZeros<T(!new)>(g: Arithmetic<T>, r: T, n: nat)
    requires Laws(g)
    ensures Divide(g, r, Zeros(n)) == TimesX(g, n, r)
    decreases n
  {
    if n > 0 {
      assert Zeros(n)[1..] == Zeros(n - 1);
      assert Neutral(g, g.timesX(r));
      DivideZeros(g, g.timesX(r), n - 1);
    }
  }

  /** The register after each coefficient of a run. */
  ghost predicate Steps<T(!new)>(g: Arithmetic<T>, rs: seq<T>, bits: seq<bool>) {
    && |rs| == |bits| + 1
    && forall k :: 0 <= k < |bits| ==> rs[k + 1] == g.add(g.timesX(rs[k]), Coefficient(g, bits[k]))
  }

  lemma {:induction false} DivideSteps<T(!new)>(g: Arithmetic<T>, rs: seq<T>, bits: seq<bool>)
    requires Steps(g, rs, bits)
    ensures Divide(g, rs[0], bits) == rs[|bits|]
    decreases |bits|
  {
    if bits != [] {
      assert rs[1] == g.add(g.timesX(rs[0]), Coefficient(g, bits[0]));
      forall k | 0 <= k < |bits[1..]|
        ensures rs[1..][k + 1] == g.add(g.timesX(rs[1..][k]), Coefficient(g, bits[1..][k]))
      {
        assert rs[k + 1 + 1] == g.add(g.timesX(rs[k + 1]), Coefficient(g, bits[k + 1]));
      }
      DivideSteps(g, rs[1..], bits[1..]);
    }
  }

  lemma {:induction false} BitsAppend(p: seq<byte>, q: seq<byte>)
    ensures Bits(p + q) == Bits(p) + Bits(q)
  {
    if p == [] {
      assert p + q == q;
    } else {
      assert (p + q)[1..] == p[1..] + q;
      BitsAppend(p[1..], q);
      AppendAssociative(ByteBits(p[0]), Bits(p[1..]), Bits(q));
    }
  }

  lemma {:induction false} BitsThree(a: byte, b: byte, c: byte)
    ensures Bits([a, b, c]) == ByteBits(a) + ByteBits(b) + ByteBits(c)
  {
    assert [a, b, c] == [a] + [b] + [c];
    BitsAppend([a] + [b], [c]);
    BitsAppend([a], [b]);
    assert Bits([a]) == ByteBits(a) + [] == ByteBits(a);
    assert Bits([b]) == ByteBits(b) + [] == ByteBits(b);
    assert Bits([c]) == ByteBits(c) + [] == ByteBits(c);
  }

  lemma {:induction false} RemainderThree<T(!new)>(g: Arithmetic<T>, a: byte, b: byte, c: byte, ra: T, rb: T, rc: T)
    requires Remainder(g, ByteBits(a)) == ra
    requires Divide(g, ra, ByteBits(b)) == rb
    requires Divide(g, rb, ByteBits(c)) == rc
    ensures Remainder(g, Bits([a, b, c])) == rc
  {
    BitsThree(a, b, c);
    DivideSplit(g, g.zero, ByteBits(a) + ByteBits(b), ByteBits(c));
    DivideSplit(g, g.zero, ByteBits(a), ByteBits(b));
  }

  // ---------------------------------------------------------------------------
  // A byte-at-a-time computation
  // ---------------------------------------------------------------------------

  /** Adding a byte at the top of the register and multiplying by x eight times. */
  function ByteStep<T>(g: Arithmetic<T>, r: T, b: byte): T {
    TimesX(g, 8, g.add(r, g.atTop(b)))
  }

  /** A register that splits into two parts moves eight places part by part. */
  lemma EightByParts<T(!new)>(g: Arithmetic<T>, a: T, b: T, a': T, b': T)
    requires Laws(g)
    requires TimesX(g, 8, a) == a' && TimesX(g, 8, b) == b'
    ensures TimesX(g, 8, g.add(a, b)) == g.add(a', b')
  {
    TimesXAdd(g, 8, a, b);
  }

  /** A byte step whose register splits into a part that only moves and a byte at the top. */
  lemma ByteStepByParts<T(!new)>(g: Arithmetic<T>, r: T, b: byte, low: T, i: byte, moved: T, entry: T)
    requires Laws(g)
    requires g.add(r, g.atTop(b)) == g.add(low, g.atTop(i))
    requires TimesX(g, 8, low) == moved && TimesX(g, 8, g.atTop(i)) == entry
    ensures ByteStep(g, r, b) == g.add(moved, entry)
  {
    EightByParts(g, low, g.atTop(i), moved, entry);
  }

  function Bytewise<T>(g: Arithmetic<T>, r: T, buf: seq<byte>): T
    decreases |buf|
  {
    if buf == [] then r else Bytewise(g, ByteStep(g, r, buf[0]), buf[1..])
  }

  /** A 24-bit register keeps the byte sixteen places above the units. */
  ghost predicate TopBytes<T(!new)>(g: Arithmetic<T>) {
    forall b: byte :: g.atTop(b) == TimesX(g, 16, Remainder(g, ByteBits(b)))
  }

  lemma {:induction false} ByteStepDivides<T(!new)>(g: Arithmetic<T>, r: T, b: byte)
    requires Laws(g) && TopBytes(g)
    ensures ByteStep(g, TimesX(g, 24, r), b) == TimesX(g, 24, Divide(g, r, ByteBits(b)))
  {
    var low := Remainder(g, ByteBits(b));
    TimesXAdd(g, 8, TimesX(g, 24, r), g.atTop(b));
    TimesXSplit(g, 24, 8, r);
    TimesXSplit(g, 8, 24, r);
    TimesXSplit(g, 16, 8, low);
    TimesXAdd(g, 24, TimesX(g, 8, r), low);
    DivideSeparates(g, r, ByteBits(b));
  }

  /** The byte-at-a-time register always holds x^24 times the long-division one. */
  lemma {:induction false} BytewiseDivides<T(!new)>(g: Arithmetic<T>, r: T, buf: seq<byte>)
    requires Laws(g) && TopBytes(g)
    ensures Bytewise(g, TimesX(g, 24, r), buf) == TimesX(g, 24, Divide(g, r, Bits(buf)))
    decreases |buf|
  {
    if buf != [] {
      ByteStepDivides(g, r, buf[0]);
      BytewiseDivides(g, Divide(g, r, ByteBits(buf[0])), buf[1..]);
      DivideSplit(g, r, ByteBits(buf[0]), Bits(buf[1..]));
    }
  }

  /** From a zero register the byte-at-a-time result is the remainder of the message
      followed by 24 zero coefficients. */
  lemma {:induction false} BytewiseIsRemainder<T(!new)>(g: Arithmetic<T>, buf: seq<byte>)
    requires Laws(g) && TopBytes(g)
    ensures Bytewise(g, g.zero, buf) == Remainder(g, Bits(buf) + Zeros(24))
    ensures Bytewise(g, g.zero, buf) == TimesX(g, 24, Remainder(g, Bits(buf)))
  {
    TimesXZero(g, 24, g.zero);
    BytewiseDivides(g, g.zero, buf);
    DivideSplit(g, g.zero, Bits(buf), Zeros(24));
    DivideZeros(g, Remainder(g, Bits(buf)), 24);
  }

  /** A register that starts at r contributes r times x^(8n), apart from the message. */
  lemma {:induction false} BytewiseSeparates<T(!new)>(g: Arithmetic<T>, r: T, buf: seq<byte>)
    requires Laws(g)
    ensures Bytewise(g, r, buf) == g.add(TimesX(g, 8 * |buf|, r), Bytewise(g, g.zero, buf))
    decreases |buf|
  {
    if buf == [] {
      assert Neutral(g, r);
    } else {
      var b, rest := buf[0], buf[1..];
      var n := 8 * |rest|;
      var top := TimesX(g, 8, g.atTop(b));
      TimesXAdd(g, 8, r, g.atTop(b));
      assert Neutral(g, g.atTop(b));
      BytewiseSeparates(g, g.add(TimesX(g, 8, r), top), rest);
      BytewiseSeparates(g, top, rest);
      TimesXAdd(g, n, TimesX(g, 8, r), top);
      TimesXSplit(g, 8, n, r);
      assert Associative(g, TimesX(g, n, TimesX(g, 8, r)), TimesX(g, n, top), Bytewise(g, g.zero, rest));
    }
  }

  // ---------------------------------------------------------------------------
  // Error detection
  // ---------------------------------------------------------------------------

  /** A message followed by a trailer has remainder zero exactly when the trailer is the
      check value of the message. */
  lemma {:induction false} TrailerMatches<T(!new)>(g: Arithmetic<T>, body: seq<byte>, trailer: seq<byte>)
    requires Laws(g) && TopBytes(g)
    requires |trailer| == 3
    ensures Bytewise(g, g.zero, body) == Remainder(g, Bits(trailer))
       <==> Remainder(g, Bits(body + trailer)) == g.zero
  {
    BytewiseIsRemainder(g, body);
    BitsAppend(body, trailer);
    DivideSplit(g, g.zero, Bits(body), Bits(trailer));
    DivideSeparates(g, Remainder(g, Bits(body)), Bits(trailer));
    Cancels(g, TimesX(g, 24, Remainder(g, Bits(body))), Remainder(g, Bits(trailer)));
  }

  /** Two messages equal outside a window have equal remainders only if the windows do. */
  lemma {:induction false} WindowsAgree<T(!new)>(g: Arithmetic<T>, before: seq<bool>, u: seq<bool>,
                                                 v: seq<bool>, after: seq<bool>)
    requires Laws(g)
    requires |u| == |v|
    requires Remainder(g, before + u + after) == Remainder(g, before + v + after)
    ensures Remainder(g, u) == Remainder(g, v)
  {
    var r := Remainder(g, before);
    var ru, rv := Divide(g, r, u), Divide(g, r, v);
    DivideSplit(g, g.zero, before + u, after);
    DivideSplit(g, g.zero, before + v, after);
    DivideSplit(g, g.zero, before, u);
    DivideSplit(g, g.zero, before, v);
    DivideSeparates(g, ru, after);
    DivideSeparates(g, rv, after);
    AddCancels(g, TimesX(g, |after|, ru), TimesX(g, |after|, rv), Remainder(g, after));
    TimesXInjective(g, |after|, ru, rv);
    DivideSeparates(g, r, u);
    DivideSeparates(g, r, v);
    AddCancelsLeft(g, TimesX(g, |u|, r), Remainder(g, u), Remainder(g, v));
  }

  lemma AddCancels<T(!new)>(g: Arithmetic<T>, a: T, b: T, c: T)
    requires Laws(g)
    requires g.add(a, c) == g.add(b, c)
    ensures a == b
  {
    Exchange(g, a, c, b, c);
    Cancels(g, g.add(a, c), g.add(b, c));
    Cancels(g, a, b);
    assert SelfInverse(g, c);
    assert Neutral(g, g.add(a, b));
  }

  lemma AddCancelsLeft<T(!new)>(g: Arithmetic<T>, a: T, b: T, c: T)
    requires Laws(g)
    requires g.add(a, b) == g.add(a, c)
    ensures b == c
  {
    Exchange(g, a, b, a, c);
    Cancels(g, g.add(a, b), g.add(a, c));
    Cancels(g, b, c);
    assert SelfInverse(g, a);
    assert Neutral(g, g.add(b, c));
  }

  /** Coefficientwise difference of two bit strings. */
  function Difference(u: seq<bool>, v: seq<bool>): (d: seq<bool>)
    requires |u| == |v|
    ensures |d| == |u|
  {
    seq(|u|, i requires 0 <= i < |u| => u[i] != v[i])
  }

  lemma {:induction false} DivideAdd<T(!new)>(g: Arithmetic<T>, r: T, s: T, u: seq<bool>, v: seq<bool>)
    requires Laws(g)
    requires |u| == |v|
    ensures Divide(g, g.add(r, s), Difference(u, v)) == g.add(Divide(g, r, u), Divide(g, s, v))
    decreases |u|
  {
    if u != [] {
      var cu, cv := Coefficient(g, u[0]), Coefficient(g, v[0]);
      assert Difference(u, v)[1..] == Difference(u[1..], v[1..]);
      assert Additive(g, r, s);
      Exchange(g, g.timesX(r), cu, g.timesX(s), cv);
      assert SelfInverse(g, g.one) && Neutral(g, g.one) && Neutral(g, g.zero);
      assert Coefficient(g, Difference(u, v)[0]) == g.add(cu, cv);
      DivideAdd(g, g.add(g.timesX(r), cu), g.add(g.timesX(s), cv), u[1..], v[1..]);
    }
  }
}
