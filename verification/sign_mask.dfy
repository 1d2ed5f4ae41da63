/** The 8-bit case mask of a cell: bit `v` is set when the field value at
    corner `v` is non-negative. Integers are modelled as `nat`; the `<<`,
    `&` and `|` of the source are `Pow2`, `BitAnd` and `BitOr` below. */
module SignMask {

  function Pow2(n: nat): (p: nat)
    ensures p >= 1
  {
    if n == 0 then 1 else 2 * Pow2(n - 1)
  }

  /** Bit `v` of `m` is set. */
  predicate Bit(m: nat, v: nat)
    decreases v
  {
    if v == 0 then m % 2 == 1 else Bit(m / 2, v - 1)
  }

  /** Bitwise and of two non-negative integers. */
  function BitAnd(a: nat, b: nat): nat
    decreases a
  {
    if a == 0 || b == 0 then 0
    else 2 * BitAnd(a / 2, b / 2) + (if a % 2 == 1 && b % 2 == 1 then 1 else 0)
  }

  /** Bitwise or of two non-negative integers. */
  function BitOr(a: nat, b: nat): nat
    decreases a
  {
    if a == 0 then b
    else if b == 0 then a
    else 2 * BitOr(a / 2, b / 2) + (if a % 2 == 1 || b % 2 == 1 then 1 else 0)
  }

  /** `value >= 0 ? 1 : 0`: a single bit whose bit 0 records the sign. */
  function SignBit(value: real): (b: nat)
    ensures b <= 1
    ensures Bit(b, 0) <==> value >= 0.0
  {
    if value >= 0.0 then 1 else 0
  }

  /** The mask of the corner values `s`, corner `v` contributing
      `SignBit(s[v]) << v`. */
  function MaskOf(s: seq<real>): (m: nat)
    ensures m < Pow2(|s|)
  {
    if |s| == 0 then 0
    else MaskOf(s[..|s| - 1]) + SignBit(s[|s| - 1]) * Pow2(|s| - 1)
  }

  lemma {:induction false} NoBitsOfZero(v: nat)
    ensures !Bit(0, v)
  {
    if v > 0 {
      NoBitsOfZero(v - 1);
    }
  }

  /** `BitAnd` is bitwise: bit `v` of the result is set exactly when it is
      set in both operands. */
  lemma {:induction false} BitAndBits(a: nat, b: nat, v: nat)
    ensures Bit(BitAnd(a, b), v) <==> Bit(a, v) && Bit(b, v)
    decreases v
  {
    NoBitsOfZero(v);
    if a != 0 && b != 0 {
      var r := BitAnd(a, b);
      var low := if a % 2 == 1 && b % 2 == 1 then 1 else 0;
      assert r == 2 * BitAnd(a / 2, b / 2) + low;
      assert r % 2 == low && r / 2 == BitAnd(a / 2, b / 2);
      if v > 0 {
        BitAndBits(a / 2, b / 2, v - 1);
      }
    }
  }

  /** `BitOr` is bitwise: bit `v` of the result is set exactly when it is
      set in either operand. */
  lemma {:induction false} BitOrBits(a: nat, b: nat, v: nat)
    ensures Bit(BitOr(a, b), v) <==> Bit(a, v) || Bit(b, v)
    decreases v
  {
    NoBitsOfZero(v);
    if a != 0 && b != 0 {
      var r := BitOr(a, b);
      var low := if a % 2 == 1 || b % 2 == 1 then 1 else 0;
      assert r == 2 * BitOr(a / 2, b / 2) + low;
      assert r % 2 == low && r / 2 == BitOr(a / 2, b / 2);
      if v > 0 {
        BitOrBits(a / 2, b / 2, v - 1);
      }
    }
  }

  /** Adding a single bit `b << w` above all bits of `a` sets exactly bit `w`
      to `b` and leaves every other bit as it was in `a`. */
  lemma {:induction false} BitOfSum(a: nat, w: nat, b: nat, v: nat)
    requires a < Pow2(w) && b <= 1
    ensures Bit(a + b * Pow2(w), v) <==> (if v == w then b == 1 else v < w && Bit(a, v))
    decreases w
  {
    if w == 0 {
      assert a == 0;
      if v > 0 {
        assert (a + b * Pow2(w)) / 2 == 0;
        NoBitsOfZero(v - 1);
      }
    } else {
      var x := a + b * Pow2(w);
      assert Pow2(w) == 2 * Pow2(w - 1);
      assert x % 2 == a % 2 && x / 2 == a / 2 + b * Pow2(w - 1) by {
        if b == 0 {
          assert x == a;
        } else {
          assert x == a + 2 * Pow2(w - 1);
        }
      }
      if v > 0 {
        BitOfSum(a / 2, w - 1, b, v - 1);
      }
    }
  }

  /** The mask records exactly the signs of the corner values, and has no
      bit at or above `|s|`. */
  lemma {:induction false} MaskOfBits(s: seq<real>)
    ensures forall v :: 0 <= v < |s| ==> (Bit(MaskOf(s), v) <==> s[v] >= 0.0)
    ensures forall v :: v >= |s| ==> !Bit(MaskOf(s), v)
  {
    if |s| == 0 {
      forall v: nat ensures !Bit(MaskOf(s), v) {
        NoBitsOfZero(v);
      }
    } else {
      var w := |s| - 1;
      var init := s[..w];
      MaskOfBits(init);
      forall v: nat ensures Bit(MaskOf(s), v) <==> (v < |s| && s[v] >= 0.0) {
        BitOfSum(MaskOf(init), w, SignBit(s[w]), v);
        if v < w {
          assert init[v] == s[v];
        }
      }
    }
  }

  /** The mask of eight corner values is a byte recording their signs. */
  lemma CornerMask(s: seq<real>)
    requires |s| == 8
    ensures MaskOf(s) < 256
    ensures forall v :: 0 <= v < 8 ==> (Bit(MaskOf(s), v) <==> s[v] >= 0.0)
  {
    assert Pow2(8) == 256;
    MaskOfBits(s);
  }

  /** A corner bit added above the accumulated mask never overlaps it, and
      or-ing it in is plain addition. */
  lemma {:induction false} FreshBit(a: nat, w: nat, b: nat)
    requires a < Pow2(w) && b <= 1
    ensures BitAnd(a, b * Pow2(w)) == 0
    ensures BitOr(a, b * Pow2(w)) == a + b * Pow2(w)
    decreases w
  {
    if b == 0 {
      assert b * Pow2(w) == 0;
    } else if w == 0 {
      assert a == 0;
    } else {
      assert Pow2(w) == 2 * Pow2(w - 1);
      assert b * Pow2(w) == 2 * Pow2(w - 1);
      FreshBit(a / 2, w - 1, b);
      assert b * Pow2(w - 1) == Pow2(w - 1);
    }
  }

  /** One step of the classification loop: the next corner's bit does not
      overlap the mask of the corners before it, and or-ing it in yields the
      mask of the longer sequence. */
  lemma MaskStep(s: seq<real>, value: real)
    ensures BitAnd(MaskOf(s), SignBit(value) * Pow2(|s|)) == 0
    ensures BitOr(MaskOf(s), SignBit(value) * Pow2(|s|)) == MaskOf(s + [value])
  {
    FreshBit(MaskOf(s), |s|, SignBit(value));
    assert (s + [value])[..|s|] == s;
  }

  /** All corners non-negative gives the full mask; all negative, the empty one. */
  lemma {:induction false} UniformMask(s: seq<real>)
    ensures (forall v :: 0 <= v < |s| ==> s[v] >= 0.0) ==> MaskOf(s) == Pow2(|s|) - 1
    ensures (forall v :: 0 <= v < |s| ==> s[v] < 0.0) ==> MaskOf(s) == 0
  {
    if |s| > 0 {
      var init := s[..|s| - 1];
      UniformMask(init);
      assert forall v :: 0 <= v < |init| ==> init[v] == s[v];
    }
  }
}
