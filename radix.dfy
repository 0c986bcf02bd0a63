/**
 * Fixed-width positional notation, most significant digit first: the shape
 * shared by zero-padded hex formatting (`{:08x}`) and big-endian byte
 * encodings (`to_be_bytes`).
 */
module Radix {

  function Pow(base: nat, n: nat): (p: nat)
    requires base >= 1
    ensures p >= 1
  {
    if n == 0 then 1 else base * Pow(base, n - 1)
  }

  /** The `width` lowest base-`base` digits of `x`, most significant first. */
  function Digits(x: nat, base: nat, width: nat): (ds: seq<nat>)
    requires base >= 2
    ensures |ds| == width
    ensures forall i :: 0 <= i < width ==> ds[i] < base
  {
    if width == 0 then [] else Digits(x / base, base, width - 1) + [x % base]
  }

  /** The number a digit sequence denotes, most significant digit first. */
  function Value(ds: seq<nat>, base: nat): nat
  {
    if ds == [] then 0 else Value(ds[..|ds| - 1], base) * base + ds[|ds| - 1]
  }

  /** The two bases the core formats in: hex digits and bytes. */
  predicate KnownBase(base: nat) {
    base == 16 || base == 256
  }

  lemma DivBelowPow(x: nat, base: nat, width: nat)
    requires KnownBase(base) && width >= 1 && x < Pow(base, width)
    ensures x / base < Pow(base, width - 1)
  {
    var p := Pow(base, width - 1);
    if base == 16 {
      assert x < 16 * p;
    } else {
      assert x < 256 * p;
    }
  }

  /** Reading back the digits of a number that fits in `width` digits gives the number. */
  lemma {:induction false} ValueOfDigits(x: nat, base: nat, width: nat)
    requires KnownBase(base) && x < Pow(base, width)
    ensures Value(Digits(x, base, width), base) == x
  {
    if width > 0 {
      DivBelowPow(x, base, width);
      ValueOfDigits(x / base, base, width - 1);
      var ds := Digits(x, base, width);
      assert ds[..|ds| - 1] == Digits(x / base, base, width - 1);
      if base == 16 {
        assert Value(ds, 16) == (x / 16) * 16 + x % 16;
      } else {
        assert Value(ds, 256) == (x / 256) * 256 + x % 256;
      }
    }
  }

  /** A sequence of `n` base-`base` digits denotes a number below `base^n`. */
  lemma {:induction false} ValueBelowPow(ds: seq<nat>, base: nat)
    requires KnownBase(base)
    requires forall i :: 0 <= i < |ds| ==> ds[i] < base
    ensures Value(ds, base) < Pow(base, |ds|)
  {
    if ds != [] {
      var front := ds[..|ds| - 1];
      ValueBelowPow(front, base);
      var v := Value(front, base);
      var p := Pow(base, |front|);
      assert v <= p - 1;
      if base == 16 {
        assert Value(ds, 16) <= (p - 1) * 16 + 15;
      } else {
        assert Value(ds, 256) <= (p - 1) * 256 + 255;
      }
    }
  }

  /** The digits of zero are all zero. */
  lemma {:induction false} DigitsOfZero(base: nat, width: nat)
    requires base >= 2
    ensures forall i :: 0 <= i < width ==> Digits(0, base, width)[i] == 0
  {
    if width > 0 {
      DigitsOfZero(base, width - 1);
    }
  }

  /** Writing out the number a digit sequence denotes gives back the digits. */
  lemma {:induction false} DigitsOfValue(ds: seq<nat>, base: nat)
    requires KnownBase(base)
    requires forall i :: 0 <= i < |ds| ==> ds[i] < base
    ensures Digits(Value(ds, base), base, |ds|) == ds
  {
    if ds != [] {
      var front := ds[..|ds| - 1];
      var v := Value(front, base);
      DigitsOfValue(front, base);
      if base == 16 {
        assert (v * 16 + ds[|ds| - 1]) / 16 == v;
        assert (v * 16 + ds[|ds| - 1]) % 16 == ds[|ds| - 1];
      } else {
        assert (v * 256 + ds[|ds| - 1]) / 256 == v;
        assert (v * 256 + ds[|ds| - 1]) % 256 == ds[|ds| - 1];
      }
      assert ds == front + [ds[|ds| - 1]];
    }
  }
}
