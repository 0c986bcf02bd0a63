/**
 * `GuidWrapper`'s `Display`: a GUID as five groups of zero-padded lower-case
 * hex digits, 8-4-4-4-12, with a parser that inverts it.
 */
module GuidDisplay {
  import opened Wrappers
  import opened WinTypes
  import Radix

  predicate IsLowerHexDigit(c: char) {
    ('0' <= c <= '9') || ('a' <= c <= 'f')
  }

  function HexChar(d: nat): (c: char)
    requires d < 16
    ensures IsLowerHexDigit(c)
  {
    if d < 10 then (48 + d) as char else (87 + d) as char
  }

  function HexDigitValue(c: char): (d: nat)
    ensures d < 16
  {
    if '0' <= c <= '9' then c as int - 48
    else if 'a' <= c <= 'f' then c as int - 87
    else 0
  }

  /** `{:0<width>x}` of a value that fits in `width` hex digits. */
  function Hex(x: nat, width: nat): (s: string)
    requires x < Radix.Pow(16, width)
    ensures |s| == width
    ensures forall i :: 0 <= i < width ==> IsLowerHexDigit(s[i])
  {
    var ds := Radix.Digits(x, 16, width);
    seq(width, i requires 0 <= i < width => HexChar(ds[i]))
  }

  /** The number a string of hex digits denotes. */
  function HexValue(s: string): (v: nat)
    ensures v < Radix.Pow(16, |s|)
  {
    var ds := seq(|s|, i requires 0 <= i < |s| => HexDigitValue(s[i]));
    Radix.ValueBelowPow(ds, 16);
    Radix.Value(ds, 16)
  }

  lemma {:induction false} HexValueOfHex(x: nat, width: nat)
    requires x < Radix.Pow(16, width)
    ensures HexValue(Hex(x, width)) == x
  {
    var s := Hex(x, width);
    var ds := Radix.Digits(x, 16, width);
    var back := seq(|s|, i requires 0 <= i < |s| => HexDigitValue(s[i]));
    assert back == ds;
    Radix.ValueOfDigits(x, 16, width);
  }

  /** `GuidWrapper::fmt`. */
  function Format(g: Guid): (r: string)
    ensures IsGuidText(r)
  {
    Hex(g.data1, 8) + "-" + Hex(g.data2, 4) + "-" + Hex(g.data3, 4) + "-"
      + Hex(g.data4[0], 2) + Hex(g.data4[1], 2) + "-"
      + Hex(g.data4[2], 2) + Hex(g.data4[3], 2) + Hex(g.data4[4], 2)
      + Hex(g.data4[5], 2) + Hex(g.data4[6], 2) + Hex(g.data4[7], 2)
  }

  predicate IsHyphenPosition(i: int) {
    i == 8 || i == 13 || i == 18 || i == 23
  }

  /** The 8-4-4-4-12 layout: 36 characters, hyphens at 8, 13, 18, 23, lower-case hex elsewhere. */
  predicate IsGuidText(s: string) {
    && |s| == 36
    && (forall i :: 0 <= i < 36 && IsHyphenPosition(i) ==> s[i] == '-')
    && (forall i :: 0 <= i < 36 && !IsHyphenPosition(i) ==> IsLowerHexDigit(s[i]))
  }

  /** Reads the 8-4-4-4-12 layout back into a GUID. */
  function Parse(s: string): (r: Option<Guid>)
    ensures r.Some? <==> IsGuidText(s)
  {
    if !IsGuidText(s) then None
    else
      var d1 := HexValue(s[0..8]);
      var d2 := HexValue(s[9..13]);
      var d3 := HexValue(s[14..18]);
      assert Radix.Pow(16, 2) == TWO_8 && Radix.Pow(16, 4) == TWO_16 && Radix.Pow(16, 8) == TWO_32;
      var d4: seq<U8> := [HexValue(s[19..21]), HexValue(s[21..23]), HexValue(s[24..26]), HexValue(s[26..28]),
                          HexValue(s[28..30]), HexValue(s[30..32]), HexValue(s[32..34]), HexValue(s[34..36])];
      Some(Guid(d1, d2, d3, d4))
  }

  /** Where the rendering puts the three leading fields. */
  lemma FormatFieldSlices(g: Guid)
    ensures Format(g)[0..8] == Hex(g.data1, 8)
    ensures Format(g)[9..13] == Hex(g.data2, 4)
    ensures Format(g)[14..18] == Hex(g.data3, 4)
  {
    assert Radix.Pow(16, 2) == TWO_8 && Radix.Pow(16, 4) == TWO_16 && Radix.Pow(16, 8) == TWO_32;
  }

  /** The rendering from index 19 on: the eight trailing bytes, a hyphen after the second. */
  lemma FormatTail(g: Guid)
    ensures Format(g)[19..] == Hex(g.data4[0], 2) + Hex(g.data4[1], 2) + "-"
              + Hex(g.data4[2], 2) + Hex(g.data4[3], 2) + Hex(g.data4[4], 2)
              + Hex(g.data4[5], 2) + Hex(g.data4[6], 2) + Hex(g.data4[7], 2)
  {
    assert Radix.Pow(16, 2) == TWO_8 && Radix.Pow(16, 4) == TWO_16 && Radix.Pow(16, 8) == TWO_32;
    var head := Hex(g.data1, 8) + "-" + Hex(g.data2, 4) + "-" + Hex(g.data3, 4) + "-";
    assert |head| == 19;
  }

  /** The three hyphen-free runs of the tail: two bytes, then six. */
  lemma TailRuns(t: string, h: seq<string>)
    requires |h| == 8 && forall k :: 0 <= k < 8 ==> |h[k]| == 2
    requires t == h[0] + h[1] + "-" + h[2] + h[3] + h[4] + h[5] + h[6] + h[7]
    ensures t[0..2] == h[0] && t[2..4] == h[1]
    ensures t[5..7] == h[2] && t[7..9] == h[3] && t[9..11] == h[4]
    ensures t[11..13] == h[5] && t[13..15] == h[6] && t[15..17] == h[7]
  {
    var left := h[0] + h[1] + "-";
    var right := h[2] + h[3] + h[4] + h[5] + h[6] + h[7];
    assert t == left + right;
    assert t[0..2] == left[0..2] && t[2..4] == left[2..4];
    assert t[5..7] == right[0..2] && t[7..9] == right[2..4] && t[9..11] == right[4..6];
    assert t[11..13] == right[6..8] && t[13..15] == right[8..10] && t[15..17] == right[10..12];
  }

  /** Where the rendering puts the eight trailing bytes. */
  lemma FormatByteSlices(g: Guid)
    ensures Format(g)[19..21] == Hex(g.data4[0], 2) && Format(g)[21..23] == Hex(g.data4[1], 2)
    ensures Format(g)[24..26] == Hex(g.data4[2], 2) && Format(g)[26..28] == Hex(g.data4[3], 2)
    ensures Format(g)[28..30] == Hex(g.data4[4], 2) && Format(g)[30..32] == Hex(g.data4[5], 2)
    ensures Format(g)[32..34] == Hex(g.data4[6], 2) && Format(g)[34..36] == Hex(g.data4[7], 2)
  {
    var s := Format(g);
    var h := seq(8, k requires 0 <= k < 8 => Hex(g.data4[k], 2));
    FormatTail(g);
    var t := s[19..];
    TailRuns(t, h);
    assert s[19..21] == t[0..2] && s[21..23] == t[2..4];
    assert s[24..26] == t[5..7] && s[26..28] == t[7..9];
    assert s[28..30] == t[9..11] && s[30..32] == t[11..13];
    assert s[32..34] == t[13..15] && s[34..36] == t[15..17];
  }

  /** Parsing a rendered GUID gives the GUID back, so the rendering is injective. */
  lemma ParseFormat(g: Guid)
    ensures Parse(Format(g)) == Some(g)
  {
    var s := Format(g);
    assert Radix.Pow(16, 2) == TWO_8 && Radix.Pow(16, 4) == TWO_16 && Radix.Pow(16, 8) == TWO_32;
    FormatFieldSlices(g);
    FormatByteSlices(g);
    HexValueOfHex(g.data1, 8);
    HexValueOfHex(g.data2, 4);
    HexValueOfHex(g.data3, 4);
    forall k | 0 <= k < 8 ensures HexValue(Hex(g.data4[k], 2)) == g.data4[k] {
      HexValueOfHex(g.data4[k], 2);
    }
    var d4 := Parse(s).value.data4;
    assert d4 == g.data4;
  }

  const ZERO_GUID_TEXT: string := "00000000-0000-0000-0000-000000000000"

  lemma HexOfZero(width: nat)
    ensures Hex(0, width) == seq(width, _ => '0')
  {
    Radix.DigitsOfZero(16, width);
  }

  /**
   * The text compared against to mean "no task GUID" is the rendering of the
   * all-zero GUID and of no other GUID.
   */
  lemma ZeroGuidText(g: Guid)
    ensures Format(g) == ZERO_GUID_TEXT <==> g == ZERO_GUID
  {
    HexOfZero(8);
    HexOfZero(4);
    HexOfZero(2);
    assert Format(ZERO_GUID) == ZERO_GUID_TEXT;
    if Format(g) == ZERO_GUID_TEXT {
      ParseFormat(g);
      ParseFormat(ZERO_GUID);
    }
  }
}
