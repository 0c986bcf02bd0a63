/**
 * Fixed-width integers, Win32 error codes, faults and the GUID value of the
 * `windows` crate, as the core uses them.
 */
module WinTypes {
  import opened Wrappers
  import Radix

  const TWO_8: int := 0x100
  const TWO_16: int := 0x1_0000
  const TWO_32: int := 0x1_0000_0000
  const TWO_64: int := 0x1_0000_0000_0000_0000

  type U8 = x: int | 0 <= x < TWO_8
  type U16 = x: int | 0 <= x < TWO_16
  type U32 = x: int | 0 <= x < TWO_32
  type U64 = x: int | 0 <= x < TWO_64
  type I32 = x: int | -0x8000_0000 <= x < 0x8000_0000

  /** An `EVT_HANDLE`: an opaque 64-bit word. */
  type Handle = U64

  /** A `windows::core::Error`, identified by its Win32 code. */
  datatype WinError = WinError(code: int)

  /** `ERROR_NO_MORE_ITEMS`: the normal end of an enumeration. */
  const ERROR_NO_MORE_ITEMS: int := 259

  /**
   * How an operation of the core can end badly: a Win32 error the caller may
   * skip, or a panic (`unwrap` on `None`, an explicit `panic!`) that ends the
   * program.
   */
  datatype Fault = Win(error: WinError) | Panic(reason: string)

  function Lift<T>(r: Result<T, WinError>): (f: Result<T, Fault>)
    ensures f.Ok? <==> r.Ok?
    ensures r.Ok? ==> f.value == r.value
    ensures r.Err? ==> f.error == Win(r.error)
  {
    match r
    case Ok(v) => Ok(v)
    case Err(e) => Err(Win(e))
  }

  /** The eight trailing bytes of a GUID. */
  type Data4 = s: seq<U8> | |s| == 8 witness [0, 0, 0, 0, 0, 0, 0, 0]

  /** A `windows::core::GUID`: data1, data2, data3 and the eight bytes of data4. */
  datatype Guid = Guid(data1: U32, data2: U16, data3: U16, data4: Data4)

  const ZERO_GUID: Guid := Guid(0, 0, 0, [0, 0, 0, 0, 0, 0, 0, 0])

  const TWO_128: int := 0x1_0000_0000_0000_0000_0000_0000_0000_0000

  /**
   * `GUID::from_u128`: data1 is the top 32 bits, data2 and data3 the next two
   * 16-bit groups, data4 the low 64 bits as big-endian bytes.
   */
  function GuidFromU128(n: nat): (g: Guid)
    requires n < TWO_128
  {
    var bytes := Radix.Digits(n % TWO_64, 256, 8);
    Guid(n / 0x1_0000_0000_0000_0000_0000_0000, (n / 0x1_0000_0000_0000_0000_0000) % TWO_16,
         (n / TWO_64) % TWO_16, [bytes[0], bytes[1], bytes[2], bytes[3], bytes[4], bytes[5], bytes[6], bytes[7]])
  }

  /** `GUID::to_u128`, the packing `from_u128` undoes. */
  function GuidToU128(g: Guid): (n: nat)
    ensures n < TWO_128
  {
    Radix.ValueBelowPow(g.data4, 256);
    assert Radix.Pow(256, 8) == TWO_64;
    g.data1 * 0x1_0000_0000_0000_0000_0000_0000 + g.data2 * 0x1_0000_0000_0000_0000_0000
      + g.data3 * TWO_64 + Radix.Value(g.data4, 256)
  }

  /** Splitting a 128-bit number into GUID fields and packing them again is the identity. */
  lemma U128RoundTrip(n: nat)
    requires n < TWO_128
    ensures GuidToU128(GuidFromU128(n)) == n
  {
    var g := GuidFromU128(n);
    var low := n % TWO_64;
    var bytes := Radix.Digits(low, 256, 8);
    assert g.data4 == bytes;
    assert Radix.Pow(256, 8) == TWO_64;
    Radix.ValueOfDigits(low, 256, 8);
    var a := n / TWO_64;
    assert n == a * TWO_64 + low;
    var c := a / TWO_16;
    assert a == c * TWO_16 + a % TWO_16;
    assert n / 0x1_0000_0000_0000_0000_0000 == c;
    assert c == (c / TWO_16) * TWO_16 + c % TWO_16;
    assert n / 0x1_0000_0000_0000_0000_0000_0000 == c / TWO_16;
  }

  /** The widths the GUID fields are cut at: 16, 64, 80 and 96 bits. */
  predicate IsFieldBoundary(d: int) {
    d == TWO_16 || d == TWO_64 || d == 0x1_0000_0000_0000_0000_0000 || d == 0x1_0000_0000_0000_0000_0000_0000
  }

  /** The quotient and remainder of n by a field boundary, given a decomposition with a remainder below it. */
  lemma DivModOf(n: int, q: int, r: int, d: int)
    requires IsFieldBoundary(d) && 0 <= r < d && n == q * d + r
    ensures n / d == q && n % d == r
  {
    if d == TWO_16 {
      assert n == q * TWO_16 + r;
    } else if d == TWO_64 {
      assert n == q * TWO_64 + r;
    } else if d == 0x1_0000_0000_0000_0000_0000 {
      assert n == q * 0x1_0000_0000_0000_0000_0000 + r;
    } else {
      assert n == q * 0x1_0000_0000_0000_0000_0000_0000 + r;
    }
  }

  /** Packing a GUID into 128 bits and splitting it again gives the same GUID. */
  lemma GuidRoundTrip(g: Guid)
    ensures GuidFromU128(GuidToU128(g)) == g
  {
    var v := Radix.Value(g.data4, 256);
    Radix.ValueBelowPow(g.data4, 256);
    assert Radix.Pow(256, 8) == TWO_64;
    Radix.DigitsOfValue(g.data4, 256);
    var n := GuidToU128(g);
    var hi := g.data1 * TWO_32 + g.data2 * TWO_16 + g.data3;
    var mid := g.data1 * TWO_16 + g.data2;
    DivModOf(n, hi, v, TWO_64);
    DivModOf(hi, mid, g.data3, TWO_16);
    DivModOf(n, mid, g.data3 * TWO_64 + v, 0x1_0000_0000_0000_0000_0000);
    DivModOf(mid, g.data1, g.data2, TWO_16);
    DivModOf(n, g.data1, g.data2 * 0x1_0000_0000_0000_0000_0000 + g.data3 * TWO_64 + v, 0x1_0000_0000_0000_0000_0000_0000);
  }
}
