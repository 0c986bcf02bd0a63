/**
 * `ManagedEvtVariant`: an owned copy of one `EVT_VARIANT`, the tagged union
 * the event-log metadata calls return. The raw union is a type tag plus one
 * 64-bit payload word (little-endian, so `ByteVal` is the low byte and
 * `Int32Val`/`UInt32Val` the low 32 bits); string and GUID payloads are
 * pointers and only their decoded values are kept, in the buffer.
 */
module ManagedVariant {
  import opened Wrappers
  import opened WinTypes

  /** `EVT_VARIANT_TYPE` tags the decoder knows about. */
  const EVT_VAR_TYPE_STRING: U32 := 1
  const EVT_VAR_TYPE_BYTE: U32 := 4
  const EVT_VAR_TYPE_INT32: U32 := 7
  const EVT_VAR_TYPE_UINT32: U32 := 8
  const EVT_VAR_TYPE_UINT64: U32 := 10
  const EVT_VAR_TYPE_GUID: U32 := 15
  const EVT_VAR_TYPE_EVT_HANDLE: U32 := 32

  type I8 = x: int | -0x80 <= x < 0x80
  type I16 = x: int | -0x8000 <= x < 0x8000
  type I64 = x: int | -0x8000_0000_0000_0000 <= x < 0x8000_0000_0000_0000

  /** The decoded value (the floating-point variants are not modelled). */
  datatype VariantBuffer =
    | StringVal(text: string)
    | SByteVal(sbyte: I8)
    | ByteVal(byte: U8)
    | Int16Val(int16: I16)
    | UInt16Val(uint16: U16)
    | Int32Val(int32: I32)
    | UInt32Val(uint32: U32)
    | Int64Val(int64: I64)
    | UInt64Val(uint64: U64)
    | BooleanVal(flag: bool)
    | GuidVal(guid: Guid)
    | EvtHandleVal(handle: Handle)

  /** `EVT_VARIANT`: the union's storage as one word, `Count` and `Type`. */
  datatype EvtVariant = EvtVariant(payload: U64, count: U32, vtype: U32)

  datatype ManagedEvtVariant = ManagedEvtVariant(buffer: VariantBuffer, variant: EvtVariant)

  // Reading one field of the union.

  function ByteField(w: U64): U8 { w % TWO_8 }

  function UInt32Field(w: U64): U32 { w % TWO_32 }

  /** The low 32 bits read as a two's-complement `i32`. */
  function Int32Field(w: U64): I32 {
    var u := w % TWO_32;
    if u < 0x8000_0000 then u else u - TWO_32
  }

  // Writing one field of the union: only that field's bytes change.

  function StoreByte(w: U64, b: U8): U64 { w - w % TWO_8 + b }

  function StoreUInt32(w: U64, u: U32): U64 { w - w % TWO_32 + u }

  function StoreInt32(w: U64, i: I32): U64 {
    StoreUInt32(w, if i >= 0 then i else i + TWO_32)
  }

  /**
   * The value a scalar tag selects from a payload word, or None for the tags
   * `from_variant` and `update_variant` refuse (string, GUID, everything else).
   */
  function Decode(tag: U32, w: U64): (r: Option<VariantBuffer>)
    ensures r.Some? <==> tag in {EVT_VAR_TYPE_BYTE, EVT_VAR_TYPE_INT32, EVT_VAR_TYPE_UINT32,
                                 EVT_VAR_TYPE_UINT64, EVT_VAR_TYPE_EVT_HANDLE}
  {
    if tag == EVT_VAR_TYPE_BYTE then Some(ByteVal(ByteField(w)))
    else if tag == EVT_VAR_TYPE_INT32 then Some(Int32Val(Int32Field(w)))
    else if tag == EVT_VAR_TYPE_UINT32 then Some(UInt32Val(UInt32Field(w)))
    else if tag == EVT_VAR_TYPE_UINT64 then Some(UInt64Val(w))
    else if tag == EVT_VAR_TYPE_EVT_HANDLE then Some(EvtHandleVal(w))
    else None
  }

  predicate IsScalar(b: VariantBuffer) {
    b.ByteVal? || b.Int32Val? || b.UInt32Val? || b.UInt64Val? || b.EvtHandleVal?
  }

  /** The tag of a scalar buffer. */
  function TagOf(b: VariantBuffer): U32
    requires IsScalar(b)
  {
    match b
    case ByteVal(_) => EVT_VAR_TYPE_BYTE
    case Int32Val(_) => EVT_VAR_TYPE_INT32
    case UInt32Val(_) => EVT_VAR_TYPE_UINT32
    case UInt64Val(_) => EVT_VAR_TYPE_UINT64
    case EvtHandleVal(_) => EVT_VAR_TYPE_EVT_HANDLE
  }

  /** Assigning a scalar to its field of a union whose storage was `w`. */
  function Store(w: U64, b: VariantBuffer): (r: U64)
    requires IsScalar(b)
    ensures Decode(TagOf(b), r) == Some(b)
  {
    match b
    case ByteVal(x) => StoreByte(w, x)
    case Int32Val(x) => StoreInt32(w, x)
    case UInt32Val(x) => StoreUInt32(w, x)
    case UInt64Val(x) => x
    case EvtHandleVal(x) => x
  }

  /**
   * The buffer and the raw variant describe the same value: the tag matches
   * the buffer's kind and, for scalars, the union field holds the value.
   */
  predicate Coherent(m: ManagedEvtVariant) {
    match m.buffer
    case StringVal(_) => m.variant.vtype == EVT_VAR_TYPE_STRING
    case GuidVal(_) => m.variant.vtype == EVT_VAR_TYPE_GUID
    case _ => Decode(m.variant.vtype, m.variant.payload) == Some(m.buffer)
  }

  /** `ManagedEvtVariant::new`: the byte 0. */
  function New(): (m: ManagedEvtVariant)
    ensures Coherent(m) && GetData(m) == Some(ByteVal(0))
    ensures GetByte(m) == 0 && m.variant.count == 0
  {
    ManagedEvtVariant(ByteVal(0), EvtVariant(0, 0, EVT_VAR_TYPE_BYTE))
  }

  /**
   * `ManagedEvtVariant::from_variant`: copies a scalar out of a raw variant;
   * a string, a GUID or an unknown tag panics.
   */
  function FromVariant(source: EvtVariant): (r: Result<ManagedEvtVariant, Fault>)
    ensures r.Ok? <==> Decode(source.vtype, source.payload).Some?
    ensures r.Ok? ==> Coherent(r.value) && r.value.variant.count == 0
    ensures r.Ok? ==> r.value.variant.vtype == source.vtype
    ensures r.Ok? ==> Decode(source.vtype, r.value.variant.payload) == Decode(source.vtype, source.payload)
    ensures r.Err? ==> r.error.Panic?
  {
    if source.vtype == EVT_VAR_TYPE_STRING then
      Err(Panic("string values must go through from_string"))
    else if source.vtype == EVT_VAR_TYPE_GUID then
      Err(Panic("GUID values must go through from_guid or from_guid_128"))
    else
      match Decode(source.vtype, source.payload)
      case None => Err(Panic("unsupported variant type"))
      case Some(b) => Ok(ManagedEvtVariant(b, EvtVariant(Store(0, b), 0, source.vtype)))
  }

  /** `ManagedEvtVariant::from_string`; the union holds a null pointer. */
  function FromString(s: string): (m: ManagedEvtVariant)
    ensures Coherent(m) && m.variant.vtype == EVT_VAR_TYPE_STRING
    ensures GetString(m) == Some(s) && GetGuid(m) == None
  {
    ManagedEvtVariant(StringVal(s), EvtVariant(0, 0, EVT_VAR_TYPE_STRING))
  }

  /** `ManagedEvtVariant::from_guid`; the union holds a null pointer. */
  function FromGuid(g: Guid): (m: ManagedEvtVariant)
    ensures Coherent(m) && m.variant.vtype == EVT_VAR_TYPE_GUID
    ensures GetGuid(m) == Some(g) && GetString(m) == None
  {
    ManagedEvtVariant(GuidVal(g), EvtVariant(0, 0, EVT_VAR_TYPE_GUID))
  }

  /** `ManagedEvtVariant::from_guid_128`: the GUID `GUID::from_u128` builds. */
  function FromGuid128(n: nat): (m: ManagedEvtVariant)
    requires n < TWO_128
    ensures Coherent(m) && m.variant.vtype == EVT_VAR_TYPE_GUID && GetString(m) == None
    ensures GetGuid(m).Some? && GuidToU128(GetGuid(m).value) == n
  {
    U128RoundTrip(n);
    FromGuid(GuidFromU128(n))
  }

  /** `get_data`: a copy of the buffer for the kinds the decoder builds, else None. */
  function GetData(m: ManagedEvtVariant): (r: Option<VariantBuffer>)
    ensures r.Some? <==> (IsScalar(m.buffer) || m.buffer.StringVal? || m.buffer.GuidVal?)
    ensures r.Some? ==> r.value == m.buffer
  {
    match m.buffer
    case StringVal(s) => Some(StringVal(s))
    case ByteVal(x) => Some(ByteVal(x))
    case Int32Val(x) => Some(Int32Val(x))
    case UInt32Val(x) => Some(UInt32Val(x))
    case UInt64Val(x) => Some(UInt64Val(x))
    case GuidVal(g) => Some(GuidVal(g))
    case EvtHandleVal(h) => Some(EvtHandleVal(h))
    case _ => None
  }

  function GetString(m: ManagedEvtVariant): (r: Option<string>)
    ensures r.Some? <==> m.buffer.StringVal?
    ensures r.Some? ==> r.value == m.buffer.text
  {
    match m.buffer
    case StringVal(s) => Some(s)
    case _ => None
  }

  function GetGuid(m: ManagedEvtVariant): (r: Option<Guid>)
    ensures r.Some? <==> m.buffer.GuidVal?
    ensures r.Some? ==> r.value == m.buffer.guid
  {
    match m.buffer
    case GuidVal(g) => Some(g)
    case _ => None
  }

  // The scalar getters read the union directly, whatever the buffer holds.

  // For a coherent value each one gives back the buffer of its own kind.

  function GetByte(m: ManagedEvtVariant): (r: U8)
    ensures Coherent(m) && m.buffer.ByteVal? ==> r == m.buffer.byte
  {
    ByteField(m.variant.payload)
  }

  function GetInt32(m: ManagedEvtVariant): (r: I32)
    ensures Coherent(m) && m.buffer.Int32Val? ==> r == m.buffer.int32
    ensures Coherent(m) && m.buffer.UInt32Val? ==> (r == -1 <==> m.buffer.uint32 == 0xFFFF_FFFF)
  {
    Int32Field(m.variant.payload)
  }

  function GetU32(m: ManagedEvtVariant): (r: U32)
    ensures Coherent(m) && m.buffer.UInt32Val? ==> r == m.buffer.uint32
  {
    UInt32Field(m.variant.payload)
  }

  function GetU64(m: ManagedEvtVariant): (r: U64)
    ensures Coherent(m) && m.buffer.UInt64Val? ==> r == m.buffer.uint64
  {
    m.variant.payload
  }

  function GetEvtHandle(m: ManagedEvtVariant): (r: Handle)
    ensures Coherent(m) && m.buffer.EvtHandleVal? ==> r == m.buffer.handle
  {
    m.variant.payload
  }

  /**
   * `get_variant`: hands back the raw variant, which cannot drift from the
   * buffer: a coherent value's tag names the buffer's kind and, for a
   * scalar, its union field reads back as the buffer.
   */
  function GetVariant(m: ManagedEvtVariant): (v: EvtVariant)
    ensures v == m.variant
    ensures Coherent(m) && IsScalar(m.buffer) ==>
              Decode(v.vtype, v.payload) == Some(m.buffer) && GetData(m) == Decode(v.vtype, v.payload)
    ensures Coherent(m) && m.buffer.StringVal? ==> v.vtype == EVT_VAR_TYPE_STRING && GetString(m).Some?
    ensures Coherent(m) && m.buffer.GuidVal? ==> v.vtype == EVT_VAR_TYPE_GUID && GetGuid(m).Some?
  {
    m.variant
  }

  /** The raw variant `from_variant` turns into a given scalar buffer. */
  function Encode(b: VariantBuffer): EvtVariant
    requires IsScalar(b)
  {
    EvtVariant(Store(0, b), 0, TagOf(b))
  }

  /** Decoding an encoded scalar gives the scalar back, for every value of every accepted tag. */
  lemma DecodeEncode(b: VariantBuffer)
    requires IsScalar(b)
    ensures FromVariant(Encode(b)) == Ok(ManagedEvtVariant(b, Encode(b)))
  {
  }

  /** Every accepted raw variant is, up to its Count, the encoding of what it decodes to. */
  lemma EncodeDecode(v: EvtVariant)
    requires FromVariant(v).Ok?
    ensures IsScalar(FromVariant(v).value.buffer)
    ensures Encode(FromVariant(v).value.buffer) == FromVariant(v).value.variant
    ensures FromVariant(v).value.variant == EvtVariant(FromVariant(v).value.variant.payload, 0, v.vtype)
  {
  }

  /**
   * `get_int32` and `get_u32` read the same 32 bits: the value reads as -1
   * exactly when it reads as 0xFFFFFFFF.
   */
  lemma Int32MinusOneIsU32Max(m: ManagedEvtVariant)
    ensures GetInt32(m) == -1 <==> GetU32(m) == 0xFFFF_FFFF
  {
  }

  /** A `UInt32` variant holding 0xFFFFFFFF (the "no message" id) reads as -1 through `get_int32`. */
  lemma NoMessageSentinelReadsMinusOne(count: U32)
    ensures FromVariant(EvtVariant(0xFFFF_FFFF, count, EVT_VAR_TYPE_UINT32)).Ok?
    ensures GetInt32(FromVariant(EvtVariant(0xFFFF_FFFF, count, EVT_VAR_TYPE_UINT32)).value) == -1
  {
  }

  /** A field store keeps the bytes above the field: only the low byte / low 32 bits change. */
  lemma StoreKeepsUpperBytes(w: U64, b: VariantBuffer)
    requires b.ByteVal? || b.Int32Val? || b.UInt32Val?
    ensures b.ByteVal? ==> Store(w, b) / TWO_8 == w / TWO_8
    ensures !b.ByteVal? ==> Store(w, b) / TWO_32 == w / TWO_32
  {
  }

  /**
   * A mutable `ManagedEvtVariant` place (a `let mut` binding), the receiver
   * of `update_variant`.
   */
  class ManagedEvtVariantCell {
    var buffer: VariantBuffer
    var variant: EvtVariant

    function Value(): ManagedEvtVariant
      reads this
    {
      ManagedEvtVariant(buffer, variant)
    }

    constructor (init: ManagedEvtVariant)
      ensures Value() == init
    {
      buffer := init.buffer;
      variant := init.variant;
    }

    /**
     * `update_variant`: for a scalar tag, writes the value into its field of
     * the existing union, rebuilds the buffer and copies Type and Count from
     * the input; a string, a GUID or an unknown tag panics before anything
     * is written.
     */
    method UpdateVariant(newVariant: EvtVariant) returns (outcome: Result<(), Fault>)
      modifies this
      ensures outcome.Ok? <==> Decode(newVariant.vtype, newVariant.payload).Some?
      ensures outcome.Ok? ==> buffer == Decode(newVariant.vtype, newVariant.payload).value
      ensures outcome.Ok? ==> variant == EvtVariant(Store(old(variant.payload), buffer), newVariant.count, newVariant.vtype)
      ensures outcome.Ok? ==> Coherent(Value())
      ensures outcome.Err? ==> outcome.error.Panic? && buffer == old(buffer) && variant == old(variant)
    {
      var tag := newVariant.vtype;
      if tag == EVT_VAR_TYPE_STRING {
        return Err(Panic("string values must not be added through update_variant"));
      } else if tag == EVT_VAR_TYPE_BYTE {
        var newByte := ByteField(newVariant.payload);
        variant := variant.(payload := StoreByte(variant.payload, newByte));
        buffer := ByteVal(newByte);
      } else if tag == EVT_VAR_TYPE_INT32 {
        var newInt32 := Int32Field(newVariant.payload);
        variant := variant.(payload := StoreInt32(variant.payload, newInt32));
        buffer := Int32Val(newInt32);
      } else if tag == EVT_VAR_TYPE_UINT32 {
        var newUInt32 := UInt32Field(newVariant.payload);
        variant := variant.(payload := StoreUInt32(variant.payload, newUInt32));
        buffer := UInt32Val(newUInt32);
      } else if tag == EVT_VAR_TYPE_UINT64 {
        variant := variant.(payload := newVariant.payload);
        buffer := UInt64Val(newVariant.payload);
      } else if tag == EVT_VAR_TYPE_GUID {
        return Err(Panic("GUID values must not be added through update_variant"));
      } else if tag == EVT_VAR_TYPE_EVT_HANDLE {
        variant := variant.(payload := newVariant.payload);
        buffer := EvtHandleVal(newVariant.payload);
      } else {
        return Err(Panic("unsupported variant type"));
      }
      variant := variant.(vtype := newVariant.vtype, count := newVariant.count);
      outcome := Ok(());
    }
  }

  /** `update_variant` accepts exactly the tags `from_variant` accepts and decodes the same value. */
  lemma UpdateAgreesWithFromVariant(newVariant: EvtVariant)
    ensures Decode(newVariant.vtype, newVariant.payload).Some? <==> FromVariant(newVariant).Ok?
    ensures FromVariant(newVariant).Ok? ==>
              Decode(newVariant.vtype, newVariant.payload) == Some(FromVariant(newVariant).value.buffer)
  {
  }
}
