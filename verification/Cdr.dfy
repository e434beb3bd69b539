/** The wire format of include/talosos/serialization.h as a pair of functions over
    schemas: what the Write overloads append at a given offset and what the Read
    overloads make of a buffer.  Offsets are positions in the whole buffer, header
    included; padding is relative to the end of the 4-byte encapsulation header. */
module Cdr {
  import opened Bytes

  const HEADER_SIZE: nat := 4
  const LE_HEADER: seq<byte> := [0, 1, 0, 0]
  const TWO32: nat := 0x1_0000_0000

  datatype CdrError = ShortHeader | Underrun

  datatype Result<+T> = Ok(value: T) | Err(error: CdrError) {
    predicate IsFailure() { Err? }
    function PropagateFailure<U>(): Result<U>
      requires Err?
    {
      Err(error)
    }
    function Extract(): T
      requires Ok?
    {
      value
    }
  }

  // ---- Schemas and values ----

  datatype Prim = Bool | U8 | I8 | U16 | I16 | U32 | I32 | U64 | I64 | F32 | F64

  /** Str is std::string, Seq std::vector, Arr std::array, and Struct a message
      written field by field in the listed order. */
  datatype Schema =
    | Prim(prim: Prim)
    | Str
    | Seq(elem: Schema)
    | Arr(elem: Schema, n: nat)
    | Struct(fields: seq<Schema>)

  /** Floating-point numbers are carried as their bit patterns. */
  datatype Value = VBool(b: bool) | VInt(i: int) | VBits(bits: nat) | VStr(s: seq<byte>) | VList(vs: seq<Value>)

  predicate IsWidth(n: nat) { n == 1 || n == 2 || n == 4 || n == 8 }

  /** Number of values of an unsigned integer of w bytes. */
  function Modulus(w: nat): nat
    requires IsWidth(w)
  {
    if w == 1 then 0x100 else if w == 2 then 0x1_0000 else if w == 4 then TWO32 else 0x1_0000_0000_0000_0000
  }

  lemma ModulusIs(w: nat)
    requires IsWidth(w)
    ensures Modulus(w) == Pow256(w)
  {
    Pow256Values();
  }

  function Width(p: Prim): (w: nat)
    ensures IsWidth(w)
  {
    match p
    case Bool | U8 | I8 => 1
    case U16 | I16 => 2
    case U32 | I32 | F32 => 4
    case U64 | I64 | F64 => 8
  }

  predicate IsSigned(p: Prim) { p == I8 || p == I16 || p == I32 || p == I64 }

  predicate HasPrimType(p: Prim, v: Value) {
    var m := Modulus(Width(p));
    match p
    case Bool => v.VBool?
    case F32 | F64 => v.VBits? && v.bits < m
    case _ => v.VInt? && if IsSigned(p) then -(m / 2) <= v.i < m / 2 else 0 <= v.i < m
  }

  predicate HasType(s: Schema, v: Value)
    decreases v, 1
  {
    match s
    case Prim(p) => HasPrimType(p, v)
    case Str => v.VStr?
    case Seq(e) => v.VList? && ElemsHaveType(e, v.vs)
    case Arr(e, n) => v.VList? && |v.vs| == n && ElemsHaveType(e, v.vs)
    case Struct(fs) => v.VList? && FieldsHaveType(fs, v.vs)
  }

  predicate ElemsHaveType(e: Schema, vs: seq<Value>)
    decreases vs, 0
  {
    vs != [] ==> HasType(e, vs[0]) && ElemsHaveType(e, vs[1..])
  }

  predicate FieldsHaveType(fs: seq<Schema>, vs: seq<Value>)
    decreases vs, 0
  {
    |fs| == |vs| && (vs != [] ==> HasType(fs[0], vs[0]) && FieldsHaveType(fs[1..], vs[1..]))
  }

  /** The bound a caller can check before writing: the length prefixes do not wrap.
      A string's prefix counts its terminator, a sequence's prefix its elements. */
  predicate Fits(s: Schema, v: Value)
    requires HasType(s, v)
    decreases v, 1
  {
    match s
    case Prim(_) => true
    case Str => |v.s| < TWO32 - 1
    case Seq(e) => |v.vs| < TWO32 && ElemsFit(e, v.vs)
    case Arr(e, _) => ElemsFit(e, v.vs)
    case Struct(fs) => FieldsFit(fs, v.vs)
  }

  predicate ElemsFit(e: Schema, vs: seq<Value>)
    requires ElemsHaveType(e, vs)
    decreases vs, 0
  {
    vs != [] ==> Fits(e, vs[0]) && ElemsFit(e, vs[1..])
  }

  predicate FieldsFit(fs: seq<Schema>, vs: seq<Value>)
    requires FieldsHaveType(fs, vs)
    decreases vs, 0
  {
    vs != [] ==> Fits(fs[0], vs[0]) && FieldsFit(fs[1..], vs[1..])
  }

  // ---- Writing ----

  /** Number of zero bytes Align(n) inserts at buffer position pos. */
  function Pad(pos: nat, n: nat): (k: nat)
    requires pos >= HEADER_SIZE && IsWidth(n)
    ensures k < n
  {
    var body := pos - HEADER_SIZE;
    if n == 1 then 0
    else if n == 2 then (2 - body % 2) % 2
    else if n == 4 then (4 - body % 4) % 4
    else (8 - body % 8) % 8
  }

  /** static_cast of a value to the unsigned type of its width. */
  function ToBits(p: Prim, v: Value): (bits: nat)
    requires HasPrimType(p, v)
    ensures bits < Modulus(Width(p))
  {
    match v
    case VBool(b) => if b then 1 else 0
    case VInt(i) => if i < 0 then i + Modulus(Width(p)) else i
    case VBits(n) => n
  }

  /** static_cast back; a bool reads as true from every nonzero byte. */
  function OfBits(p: Prim, bits: nat): (v: Value)
    requires bits < Modulus(Width(p))
    ensures HasPrimType(p, v)
  {
    var m := Modulus(Width(p));
    var half := m / 2;
    if p == Bool then VBool(bits != 0)
    else if p == F32 || p == F64 then VBits(bits)
    else VInt(if IsSigned(p) && bits >= half then bits - m else bits)
  }

  lemma OfToBits(p: Prim, v: Value)
    requires HasPrimType(p, v)
    ensures OfBits(p, ToBits(p, v)) == v
  {
  }

  /** An aligned little-endian integer of w bytes. */
  function EncUInt(bits: nat, w: nat, pos: nat): (r: seq<byte>)
    requires pos >= HEADER_SIZE && IsWidth(w)
  {
    Zeros(Pad(pos, w)) + LittleEndian(bits, w)
  }

  /** The value of the uint32_t length field of a string; it wraps. */
  function StringPrefix(len: nat): nat { (len % TWO32 + 1) % TWO32 }

  function EncStr(s: seq<byte>, pos: nat): seq<byte>
    requires pos >= HEADER_SIZE
  {
    EncUInt(StringPrefix(|s|), 4, pos) + s + [0]
  }

  /** The bytes that Write(w, v) appends when the buffer holds pos bytes. */
  function Enc(s: Schema, v: Value, pos: nat): seq<byte>
    requires HasType(s, v) && pos >= HEADER_SIZE
    decreases v, 1
  {
    match s
    case Prim(p) => EncUInt(ToBits(p, v), Width(p), pos)
    case Str => EncStr(v.s, pos)
    case Seq(e) =>
      var h := EncUInt(|v.vs| % TWO32, 4, pos);
      h + EncElems(e, v.vs, pos + |h|)
    case Arr(e, _) => EncElems(e, v.vs, pos)
    case Struct(fs) => EncFields(fs, v.vs, pos)
  }

  function EncElems(e: Schema, vs: seq<Value>, pos: nat): seq<byte>
    requires ElemsHaveType(e, vs) && pos >= HEADER_SIZE
    decreases vs, 0
  {
    if vs == [] then []
    else
      var h := Enc(e, vs[0], pos);
      h + EncElems(e, vs[1..], pos + |h|)
  }

  function EncFields(fs: seq<Schema>, vs: seq<Value>, pos: nat): seq<byte>
    requires FieldsHaveType(fs, vs) && pos >= HEADER_SIZE
    decreases vs, 0
  {
    if vs == [] then []
    else
      var h := Enc(fs[0], vs[0], pos);
      h + EncFields(fs[1..], vs[1..], pos + |h|)
  }

  function Serialize(s: Schema, v: Value): seq<byte>
    requires HasType(s, v)
  {
    LE_HEADER + Enc(s, v, HEADER_SIZE)
  }

  // ---- Reading ----

  /** Align, EnsureAvail and the byte loop; the cursor after reading comes second.
      Align itself may move past the end: only EnsureAvail notices. */
  function DecUInt(w: nat, data: seq<byte>, pos: nat): (r: Result<(nat, nat)>)
    requires pos >= HEADER_SIZE && IsWidth(w)
    ensures r.Ok? ==> r.value.0 < Modulus(w) && pos + w <= r.value.1 <= |data|
  {
    ModulusIs(w);
    var p := pos + Pad(pos, w);
    if p + w > |data| then Err(Underrun)
    else Ok((FromLittleEndian(data[p..p + w]), p + w))
  }

  function DecStr(data: seq<byte>, pos: nat): (r: Result<(Value, nat)>)
    requires pos >= HEADER_SIZE
    ensures r.Ok? ==> pos <= r.value.1 <= |data|
  {
    var (n, p) :- DecUInt(4, data, pos);
    if n == 0 then Ok((VStr([]), p))
    else if p + n > |data| then Err(Underrun)
    else Ok((VStr(data[p..p + n - 1]), p + n))
  }

  /** What Read(r, v) yields with the cursor at pos, and where it leaves the cursor. */
  function Dec(s: Schema, data: seq<byte>, pos: nat): (r: Result<(Value, nat)>)
    requires pos >= HEADER_SIZE
    ensures r.Ok? ==> pos <= r.value.1
    decreases s, 0
  {
    match s
    case Prim(p) =>
      var (bits, q) :- DecUInt(Width(p), data, pos);
      Ok((OfBits(p, bits), q))
    case Str => DecStr(data, pos)
    case Seq(e) =>
      var (n, q) :- DecUInt(4, data, pos);
      var (vs, q') :- DecElems(e, n, data, q);
      Ok((VList(vs), q'))
    case Arr(e, n) =>
      var (vs, q) :- DecElems(e, n, data, pos);
      Ok((VList(vs), q))
    case Struct(fs) =>
      var (vs, q) :- DecFields(fs, data, pos);
      Ok((VList(vs), q))
  }

  function DecElems(e: Schema, n: nat, data: seq<byte>, pos: nat): (r: Result<(seq<Value>, nat)>)
    requires pos >= HEADER_SIZE
    ensures r.Ok? ==> pos <= r.value.1 && |r.value.0| == n
    decreases e, n + 1
  {
    if n == 0 then Ok(([], pos))
    else
      var (x, q) :- Dec(e, data, pos);
      var (xs, q') :- DecElems(e, n - 1, data, q);
      Ok(([x] + xs, q'))
  }

  function DecFields(fs: seq<Schema>, data: seq<byte>, pos: nat): (r: Result<(seq<Value>, nat)>)
    requires pos >= HEADER_SIZE
    ensures r.Ok? ==> pos <= r.value.1 && |r.value.0| == |fs|
    decreases fs, 0
  {
    if fs == [] then Ok(([], pos))
    else
      var (x, q) :- Dec(fs[0], data, pos);
      var (xs, q') :- DecFields(fs[1..], data, q);
      Ok(([x] + xs, q'))
  }

  function Deserialize(s: Schema, data: seq<byte>): Result<Value> {
    if |data| < HEADER_SIZE then Err(ShortHeader)
    else
      var (v, _) :- Dec(s, data, HEADER_SIZE);
      Ok(v)
  }
}
