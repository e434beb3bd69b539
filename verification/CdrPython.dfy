/** The Python side of the wire format: _CdrWriter and message writers of
    python/talosos/runtime.py and the bulk reads of python/talosos/cdr.py, shown to
    emit and accept the bytes of the C++ overloads. */
module CdrPython {
  import opened Bytes
  import opened Cdr
  import CdrLaws
  import CdrCodec
  import opened CdrFields

  /** v & (2^(8w) - 1) on an unbounded integer. */
  function Mask(v: int, w: nat): (m: nat)
    requires IsWidth(w)
    ensures m < Modulus(w)
  {
    if w == 1 then v % 0x100 else if w == 2 then v % 0x1_0000 else if w == 4 then v % TWO32
    else v % 0x1_0000_0000_0000_0000
  }

  /** static_cast<intN_t> of a masked integer gives the integer back when it fits:
      a Duration's nanosec sent through the unsigned path reads as its int32. */
  lemma MaskedSigned(p: Prim, n: int)
    requires IsSigned(p) && HasPrimType(p, VInt(n))
    ensures Mask(n, Width(p)) == ToBits(p, VInt(n)) && OfBits(p, Mask(n, Width(p))) == VInt(n)
  {
    OfToBits(p, VInt(n));
  }

  // ---- Python values and what the writer makes of them ----

  /** The value of a Python field; a float is its 64-bit pattern. */
  datatype PyValue =
    | PyBool(b: bool)
    | PyInt(i: int)
    | PyFloat(bits: nat)
    | PyStr(s: seq<byte>)
    | PyList(vs: seq<PyValue>)

  type Bits32 = n: nat | n < TWO32

  /** struct.pack("<f"): the 32-bit pattern a float is rounded to, or OverflowError. */
  type Narrow = nat -> Option<Bits32>

  datatype Option<+T> = None | Some(value: T)

  predicate PrimShaped(p: Prim, x: PyValue) {
    match p
    case Bool => x.PyBool?
    case F32 => x.PyFloat?
    case F64 => x.PyFloat? && x.bits < Modulus(8)
    case _ => x.PyInt?
  }

  /** The methods that hand the number to struct.pack as it is, which raises out of
      range; the other integer methods mask. */
  predicate Raises(p: Prim) { p == I16 || p == I32 || p == I64 }

  predicate InRange(p: Prim, i: int) { -(Modulus(Width(p)) / 2) <= i < Modulus(Width(p)) / 2 }

  /** The C++ value whose bytes go out, or None when the method raises. */
  function EmittedPrim(p: Prim, x: PyValue, narrow: Narrow): (r: Option<Value>)
    requires PrimShaped(p, x)
    ensures r.Some? ==> HasPrimType(p, r.value)
  {
    if p == Bool then Some(VBool(x.b))
    else if p == F64 then Some(VBits(x.bits))
    else if p == F32 then (match narrow(x.bits) case None => None case Some(n) => Some(VBits(n)))
    else if !Raises(p) then Some(OfBits(p, Mask(x.i, Width(p))))
    else if InRange(p, x.i) then Some(VInt(x.i))
    else None
  }

  /** A number the C++ field can hold goes out as itself, and every number goes out or
      raises just as it fits. */
  lemma EmittedExactly(p: Prim, i: int, narrow: Narrow)
    requires p != Bool && p != F32 && p != F64
    ensures HasPrimType(p, VInt(i)) ==> EmittedPrim(p, PyInt(i), narrow) == Some(VInt(i))
    ensures EmittedPrim(p, PyInt(i), narrow).None? <==> (p == I16 || p == I32 || p == I64) && !HasPrimType(p, VInt(i))
  {
    if IsSigned(p) && HasPrimType(p, VInt(i)) {
      MaskedSigned(p, i);
    }
  }

  /** Whatever goes out differs from the number by a multiple of the field's modulus. */
  lemma EmittedCongruent(p: Prim, i: int, narrow: Narrow)
    requires p != Bool && p != F32 && p != F64
    ensures var r := EmittedPrim(p, PyInt(i), narrow);
            r.Some? ==> r.value.VInt? && (r.value.i - i) % Modulus(Width(p)) == 0
  {
    Congruent(p, i);
    hide Mask, OfBits;
    assert OfBits(p, Mask(i, Width(p))).VInt?;
  }

  /** Masking takes away a multiple of the modulus. */
  lemma Congruent(p: Prim, i: int)
    requires p != Bool && p != F32 && p != F64
    ensures (OfBits(p, Mask(i, Width(p))).i - i) % Modulus(Width(p)) == 0
  {
    MaskIs(i, Width(p));
    hide Mask, Modulus, Width;
    RemainderGap(i, Modulus(Width(p)));
  }

  lemma MaskIs(i: int, w: nat)
    requires IsWidth(w)
    ensures Modulus(w) > 0 && Mask(i, w) == i % Modulus(w)
  {
  }

  lemma RemainderGap(i: int, m: nat)
    requires m > 0
    ensures (i % m - i) % m == 0 && (i % m - m - i) % m == 0
  {
    var q := -(i / m);
    assert i % m - i == m * q;
    Multiple(m, q);
    Multiple(m, q - 1);
    assert m * (q - 1) == m * q - m;
  }

  lemma Multiple(m: nat, q: int)
    requires m > 0
    ensures (m * q) % m == 0
  {
    DivOfSum(m, q, 0);
  }

  /** Booleans and floats go out as they are, a 32-bit float once rounded, if it can be. */
  lemma EmittedAsIs(b: bool, bits: nat, narrow: Narrow)
    ensures EmittedPrim(Bool, PyBool(b), narrow) == Some(VBool(b))
    ensures bits < Modulus(8) ==> EmittedPrim(F64, PyFloat(bits), narrow) == Some(VBits(bits))
    ensures narrow(bits).Some? ==> EmittedPrim(F32, PyFloat(bits), narrow) == Some(VBits(narrow(bits).value))
    ensures narrow(bits).None? <==> EmittedPrim(F32, PyFloat(bits), narrow).None?
  {
  }

  lemma MaskBits(p: Prim, b: nat)
    requires p != Bool && p != F32 && p != F64 && b < Modulus(Width(p))
    ensures ToBits(p, OfBits(p, b)) == b
  {
  }

  lemma RawBits(p: Prim, b: bool, n: nat)
    requires p == F32 || p == F64 ==> n < Modulus(Width(p))
    ensures p == Bool ==> ToBits(p, VBool(b)) == if b then 1 else 0
    ensures p == F32 || p == F64 ==> ToBits(p, VBits(n)) == n
  {
  }

  lemma PackedBits(p: Prim, i: int)
    requires p != Bool && p != F32 && p != F64 && (Raises(p) ==> InRange(p, i))
    ensures ToBits(p, if Raises(p) then VInt(i) else OfBits(p, Mask(i, Width(p)))) == Mask(i, Width(p))
  {
    if Raises(p) {
      MaskedSigned(p, i);
    } else {
      MaskBits(p, Mask(i, Width(p)));
    }
  }

  predicate Shaped(s: Schema, x: PyValue)
    decreases x, 1
  {
    match s
    case Prim(p) => PrimShaped(p, x)
    case Str => x.PyStr?
    case Seq(e) => x.PyList? && ElemsShaped(e, x.vs)
    case Arr(e, n) => x.PyList? && |x.vs| == n && ElemsShaped(e, x.vs)
    case Struct(fs) => x.PyList? && FieldsShaped(fs, x.vs)
  }

  predicate ElemsShaped(e: Schema, xs: seq<PyValue>)
    decreases xs, 0
  {
    xs != [] ==> Shaped(e, xs[0]) && ElemsShaped(e, xs[1..])
  }

  predicate FieldsShaped(fs: seq<Schema>, xs: seq<PyValue>)
    decreases xs, 0
  {
    |fs| == |xs| && (xs != [] ==> Shaped(fs[0], xs[0]) && FieldsShaped(fs[1..], xs[1..]))
  }

  /** The C++ message a Python message stands for, or None when writing it raises. */
  function Emitted(s: Schema, x: PyValue, narrow: Narrow): (r: Option<Value>)
    requires Shaped(s, x)
    ensures r.Some? ==> HasType(s, r.value)
    decreases x, 1
  {
    match s
    case Prim(p) => EmittedPrim(p, x, narrow)
    case Str => Some(VStr(x.s))
    case Seq(e) => AsList(EmittedElems(e, x.vs, narrow))
    case Arr(e, _) => AsList(EmittedElems(e, x.vs, narrow))
    case Struct(fs) => AsList(EmittedFields(fs, x.vs, narrow))
  }

  function AsList(r: Option<seq<Value>>): Option<Value> {
    match r
    case None => None
    case Some(vs) => Some(VList(vs))
  }

  function Cons(r: Option<Value>, rest: Option<seq<Value>>): (t: Option<seq<Value>>)
    ensures t.Some? <==> r.Some? && rest.Some?
    ensures t.Some? ==> t.value == [r.value] + rest.value
  {
    if r.Some? && rest.Some? then Some([r.value] + rest.value) else None
  }

  function EmittedElems(e: Schema, xs: seq<PyValue>, narrow: Narrow): (r: Option<seq<Value>>)
    requires ElemsShaped(e, xs)
    ensures r.Some? ==> |r.value| == |xs| && ElemsHaveType(e, r.value)
    decreases xs, 0
  {
    if xs == [] then Some([]) else Cons(Emitted(e, xs[0], narrow), EmittedElems(e, xs[1..], narrow))
  }

  function EmittedFields(fs: seq<Schema>, xs: seq<PyValue>, narrow: Narrow): (r: Option<seq<Value>>)
    requires FieldsShaped(fs, xs)
    ensures r.Some? ==> FieldsHaveType(fs, r.value)
    decreases xs, 0
  {
    if xs == [] then Some([]) else Cons(Emitted(fs[0], xs[0], narrow), EmittedFields(fs[1..], xs[1..], narrow))
  }

  // ---- Messages: Python integers are unbounded, so a message may not fit the wire ----

  datatype Time = Time(sec: int, nanosec: int)
  datatype Duration = Duration(sec: int, nanosec: int)
  datatype Header = Header(stamp: Time, frameId: seq<byte>)
  datatype PointField = PointField(name: seq<byte>, offset: int, datatype_: int, count: int)
  datatype PointCloud2 = PointCloud2(
    header: Header, height: int, width: int, fields: seq<PointField>, isBigendian: bool,
    pointStep: int, rowStep: int, data: seq<byte>, isDense: bool)

  const TIME := Struct([Prim(I32), Prim(U32)])
  const DURATION := Struct([Prim(I32), Prim(I32)])
  const HEADER := Struct([TIME, Str])
  const POINT_FIELD := Struct([Str, Prim(U32), Prim(U8), Prim(U32)])
  const POINT_CLOUD2 := Struct([
    HEADER, Prim(U32), Prim(U32), Seq(POINT_FIELD), Prim(Bool),
    Prim(U32), Prim(U32), Seq(Prim(U8)), Prim(Bool)])

  predicate InI32(v: int) { -0x8000_0000 <= v < 0x8000_0000 }

  function U32Value(v: int): Value { VInt(Mask(v, 4)) }

  /** The C++ message a Python message stands for: unsigned fields keep their low
      bits, signed ones must be in range. */
  function TimeValue(t: Time): Value { VList([VInt(t.sec), U32Value(t.nanosec)]) }
  function DurationValue(d: Duration): Value { VList([VInt(d.sec), VInt(d.nanosec)]) }
  function HeaderValue(h: Header): Value { VList([TimeValue(h.stamp), VStr(h.frameId)]) }
  function PointFieldValue(f: PointField): Value {
    VList([VStr(f.name), U32Value(f.offset), VInt(Mask(f.datatype_, 1)), U32Value(f.count)])
  }
  function PointFieldValues(fs: seq<PointField>): (vs: seq<Value>)
    ensures |vs| == |fs|
  {
    if fs == [] then [] else [PointFieldValue(fs[0])] + PointFieldValues(fs[1..])
  }
  function PointCloud2Value(m: PointCloud2): Value {
    VList([HeaderValue(m.header), U32Value(m.height), U32Value(m.width), VList(PointFieldValues(m.fields)),
           VBool(m.isBigendian), U32Value(m.pointStep), U32Value(m.rowStep),
           VList(CdrLaws.ByteValues(m.data)), VBool(m.isDense)])
  }

  // ---- ... as Python values ----

  function HeaderPy(h: Header): PyValue {
    PyList([PyList([PyInt(h.stamp.sec), PyInt(h.stamp.nanosec)]), PyStr(h.frameId)])
  }

  function PointFieldPy(f: PointField): PyValue {
    PyList([PyStr(f.name), PyInt(f.offset), PyInt(f.datatype_), PyInt(f.count)])
  }

  function PointFieldsPy(fs: seq<PointField>): seq<PyValue> {
    if fs == [] then [] else [PointFieldPy(fs[0])] + PointFieldsPy(fs[1..])
  }

  function BytesPy(bs: seq<byte>): seq<PyValue> {
    if bs == [] then [] else [PyInt(bs[0])] + BytesPy(bs[1..])
  }

  function PointCloud2Py(m: PointCloud2): PyValue {
    PyList([HeaderPy(m.header), PyInt(m.height), PyInt(m.width), PyList(PointFieldsPy(m.fields)),
            PyBool(m.isBigendian), PyInt(m.pointStep), PyInt(m.rowStep),
            PyList(BytesPy(m.data)), PyBool(m.isDense)])
  }

  /** x goes out as v. */
  ghost predicate GoesOut(s: Schema, x: PyValue, v: Value, narrow: Narrow) {
    Shaped(s, x) && Emitted(s, x, narrow) == Some(v)
  }

  lemma {:induction false} FieldsGoOut(fs: seq<Schema>, xs: seq<PyValue>, vs: seq<Value>, narrow: Narrow)
    requires |fs| == |xs| == |vs| && forall k | 0 <= k < |fs| :: GoesOut(fs[k], xs[k], vs[k], narrow)
    ensures GoesOut(Struct(fs), PyList(xs), VList(vs), narrow)
  {
    hide Shaped, Emitted;
    FieldsGo(fs, xs, vs, narrow);
    StructGoes(fs, xs, vs, narrow);
  }

  lemma StructGoes(fs: seq<Schema>, xs: seq<PyValue>, vs: seq<Value>, narrow: Narrow)
    requires FieldsShaped(fs, xs) && EmittedFields(fs, xs, narrow) == Some(vs)
    ensures GoesOut(Struct(fs), PyList(xs), VList(vs), narrow)
  {
  }

  lemma {:induction false} FieldsGo(fs: seq<Schema>, xs: seq<PyValue>, vs: seq<Value>, narrow: Narrow)
    requires |fs| == |xs| == |vs| && forall k | 0 <= k < |fs| :: GoesOut(fs[k], xs[k], vs[k], narrow)
    ensures FieldsShaped(fs, xs) && EmittedFields(fs, xs, narrow) == Some(vs)
  {
    if fs != [] {
      hide Shaped, Emitted;
      assert GoesOut(fs[0], xs[0], vs[0], narrow);
      FieldsGo(fs[1..], xs[1..], vs[1..], narrow);
      assert vs == [vs[0]] + vs[1..];
    }
  }

  lemma NumberGoesOut(p: Prim, i: int, narrow: Narrow)
    requires p == U8 || p == U32 || (p == I32 && InI32(i))
    ensures GoesOut(Prim(p), PyInt(i), if p == I32 then VInt(i) else VInt(Mask(i, Width(p))), narrow)
  {
  }

  lemma ByteGoesOut(b: byte, narrow: Narrow)
    ensures GoesOut(Prim(U8), PyInt(b), VInt(b), narrow)
  {
    NumberGoesOut(U8, b, narrow);
  }

  lemma BoolGoesOut(b: bool, narrow: Narrow)
    ensures GoesOut(Prim(Bool), PyBool(b), VBool(b), narrow)
  {
  }

  lemma HeaderGoesOut(h: Header, narrow: Narrow)
    requires InI32(h.stamp.sec)
    ensures GoesOut(HEADER, HeaderPy(h), HeaderValue(h), narrow)
  {
    NumberGoesOut(I32, h.stamp.sec, narrow);
    NumberGoesOut(U32, h.stamp.nanosec, narrow);
    FieldsGoOut(TIME.fields, [PyInt(h.stamp.sec), PyInt(h.stamp.nanosec)], TimeValue(h.stamp).vs, narrow);
    assert GoesOut(Str, PyStr(h.frameId), VStr(h.frameId), narrow);
    FieldsGoOut(HEADER.fields, HeaderPy(h).vs, HeaderValue(h).vs, narrow);
  }

  lemma PointFieldGoesOut(f: PointField, narrow: Narrow)
    ensures GoesOut(POINT_FIELD, PointFieldPy(f), PointFieldValue(f), narrow)
  {
    assert GoesOut(Str, PyStr(f.name), VStr(f.name), narrow);
    NumberGoesOut(U32, f.offset, narrow);
    NumberGoesOut(U8, f.datatype_, narrow);
    NumberGoesOut(U32, f.count, narrow);
    FieldsGoOut(POINT_FIELD.fields, PointFieldPy(f).vs, PointFieldValue(f).vs, narrow);
  }

  lemma {:induction false} PointFieldsGo(fs: seq<PointField>, narrow: Narrow)
    ensures ElemsShaped(POINT_FIELD, PointFieldsPy(fs))
    ensures EmittedElems(POINT_FIELD, PointFieldsPy(fs), narrow) == Some(PointFieldValues(fs))
  {
    if fs != [] {
      PointFieldGoesOut(fs[0], narrow);
      PointFieldsGo(fs[1..], narrow);
      hide Shaped, Emitted;
      assert PointFieldsPy(fs)[1..] == PointFieldsPy(fs[1..]);
    }
  }

  lemma {:induction false} BytesGo(bs: seq<byte>, narrow: Narrow)
    ensures ElemsShaped(Prim(U8), BytesPy(bs))
    ensures EmittedElems(Prim(U8), BytesPy(bs), narrow) == Some(CdrLaws.ByteValues(bs))
  {
    hide Shaped, Emitted, EmittedPrim, Mask;
    if bs != [] {
      ByteGoesOut(bs[0], narrow);
      BytesGo(bs[1..], narrow);
      assert BytesPy(bs)[1..] == BytesPy(bs[1..]);
    }
  }

  /** A point cloud is one of the messages the generic writer covers. */
  lemma PointCloud2GoesOut(m: PointCloud2, narrow: Narrow)
    requires InI32(m.header.stamp.sec)
    ensures GoesOut(POINT_CLOUD2, PointCloud2Py(m), PointCloud2Value(m), narrow)
  {
    hide Shaped, Emitted, EmittedElems, ElemsShaped;
    HeaderGoesOut(m.header, narrow);
    PointFieldsGo(m.fields, narrow);
    BytesGo(m.data, narrow);
    NumberGoesOut(U32, m.height, narrow);
    NumberGoesOut(U32, m.width, narrow);
    NumberGoesOut(U32, m.pointStep, narrow);
    NumberGoesOut(U32, m.rowStep, narrow);
    ListsGo(PointFieldsPy(m.fields), PointFieldValues(m.fields), BytesPy(m.data), CdrLaws.ByteValues(m.data), narrow);
    BoolGoesOut(m.isBigendian, narrow);
    BoolGoesOut(m.isDense, narrow);
    hide GoesOut;
    FieldsGoOut(POINT_CLOUD2.fields, PointCloud2Py(m).vs, PointCloud2Value(m).vs, narrow);
  }

  lemma ListsGo(fs: seq<PyValue>, fvs: seq<Value>, bs: seq<PyValue>, bvs: seq<Value>, narrow: Narrow)
    requires ElemsShaped(POINT_FIELD, fs) && EmittedElems(POINT_FIELD, fs, narrow) == Some(fvs)
    requires ElemsShaped(Prim(U8), bs) && EmittedElems(Prim(U8), bs, narrow) == Some(bvs)
    ensures GoesOut(Seq(POINT_FIELD), PyList(fs), VList(fvs), narrow)
    ensures GoesOut(Seq(Prim(U8)), PyList(bs), VList(bvs), narrow)
  {
  }

  lemma {:induction false} PointFieldsTyped(fs: seq<PointField>)
    ensures ElemsHaveType(POINT_FIELD, PointFieldValues(fs))
  {
    if fs != [] {
      PointFieldsTyped(fs[1..]);
      PointFieldTyped(fs[0]);
    }
  }

  /** The list of fields after its length, before the loop over them. */
  lemma ListStarts(fields: seq<PointField>, buf: seq<byte>)
    requires |buf| >= HEADER_SIZE
    ensures var vs, buf' := PointFieldValues(fields), buf + EncUInt(Mask(|fields|, 4), 4, |buf|);
            && |vs| == |fields| && HasType(Seq(POINT_FIELD), VList(vs))
            && vs[0..] == vs && ElemsHaveType(POINT_FIELD, vs[0..])
            && buf' + EncElems(POINT_FIELD, vs[0..], |buf'|) == buf + Enc(Seq(POINT_FIELD), VList(vs), |buf|)
  {
    hide PointFieldValue, EncUInt, EncElems, ElemsHaveType, Enc;
    PointFieldsTyped(fields);
    var vs := PointFieldValues(fields);
    CdrLaws.EncSeqIs(POINT_FIELD, vs, |buf|);
    var h := EncUInt(Mask(|fields|, 4), 4, |buf|);
    var body := EncElems(POINT_FIELD, vs, |buf| + |h|);
    assert buf + (h + body) == (buf + h) + body;
    assert HasType(Seq(POINT_FIELD), VList(vs)) && vs[0..] == vs;
  }

  lemma ListEnds(vs: seq<Value>, buf: seq<byte>)
    requires |buf| >= HEADER_SIZE
    ensures ElemsHaveType(POINT_FIELD, vs[|vs|..]) && buf + EncElems(POINT_FIELD, vs[|vs|..], |buf|) == buf
  {
    assert vs[|vs|..] == [];
  }

  lemma FieldsCons(s: Schema, v: Value, fs: seq<Schema>, vs: seq<Value>)
    requires HasType(s, v) && FieldsHaveType(fs, vs)
    ensures FieldsHaveType([s] + fs, [v] + vs)
  {
    assert ([s] + fs)[1..] == fs && ([v] + vs)[1..] == vs;
  }

  lemma U32Typed(v: int)
    ensures HasType(Prim(U32), U32Value(v)) && ToBits(U32, U32Value(v)) == Mask(v, 4)
  {
  }

  lemma PointFieldTyped(f: PointField)
    ensures HasType(POINT_FIELD, PointFieldValue(f))
  {
    U32Typed(f.count);
    U32Typed(f.offset);
    FieldsCons(Prim(U32), U32Value(f.count), [], []);
    FieldsCons(Prim(U8), VInt(Mask(f.datatype_, 1)), [Prim(U32)], [U32Value(f.count)]);
    FieldsCons(Prim(U32), U32Value(f.offset), [Prim(U8), Prim(U32)], [VInt(Mask(f.datatype_, 1)), U32Value(f.count)]);
    FieldsCons(Str, VStr(f.name), [Prim(U32), Prim(U8), Prim(U32)],
               [U32Value(f.offset), VInt(Mask(f.datatype_, 1)), U32Value(f.count)]);
  }

  lemma TimeTyped(t: Time)
    requires InI32(t.sec)
    ensures HasType(TIME, TimeValue(t))
  {
    U32Typed(t.nanosec);
    FieldsCons(Prim(U32), U32Value(t.nanosec), [], []);
    FieldsCons(Prim(I32), VInt(t.sec), [Prim(U32)], [U32Value(t.nanosec)]);
  }

  lemma HeaderTyped(h: Header)
    requires InI32(h.stamp.sec)
    ensures HasType(HEADER, HeaderValue(h))
  {
    TimeTyped(h.stamp);
    FieldsCons(Str, VStr(h.frameId), [], []);
    FieldsCons(TIME, TimeValue(h.stamp), [Str], [VStr(h.frameId)]);
  }

  lemma PointCloud2Typed(m: PointCloud2)
    requires InI32(m.header.stamp.sec)
    ensures HasType(POINT_CLOUD2, PointCloud2Value(m))
  {
    CdrLaws.BytesAsElems(m.data, HEADER_SIZE);
    PointFieldsTyped(m.fields);
    HeaderTyped(m.header);
    var fs, vs := POINT_CLOUD2.fields, PointCloud2Value(m).vs;
    U32Typed(m.height); U32Typed(m.width); U32Typed(m.pointStep); U32Typed(m.rowStep);
    AllTyped(fs, vs);
  }

  lemma {:induction false} AllTyped(fs: seq<Schema>, vs: seq<Value>)
    requires |fs| == |vs| && forall k | 0 <= k < |fs| :: HasType(fs[k], vs[k])
    ensures FieldsHaveType(fs, vs)
  {
    if fs != [] {
      AllTyped(fs[1..], vs[1..]);
    }
  }

  // ---- The writer ----

  class CdrWriter {
    var buf: seq<byte>

    ghost predicate Valid()
      reads this
    {
      |buf| >= HEADER_SIZE
    }

    constructor ()
      ensures Valid() && buf == LE_HEADER == [0x00, 0x01, 0x00, 0x00]
    {
      buf := LE_HEADER;
    }

    method Align(n: nat)
      requires Valid() && IsWidth(n)
      modifies this
      ensures buf == old(buf) + Zeros(Pad(|old(buf)|, n))
      ensures old(buf) <= buf && |buf| < |old(buf)| + n && (|buf| - HEADER_SIZE) % n == 0
      ensures forall i | |old(buf)| <= i < |buf| :: buf[i] == 0
    {
      var body := |buf| - HEADER_SIZE;
      var pad := (n - body % n) % n;
      CdrLaws.PadIs(|buf|, n);
      ZerosAre(pad);
      buf := buf + Zeros(pad);
    }

    method U8(v: int)
      requires Valid()
      modifies this
      ensures buf == old(buf) + EncUInt(Mask(v, 1), 1, |old(buf)|)
    {
      CdrLaws.ByteEnc(v % 256, |buf|);
      buf := buf + [v % 256];
    }

    method Bool(v: bool)
      requires Valid()
      modifies this
      ensures buf == old(buf) + Enc(Prim(Cdr.Bool), VBool(v), |old(buf)|)
    {
      U8(if v then 1 else 0);
    }

    method U32(v: int)
      requires Valid()
      modifies this
      ensures buf == old(buf) + EncUInt(Mask(v, 4), 4, |old(buf)|)
      ensures buf == old(buf) + Enc(Prim(Cdr.U32), U32Value(v), |old(buf)|)
    {
      Align(4);
      buf := buf + LittleEndian(Mask(v, 4), 4);
    }

    /** struct.pack("<i", v) raises out of range, after the padding went in. */
    method I32(v: int) returns (ok: bool)
      requires Valid()
      modifies this
      ensures Valid() && (ok <==> InI32(v))
      ensures ok ==> HasType(Prim(Cdr.I32), VInt(v)) && buf == old(buf) + Enc(Prim(Cdr.I32), VInt(v), |old(buf)|)
      ensures !ok ==> buf == old(buf) + Zeros(Pad(|old(buf)|, 4))
    {
      Align(4);
      if !InI32(v) {
        return false;
      }
      MaskedSigned(Cdr.I32, v);
      buf := buf + LittleEndian(Mask(v, 4), 4);
      return true;
    }

    method String(s: seq<byte>)
      requires Valid()
      modifies this
      ensures buf == old(buf) + Enc(Str, VStr(s), |old(buf)|)
    {
      hide EncUInt, Enc;
      CdrLaws.EncStrIs(s, |buf|);
      U32(|s| + 1);
      assert Mask(|s| + 1, 4) == StringPrefix(|s|);
      buf := buf + s;
      buf := buf + [0];
    }

    /** The bulk path: a length and the raw bytes, in place of an element loop. */
    method Bytes(data: seq<byte>)
      requires Valid()
      modifies this
      ensures HasType(Seq(Prim(Cdr.U8)), VList(CdrLaws.ByteValues(data)))
      ensures buf == old(buf) + Enc(Seq(Prim(Cdr.U8)), VList(CdrLaws.ByteValues(data)), |old(buf)|)
    {
      hide EncUInt, EncElems, CdrLaws.ByteValues, ElemsHaveType;
      var n := |data|;
      ghost var h, vs := EncUInt(n % TWO32, 4, |buf|), CdrLaws.ByteValues(data);
      CdrLaws.BytesAsElems(data, |buf| + |h|);
      CdrLaws.EncSeqIs(Prim(Cdr.U8), vs, |buf|);
      U32(n);
      buf := buf + data;
    }

    /** u8 to f64: align to the width, then the bytes of the value, or raise. */
    method WritePrim(p: Prim, x: PyValue, narrow: Narrow) returns (ok: bool)
      requires Valid() && PrimShaped(p, x)
      modifies this
      ensures Valid() && (ok <==> EmittedPrim(p, x, narrow).Some?)
      ensures ok ==> buf == old(buf) + Enc(Prim(p), EmittedPrim(p, x, narrow).value, |old(buf)|)
      ensures !ok ==> buf == old(buf) + Zeros(Pad(|old(buf)|, Width(p)))
    {
      hide Pad, ToBits, OfBits, Mask, LittleEndian, Zeros, InRange;
      Align(Width(p));
      var bits := 0;
      if p == Cdr.Bool {
        bits := if x.b then 1 else 0;
        RawBits(p, x.b, 0);
      } else if p == F64 {
        bits := x.bits;
        RawBits(p, false, bits);
      } else if p == F32 {
        var n := narrow(x.bits);
        if n == None {
          return false;
        }
        bits := n.value;
        RawBits(p, false, bits);
      } else {
        if Raises(p) && !InRange(p, x.i) {
          return false;
        }
        bits := Mask(x.i, Width(p));
        PackedBits(p, x.i);
      }
      buf := buf + LittleEndian(bits, Width(p));
      return true;
    }

    /** The message writers: every field or element through the method of its type. */
    method Write(s: Schema, x: PyValue, narrow: Narrow) returns (ok: bool)
      requires Valid() && Shaped(s, x)
      modifies this
      ensures Valid() && (ok <==> Emitted(s, x, narrow).Some?)
      ensures ok ==> buf == old(buf) + Enc(s, Emitted(s, x, narrow).value, |old(buf)|)
      decreases x, 1
    {
      hide EncUInt, EncElems, EncFields, EncStr, EmittedPrim, EmittedElems, EmittedFields;
      match s {
        case Prim(p) => ok := WritePrim(p, x, narrow);
        case Str =>
          String(x.s);
          ok := true;
        case Seq(e) =>
          U32(|x.vs|);
          ok := WriteElems(e, x.vs, narrow);
        case Arr(e, _) => ok := WriteElems(e, x.vs, narrow);
        case Struct(fs) => ok := WriteFields(fs, x.vs, narrow);
      }
    }

    /** for v in vs: ... */
    method WriteElems(e: Schema, xs: seq<PyValue>, narrow: Narrow) returns (ok: bool)
      requires Valid() && ElemsShaped(e, xs)
      modifies this
      ensures Valid() && (ok <==> EmittedElems(e, xs, narrow).Some?)
      ensures ok ==> buf == old(buf) + EncElems(e, EmittedElems(e, xs, narrow).value, |old(buf)|)
      decreases xs, 0
    {
      hide Enc, Emitted;
      if xs == [] {
        return true;
      }
      ok := Write(e, xs[0], narrow);
      if ok {
        ok := WriteElems(e, xs[1..], narrow);
      }
    }

    /** One statement per field, in order. */
    method WriteFields(fs: seq<Schema>, xs: seq<PyValue>, narrow: Narrow) returns (ok: bool)
      requires Valid() && FieldsShaped(fs, xs)
      modifies this
      ensures Valid() && (ok <==> EmittedFields(fs, xs, narrow).Some?)
      ensures ok ==> buf == old(buf) + EncFields(fs, EmittedFields(fs, xs, narrow).value, |old(buf)|)
      decreases xs, 0
    {
      hide Enc, Emitted;
      if xs == [] {
        return true;
      }
      ok := Write(fs[0], xs[0], narrow);
      if ok {
        ok := WriteFields(fs[1..], xs[1..], narrow);
      }
    }

    method WriteTime(t: Time) returns (ok: bool)
      requires Valid()
      modifies this
      ensures Valid() && (ok <==> InI32(t.sec))
      ensures ok ==> HasType(TIME, TimeValue(t)) && buf == old(buf) + Enc(TIME, TimeValue(t), |old(buf)|)
    {
      ghost var all := buf;
      if InI32(t.sec) {
        TimeTyped(t);
        all := buf + Enc(TIME, TimeValue(t), |buf|);
        Start(buf, TIME.fields, TimeValue(t).vs);
        NextField(buf, TIME.fields, TimeValue(t).vs, 0, all);
      }
      ok := I32(t.sec);
      if ok {
        NextField(buf, TIME.fields, TimeValue(t).vs, 1, all);
        U32(t.nanosec);
      }
    }

    /** The C++ struct carries nanosec as int32_t, the Python writer masks it to an
        unsigned field; the bytes agree for every duration the struct can hold. */
    method WriteDuration(d: Duration) returns (ok: bool)
      requires Valid()
      modifies this
      ensures Valid() && (ok <==> InI32(d.sec))
      ensures ok && InI32(d.nanosec) ==>
                HasType(DURATION, DurationValue(d)) && buf == old(buf) + Enc(DURATION, DurationValue(d), |old(buf)|)
    {
      ghost var all := buf;
      ghost var fits := InI32(d.sec) && InI32(d.nanosec);
      if fits {
        AllTyped(DURATION.fields, DurationValue(d).vs);
        all := buf + Enc(DURATION, DurationValue(d), |buf|);
        Start(buf, DURATION.fields, DurationValue(d).vs);
        NextField(buf, DURATION.fields, DurationValue(d).vs, 0, all);
      }
      ok := I32(d.sec);
      if ok {
        if fits {
          NextField(buf, DURATION.fields, DurationValue(d).vs, 1, all);
          MaskedSigned(Cdr.I32, d.nanosec);
        }
        U32(d.nanosec);
      }
    }

    method WriteHeader(h: Header) returns (ok: bool)
      requires Valid()
      modifies this
      ensures Valid() && (ok <==> InI32(h.stamp.sec))
      ensures ok ==> HasType(HEADER, HeaderValue(h)) && buf == old(buf) + Enc(HEADER, HeaderValue(h), |old(buf)|)
    {
      ghost var all := buf;
      if InI32(h.stamp.sec) {
        HeaderTyped(h);
        all := buf + Enc(HEADER, HeaderValue(h), |buf|);
        Start(buf, HEADER.fields, HeaderValue(h).vs);
        NextField(buf, HEADER.fields, HeaderValue(h).vs, 0, all);
      }
      ok := WriteTime(h.stamp);
      if ok {
        NextField(buf, HEADER.fields, HeaderValue(h).vs, 1, all);
        String(h.frameId);
      }
    }

    method WritePointField(f: PointField)
      requires Valid()
      modifies this
      ensures Valid() && HasType(POINT_FIELD, PointFieldValue(f))
      ensures buf == old(buf) + Enc(POINT_FIELD, PointFieldValue(f), |old(buf)|)
    {
      hide HasType, EncElems, Left;
      PointFieldTyped(f);
      ghost var fs, vs := POINT_FIELD.fields, PointFieldValue(f).vs;
      ghost var all := buf + Enc(POINT_FIELD, PointFieldValue(f), |buf|);
      Start(buf, fs, vs);
      NextField(buf, fs, vs, 0, all);
      String(f.name);
      NextField(buf, fs, vs, 1, all);
      U32(f.offset);
      NextField(buf, fs, vs, 2, all);
      U8(f.datatype_);
      NextField(buf, fs, vs, 3, all);
      U32(f.count);
    }

    /** w.u32(len(fields)) and the loop over them. */
    method WritePointFields(fields: seq<PointField>)
      requires Valid()
      modifies this
      ensures Valid() && HasType(Seq(POINT_FIELD), VList(PointFieldValues(fields)))
      ensures buf == old(buf) + Enc(Seq(POINT_FIELD), VList(PointFieldValues(fields)), |old(buf)|)
    {
      hide Enc, HasType, EncUInt, EncElems, ElemsHaveType, PointFieldValue, PointFieldValues;
      ghost var vs := PointFieldValues(fields);
      ListStarts(fields, buf);
      ghost var all := buf + Enc(Seq(POINT_FIELD), VList(vs), |buf|);
      U32(|fields|);
      for i := 0 to |fields|
        invariant Valid() && ElemsHaveType(POINT_FIELD, vs[i..])
        invariant buf + EncElems(POINT_FIELD, vs[i..], |buf|) == all
      {
        CdrCodec.NextElem(POINT_FIELD, vs, i, buf);
        PointFieldValueAt(fields, i);
        WritePointField(fields[i]);
      }
      ListEnds(vs, buf);
    }

    /** The fields of a point cloud after its header. */
    method WriteCloudBody(m: PointCloud2, ghost fs: seq<Schema>, ghost vs: seq<Value>, ghost all: seq<byte>)
      requires Valid() && |fs| == |vs| == 9 && Left(buf, fs, vs, 1, all)
      requires fs[1] == fs[2] == fs[5] == fs[6] == Prim(Cdr.U32) && fs[3] == Seq(POINT_FIELD)
      requires fs[4] == fs[8] == Prim(Cdr.Bool) && fs[7] == Seq(Prim(Cdr.U8))
      requires vs[1] == U32Value(m.height) && vs[2] == U32Value(m.width)
      requires vs[3] == VList(PointFieldValues(m.fields)) && vs[4] == VBool(m.isBigendian)
      requires vs[5] == U32Value(m.pointStep) && vs[6] == U32Value(m.rowStep)
      requires vs[7] == VList(CdrLaws.ByteValues(m.data)) && vs[8] == VBool(m.isDense)
      modifies this
      ensures Valid() && buf == all
    {
      hide Enc, EncUInt, Mask, Left;
      NextField(buf, fs, vs, 1, all);
      U32(m.height);
      NextField(buf, fs, vs, 2, all);
      U32(m.width);
      NextField(buf, fs, vs, 3, all);
      WritePointFields(m.fields);
      NextField(buf, fs, vs, 4, all);
      Bool(m.isBigendian);
      NextField(buf, fs, vs, 5, all);
      U32(m.pointStep);
      NextField(buf, fs, vs, 6, all);
      U32(m.rowStep);
      NextField(buf, fs, vs, 7, all);
      Bytes(m.data);
      NextField(buf, fs, vs, 8, all);
      Bool(m.isDense);
    }

    method WritePointCloud2(m: PointCloud2) returns (ok: bool)
      requires Valid()
      modifies this
      ensures Valid() && (ok <==> InI32(m.header.stamp.sec))
      ensures ok ==>
                && HasType(POINT_CLOUD2, PointCloud2Value(m))
                && buf == old(buf) + Enc(POINT_CLOUD2, PointCloud2Value(m), |old(buf)|)
    {
      hide Enc, HasType, EncFields, Left;
      ghost var fs, vs := POINT_CLOUD2.fields, PointCloud2Value(m).vs;
      ghost var all := buf;
      if InI32(m.header.stamp.sec) {
        PointCloud2Typed(m);
        all := buf + Enc(POINT_CLOUD2, PointCloud2Value(m), |buf|);
        Start(buf, fs, vs);
        NextField(buf, fs, vs, 0, all);
      }
      ok := WriteHeader(m.header);
      if ok {
        WriteCloudBody(m, fs, vs, all);
      }
    }
  }

  lemma {:induction false} PointFieldValueAt(fs: seq<PointField>, i: nat)
    requires i < |fs|
    ensures PointFieldValues(fs)[i] == PointFieldValue(fs[i])
  {
    if i > 0 {
      PointFieldValueAt(fs[1..], i - 1);
    }
  }

  /** CdrReader.sequence_u8: one bounds check and one slice read what the C++
      element loop reads, and fail when it fails. */
  method SequenceU8(reader: CdrCodec.Reader) returns (r: Result<seq<byte>>)
    requires reader.Valid()
    modifies reader
    ensures reader.Valid()
    ensures CdrCodec.Agrees(Dec(Seq(Prim(U8)), reader.data, old(reader.pos)), r,
                            (v: Value, bs: seq<byte>) => v == VList(CdrLaws.ByteValues(bs)), reader.pos)
  {
    hide DecUInt, DecElems, CdrLaws.ByteValues;
    var n :- reader.ReadUInt(4);
    CdrLaws.ByteElemsRead(n, reader.data, reader.pos);
    if reader.pos + n > |reader.data| {
      return Err(Underrun);
    }
    var out := reader.data[reader.pos..reader.pos + n];
    reader.pos := reader.pos + n;
    return Ok(out);
  }

  /** Any message published from Python is what a C++ subscriber of its schema decodes,
      field by field as emitted, unless a length field wraps. */
  method Publish(s: Schema, x: PyValue, narrow: Narrow) returns (ok: bool, bytes: seq<byte>)
    requires Shaped(s, x)
    ensures ok <==> Emitted(s, x, narrow).Some?
    ensures ok ==>
              && bytes == Cdr.Serialize(s, Emitted(s, x, narrow).value)
              && (Fits(s, Emitted(s, x, narrow).value)
                  <==> Cdr.Deserialize(s, bytes) == Cdr.Ok(Emitted(s, x, narrow).value))
  {
    var w := new CdrWriter();
    ok := w.Write(s, x, narrow);
    bytes := w.buf;
    if ok {
      SerializedDecodes(s, Emitted(s, x, narrow).value);
    }
  }

  lemma SerializedDecodes(s: Schema, v: Value)
    requires HasType(s, v)
    ensures Fits(s, v) <==> Cdr.Deserialize(s, Cdr.Serialize(s, v)) == Cdr.Ok(v)
  {
    var bytes := Cdr.Serialize(s, v);
    assert bytes[HEADER_SIZE..HEADER_SIZE + |Enc(s, v, HEADER_SIZE)|] == Enc(s, v, HEADER_SIZE);
    CdrLaws.AtSlice(bytes, HEADER_SIZE, Enc(s, v, HEADER_SIZE));
    CdrLaws.RoundTripExactly(s, v, bytes, HEADER_SIZE);
  }

  /** A point cloud published from Python is what a C++ subscriber decodes, with
      every unsigned field reduced to its width, unless a length field wraps. */
  method PublishPointCloud2(m: PointCloud2) returns (ok: bool, bytes: seq<byte>)
    ensures ok <==> InI32(m.header.stamp.sec)
    ensures ok ==>
                && HasType(POINT_CLOUD2, PointCloud2Value(m))
                && bytes == Cdr.Serialize(POINT_CLOUD2, PointCloud2Value(m))
                && (Fits(POINT_CLOUD2, PointCloud2Value(m))
                    <==> Cdr.Deserialize(POINT_CLOUD2, bytes) == Cdr.Ok(PointCloud2Value(m)))
  {
    var w := new CdrWriter();
    ok := w.WritePointCloud2(m);
    bytes := w.buf;
    if ok {
      assert bytes[HEADER_SIZE..] == Enc(POINT_CLOUD2, PointCloud2Value(m), HEADER_SIZE);
      CdrLaws.AtSlice(bytes, HEADER_SIZE, Enc(POINT_CLOUD2, PointCloud2Value(m), HEADER_SIZE));
      CdrLaws.RoundTripExactly(POINT_CLOUD2, PointCloud2Value(m), bytes, HEADER_SIZE);
    }
  }
}
