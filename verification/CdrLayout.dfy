/** The wire format byte by byte: which values a number can hold, and what stands where
    in the bytes of a number, a string, a sequence and a struct. */
module CdrLayout {
  import opened Bytes
  import opened Cdr
  import CdrLaws

  /** r is n zero bytes and then rest, and rest begins at a multiple of w from the end
      of the header, as near as can be, when r begins at buffer position pos. */
  predicate Aligned(r: seq<byte>, rest: seq<byte>, w: nat, pos: nat) {
    && |rest| <= |r| < |rest| + w && (pos - HEADER_SIZE + (|r| - |rest|)) % w == 0
    && r[|r| - |rest|..] == rest
    && forall i | 0 <= i < |r| - |rest| :: r[i] == 0
  }

  lemma PaddingIs(rest: seq<byte>, w: nat, pos: nat)
    requires pos >= HEADER_SIZE && IsWidth(w)
    ensures Aligned(Zeros(Pad(pos, w)) + rest, rest, w, pos)
  {
    CdrLaws.PadIs(pos, w);
    ZerosAre(Pad(pos, w));
  }

  /** An integer is w bytes, byte i being bits >> (8 * i), behind as many zeros as put
      them at a multiple of w. */
  lemma UIntLayout(bits: nat, w: nat, pos: nat)
    requires pos >= HEADER_SIZE && IsWidth(w)
    ensures |EncUInt(bits, w, pos)| >= w
    ensures var r := EncUInt(bits, w, pos); var number := r[|r| - w..];
            Aligned(r, number, w, pos) && forall i | 0 <= i < w :: number[i] == bits / Pow256(i) % 256
  {
    var r, le := EncUInt(bits, w, pos), LittleEndian(bits, w);
    PaddingIs(le, w, pos);
    assert r[|r| - w..] == le;
    forall i | 0 <= i < w ensures le[i] == bits / Pow256(i) % 256 {
      LittleEndianAt(bits, w, i);
    }
  }

  /** Bytes a number takes up. */
  function SizeOf(p: Prim): nat {
    if p == Bool || p == U8 || p == I8 then 1
    else if p == U16 || p == I16 then 2
    else if p == U64 || p == I64 || p == F64 then 8
    else 4
  }

  /** What each integer type can hold. */
  lemma IntegerRange(i: int)
    ensures HasType(Prim(U8), VInt(i)) <==> 0 <= i <= 0xFF
    ensures HasType(Prim(I8), VInt(i)) <==> -0x80 <= i <= 0x7F
    ensures HasType(Prim(U16), VInt(i)) <==> 0 <= i <= 0xFFFF
    ensures HasType(Prim(I16), VInt(i)) <==> -0x8000 <= i <= 0x7FFF
    ensures HasType(Prim(U32), VInt(i)) <==> 0 <= i <= 0xFFFF_FFFF
    ensures HasType(Prim(I32), VInt(i)) <==> -0x8000_0000 <= i <= 0x7FFF_FFFF
    ensures HasType(Prim(U64), VInt(i)) <==> 0 <= i <= 0xFFFF_FFFF_FFFF_FFFF
    ensures HasType(Prim(I64), VInt(i)) <==> -0x8000_0000_0000_0000 <= i <= 0x7FFF_FFFF_FFFF_FFFF
    ensures forall p :: HasType(Prim(p), VInt(i)) ==> p != Bool && p != F32 && p != F64
  {
  }

  /** The number behind each value: itself, its two's complement, its bit pattern, or
      1 or 0. */
  lemma BitsAre(p: Prim, v: Value)
    requires HasPrimType(p, v)
    ensures Width(p) == SizeOf(p)
    ensures match v
            case VInt(i) => ToBits(p, v) == if i >= 0 then i else i + Pow256(SizeOf(p))
            case VBits(n) => ToBits(p, v) == n
            case VBool(b) => ToBits(p, v) == if b then 1 else 0
            case _ => true
  {
    ModulusIs(Width(p));
  }

  /** An aligned number reads back, least significant byte first, as itself. */
  lemma NumberIs(n: nat, w: nat, pos: nat)
    requires pos >= HEADER_SIZE && IsWidth(w) && n < Pow256(w)
    ensures var r := EncUInt(n, w, pos);
            |r| >= w && Aligned(r, r[|r| - w..], w, pos) && FromLittleEndian(r[|r| - w..]) == n
  {
    var r, le := EncUInt(n, w, pos), LittleEndian(n, w);
    PaddingIs(le, w, pos);
    assert r[|r| - w..] == le;
    DecodeLittleEndian(n, w);
  }

  /** A number is aligned to its own size and reads as the number behind its value. */
  lemma PrimLayout(p: Prim, v: Value, pos: nat)
    requires HasType(Prim(p), v) && pos >= HEADER_SIZE
    ensures var r := Enc(Prim(p), v, pos);
            && |r| >= SizeOf(p) && Aligned(r, r[|r| - SizeOf(p)..], SizeOf(p), pos)
            && FromLittleEndian(r[|r| - SizeOf(p)..]) == ToBits(p, v)
  {
    ModulusIs(Width(p));
    BitsAre(p, v);
    hide ToBits, Width, HasPrimType, EncUInt, LittleEndian, FromLittleEndian, Pow256, Modulus, Aligned;
    NumberIs(ToBits(p, v), Width(p), pos);
  }

  /** A length field and what follows it. */
  lemma CountLayout(n: nat, rest: seq<byte>, pos: nat)
    requires pos >= HEADER_SIZE && n < TWO32
    ensures |EncUInt(n, 4, pos)| >= 4
    ensures var r := EncUInt(n, 4, pos) + rest; var k := |r| - |rest| - 4;
            && Aligned(r, r[k..], 4, pos) && FromLittleEndian(r[k..k + 4]) == n && r[k + 4..] == rest
  {
    hide Aligned, Pad, Pow256, LittleEndian, FromLittleEndian;
    var h, le := EncUInt(n, 4, pos), LittleEndian(n, 4);
    var z := Zeros(Pad(pos, 4));
    assert h + rest == z + (le + rest) && (h + rest)[|z|..] == le + rest;
    PaddingIs(le + rest, 4, pos);
    assert (h + rest)[|z|..|z| + 4] == le;
    Pow256Values();
    DecodeLittleEndian(n, 4);
  }

  /** A string is its length with the terminator, its bytes, and a zero byte. */
  lemma StrLayout(s: seq<byte>, pos: nat)
    requires pos >= HEADER_SIZE
    ensures var r := Enc(Str, VStr(s), pos); var k := |r| - |s| - 5;
            && k >= 0 && Aligned(r, r[k..], 4, pos) && FromLittleEndian(r[k..k + 4]) == (|s| + 1) % TWO32
            && r[k + 4..] == s + [0]
  {
    hide EncUInt, FromLittleEndian, Aligned;
    CountLayout(StringPrefix(|s|), s + [0], pos);
    Regroup(EncUInt(StringPrefix(|s|), 4, pos), s, [0]);
  }

  /** A sequence is the number of its elements and then the elements as an array. */
  lemma SeqLayout(e: Schema, vs: seq<Value>, pos: nat)
    requires pos >= HEADER_SIZE && HasType(Seq(e), VList(vs))
    ensures var r := Enc(Seq(e), VList(vs), pos);
            exists k :: 0 <= k <= |r| - 4
              && Aligned(r, r[k..], 4, pos) && FromLittleEndian(r[k..k + 4]) == |vs| % TWO32
              && HasType(Arr(e, |vs|), VList(vs)) && r[k + 4..] == Enc(Arr(e, |vs|), VList(vs), pos + k + 4)
  {
    var h := EncUInt(|vs| % TWO32, 4, pos);
    var body := EncElems(e, vs, pos + |h|);
    CountLayout(|vs| % TWO32, body, pos);
    CdrLaws.EncSeqIs(e, vs, pos);
    hide EncUInt, FromLittleEndian, Aligned, EncElems;
    var r, k := h + body, |h| - 4;
    assert Enc(Seq(e), VList(vs), pos) == r && Enc(Arr(e, |vs|), VList(vs), pos + |h|) == body;
    assert k == |r| - |body| - 4 && pos + k + 4 == pos + |h|;
  }

  /** An array is its elements in order, each at its own offset. */
  lemma ArrayLayout(e: Schema, a: seq<Value>, b: seq<Value>, pos: nat)
    requires pos >= HEADER_SIZE && HasType(Arr(e, |a + b|), VList(a + b))
    ensures HasType(Arr(e, |a|), VList(a)) && HasType(Arr(e, |b|), VList(b))
    ensures var first := Enc(Arr(e, |a|), VList(a), pos);
            Enc(Arr(e, |a + b|), VList(a + b), pos) == first + Enc(Arr(e, |b|), VList(b), pos + |first|)
  {
    ElemsJoin(e, a, b, pos);
  }

  lemma OneElement(e: Schema, v: Value, pos: nat)
    requires pos >= HEADER_SIZE && HasType(e, v)
    ensures HasType(Arr(e, 1), VList([v])) && Enc(Arr(e, 1), VList([v]), pos) == Enc(e, v, pos)
  {
    assert [v][0] == v && [v][1..] == [];
    assert ElemsHaveType(e, [v]);
    CdrLaws.EncElemsCons(e, [v], pos);
    NoneAfter(Enc(e, v, pos));
  }

  lemma NoneAfter(h: seq<byte>)
    ensures h + [] == h
  {
  }

  lemma {:induction false} ElemsJoin(e: Schema, a: seq<Value>, b: seq<Value>, pos: nat)
    requires pos >= HEADER_SIZE && ElemsHaveType(e, a + b)
    ensures ElemsHaveType(e, a) && ElemsHaveType(e, b)
    ensures var first := EncElems(e, a, pos);
            EncElems(e, a + b, pos) == first + EncElems(e, b, pos + |first|)
    decreases |a|
  {
    hide Enc, HasType;
    if a == [] {
      assert a + b == b;
    } else {
      assert (a + b)[1..] == a[1..] + b;
      var h := Enc(e, a[0], pos);
      ElemsJoin(e, a[1..], b, pos + |h|);
      CdrLaws.EncElemsCons(e, a + b, pos);
      CdrLaws.EncElemsCons(e, a, pos);
      hide EncElems;
      Regroup(h, EncElems(e, a[1..], pos + |h|), EncElems(e, b, pos + |EncElems(e, a, pos)|));
    }
  }

  lemma Regroup(a: seq<byte>, b: seq<byte>, c: seq<byte>)
    ensures a + (b + c) == (a + b) + c
  {
  }

  /** A struct is its fields in the listed order, each at its own offset. */
  lemma StructLayout(fs: seq<Schema>, vs: seq<Value>, gs: seq<Schema>, ws: seq<Value>, pos: nat)
    requires pos >= HEADER_SIZE && |fs| == |vs| && HasType(Struct(fs + gs), VList(vs + ws))
    ensures HasType(Struct(fs), VList(vs)) && HasType(Struct(gs), VList(ws))
    ensures var first := Enc(Struct(fs), VList(vs), pos);
            Enc(Struct(fs + gs), VList(vs + ws), pos) == first + Enc(Struct(gs), VList(ws), pos + |first|)
  {
    FieldsJoin(fs, vs, gs, ws, pos);
  }

  lemma OneField(s: Schema, v: Value, pos: nat)
    requires pos >= HEADER_SIZE && HasType(s, v)
    ensures HasType(Struct([s]), VList([v])) && Enc(Struct([s]), VList([v]), pos) == Enc(s, v, pos)
  {
    assert [v][0] == v && [v][1..] == [] && [s][1..] == [];
    assert FieldsHaveType([s], [v]);
    CdrLaws.EncFieldsCons([s], [v], pos);
    NoneAfter(Enc(s, v, pos));
  }

  lemma {:induction false} FieldsJoin(fs: seq<Schema>, vs: seq<Value>, gs: seq<Schema>, ws: seq<Value>, pos: nat)
    requires pos >= HEADER_SIZE && |fs| == |vs| && FieldsHaveType(fs + gs, vs + ws)
    ensures FieldsHaveType(fs, vs) && FieldsHaveType(gs, ws)
    ensures var first := EncFields(fs, vs, pos);
            EncFields(fs + gs, vs + ws, pos) == first + EncFields(gs, ws, pos + |first|)
    decreases |fs|
  {
    hide Enc, HasType;
    if fs == [] {
      assert fs + gs == gs && vs + ws == ws;
    } else {
      assert (fs + gs)[1..] == fs[1..] + gs && (vs + ws)[1..] == vs[1..] + ws;
      var h := Enc(fs[0], vs[0], pos);
      FieldsJoin(fs[1..], vs[1..], gs, ws, pos + |h|);
      CdrLaws.EncFieldsCons(fs + gs, vs + ws, pos);
      CdrLaws.EncFieldsCons(fs, vs, pos);
      hide EncFields;
      Regroup(h, EncFields(fs[1..], vs[1..], pos + |h|), EncFields(gs, ws, pos + |EncFields(fs, vs, pos)|));
    }
  }

  /** The four header bytes of a little-endian body. */
  lemma HeaderIs(s: Schema, v: Value)
    requires HasType(s, v)
    ensures var r := Cdr.Serialize(s, v);
            |r| >= 4 && r[..4] == [0x00, 0x01, 0x00, 0x00] && r[4..] == Enc(s, v, 4)
  {
  }
}
