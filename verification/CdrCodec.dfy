/** The Writer and Reader classes of include/talosos/serialization.h, and the
    overloads built on them, refined to the functions of module Cdr. */
module CdrCodec {
  import opened Bytes
  import opened Cdr
  import CdrLaws

  class Writer {
    var buf: seq<byte>

    ghost predicate Valid()
      reads this
    {
      |buf| >= HEADER_SIZE
    }

    constructor ()
      ensures Valid() && buf == LE_HEADER == [0x00, 0x01, 0x00, 0x00]
    {
      buf := LE_HEADER;
    }

    method Align(n: nat)
      requires Valid() && IsWidth(n)
      modifies this
      ensures buf == old(buf) + Zeros(Pad(|old(buf)|, n))
      ensures old(buf) <= buf && |buf| < |old(buf)| + n && (|buf| - HEADER_SIZE) % n == 0
      ensures forall i | |old(buf)| <= i < |buf| :: buf[i] == 0
    {
      var body := |buf| - HEADER_SIZE;
      var pad := (n - body % n) % n;
      CdrLaws.PadIs(|buf|, n);
      ZerosAre(pad);
      for i := 0 to pad
        invariant buf == old(buf) + Zeros(i)
      {
        buf := buf + [0];
      }
    }

    /** WriteU16, WriteU32 and WriteU64: w is 2, 4 or 8 bytes. */
    method WriteUInt(v: nat, w: nat)
      requires Valid() && IsWidth(w)
      modifies this
      ensures buf == old(buf) + EncUInt(v, w, |old(buf)|)
    {
      hide Pad;
      Align(w);
      var start := buf;
      for i := 0 to w
        invariant buf == start + LittleEndian(v, i)
      {
        LittleEndianExtend(v, i);
        buf := buf + [v / Pow256(i) % 256];
      }
    }

    method WriteU8(v: byte)
      requires Valid()
      modifies this
      ensures buf == old(buf) + [v] == old(buf) + EncUInt(v, 1, |old(buf)|)
    {
      CdrLaws.ByteEnc(v, |buf|);
      buf := buf + [v];
    }

    /** Every fixed-size overload: cast to the unsigned type of the same width. */
    method WritePrim(p: Prim, v: Value)
      requires Valid() && HasPrimType(p, v)
      modifies this
      ensures buf == old(buf) + EncUInt(ToBits(p, v), Width(p), |old(buf)|)
    {
      var bits := ToBits(p, v);
      if Width(p) == 1 {
        WriteU8(bits);
      } else {
        WriteUInt(bits, Width(p));
      }
    }

    method WriteString(s: seq<byte>)
      requires Valid()
      modifies this
      ensures buf == old(buf) + EncStr(s, |old(buf)|)
    {
      var n := (|s| % TWO32 + 1) % TWO32;
      WriteUInt(n, 4);
      buf := buf + s;
      buf := buf + [0];
    }

    /** The overload of Write chosen for a schema. */
    method Write(s: Schema, v: Value)
      requires Valid() && HasType(s, v)
      modifies this
      ensures Valid() && buf == old(buf) + Enc(s, v, |old(buf)|)
      decreases v, 1
    {
      hide EncUInt, EncStr, EncElems, EncFields;
      match s
      case Prim(p) => WritePrim(p, v);
      case Str => WriteString(v.s);
      case Seq(e) =>
        WriteUInt(|v.vs| % TWO32, 4);
        WriteElems(e, v.vs);
      case Arr(e, _) => WriteElems(e, v.vs);
      case Struct(fs) => WriteFields(fs, v.vs);
    }

    /** The range-for over a vector or an array. */
    method WriteElems(e: Schema, vs: seq<Value>)
      requires Valid() && ElemsHaveType(e, vs)
      modifies this
      ensures Valid() && buf == old(buf) + EncElems(e, vs, |old(buf)|)
      decreases vs, 0
    {
      for i := 0 to |vs|
        invariant Valid() && ElemsHaveType(e, vs[i..])
        invariant buf + EncElems(e, vs[i..], |buf|) == old(buf) + EncElems(e, vs, |old(buf)|)
      {
        NextElem(e, vs, i, buf);
        Write(e, vs[i]);
      }
    }

    /** The comma fold over talosos_fields(). */
    method WriteFields(fs: seq<Schema>, vs: seq<Value>)
      requires Valid() && FieldsHaveType(fs, vs)
      modifies this
      ensures Valid() && buf == old(buf) + EncFields(fs, vs, |old(buf)|)
      decreases vs, 0
    {
      hide Enc, HasType;
      if vs != [] {
        Write(fs[0], vs[0]);
        WriteFields(fs[1..], vs[1..]);
      }
    }
  }

  /** Writing the i-th element moves it from what is left to write into the buffer. */
  lemma NextElem(e: Schema, vs: seq<Value>, i: nat, buf: seq<byte>)
    requires i < |vs| && ElemsHaveType(e, vs[i..]) && |buf| >= HEADER_SIZE
    ensures HasType(e, vs[i]) && ElemsHaveType(e, vs[i + 1..])
    ensures var buf' := buf + Enc(e, vs[i], |buf|);
            buf + EncElems(e, vs[i..], |buf|) == buf' + EncElems(e, vs[i + 1..], |buf'|)
  {
    assert vs[i..][0] == vs[i] && vs[i..][1..] == vs[i + 1..];
    var h := Enc(e, vs[i], |buf|);
    var rest := EncElems(e, vs[i + 1..], |buf| + |h|);
    assert EncElems(e, vs[i..], |buf|) == h + rest;
    assert buf + (h + rest) == (buf + h) + rest;
  }

  /** A method either returns a value and moves the cursor as Dec says, or throws. */
  ghost predicate Agrees<T, U>(spec: Result<(T, nat)>, r: Result<U>, same: (T, U) -> bool, pos: nat) {
    match spec
    case Ok((v, q)) => r.Ok? && same(v, r.value) && pos == q
    case Err(e) => r == Err(e)
  }

  class Reader {
    const data: seq<byte>
    var pos: nat

    ghost predicate Valid()
      reads this
    {
      pos >= HEADER_SIZE
    }

    constructor (data: seq<byte>)
      requires |data| >= HEADER_SIZE
      ensures Valid() && this.data == data && pos == HEADER_SIZE
    {
      this.data := data;
      pos := HEADER_SIZE;
    }

    method Align(n: nat)
      requires Valid() && IsWidth(n)
      modifies this
      ensures pos == old(pos) + Pad(old(pos), n)
    {
      var body := pos - HEADER_SIZE;
      CdrLaws.PadIs(pos, n);
      pos := pos + (n - body % n) % n;
    }

    /** ReadU8, ReadU16, ReadU32 and ReadU64. */
    method ReadUInt(w: nat) returns (r: Result<nat>)
      requires Valid() && IsWidth(w)
      modifies this
      ensures Valid() && Agrees(DecUInt(w, data, old(pos)), r, (n: nat, m: nat) => n == m, pos)
    {
      hide Pad;
      Align(w);
      if pos + w > |data| {
        return Err(Underrun);
      }
      var v, p := 0, pos;
      for i := 0 to w
        invariant pos == p
        invariant v == FromLittleEndian(data[p..p + i])
      {
        assert data[p..p + i + 1] == data[p..p + i] + [data[p + i]];
        FromLittleEndianExtend(data[p..p + i], data[p + i]);
        v := v + data[p + i] * Pow256(i);
      }
      pos := pos + w;
      return Ok(v);
    }

    method ReadString() returns (r: Result<seq<byte>>)
      requires Valid()
      modifies this
      ensures Valid() && Agrees(DecStr(data, old(pos)), r, (v: Value, s: seq<byte>) => v == VStr(s), pos)
    {
      var n :- ReadUInt(4);
      if n == 0 {
        return Ok([]);
      }
      if pos + n > |data| {
        return Err(Underrun);
      }
      var s := data[pos..pos + n - 1];
      pos := pos + n;
      return Ok(s);
    }

    /** The overload of Read chosen for a schema. */
    method Read(s: Schema) returns (r: Result<Value>)
      requires Valid()
      modifies this
      ensures Valid() && Agrees(Dec(s, data, old(pos)), r, (v: Value, u: Value) => v == u, pos)
      decreases s, 0
    {
      hide DecUInt, DecStr, DecElems, DecFields;
      match s
      case Prim(p) =>
        var bits :- ReadUInt(Width(p));
        return Ok(OfBits(p, bits));
      case Str =>
        var str :- ReadString();
        return Ok(VStr(str));
      case Seq(e) =>
        var n :- ReadUInt(4);
        var vs :- ReadElems(e, n);
        return Ok(VList(vs));
      case Arr(e, n) =>
        var vs :- ReadElems(e, n);
        return Ok(VList(vs));
      case Struct(fs) =>
        var vs :- ReadFields(fs);
        return Ok(VList(vs));
    }

    method ReadElems(e: Schema, n: nat) returns (r: Result<seq<Value>>)
      requires Valid()
      modifies this
      ensures Valid() && Agrees(DecElems(e, n, data, old(pos)), r, (v: seq<Value>, u: seq<Value>) => v == u, pos)
      decreases e, n + 1
    {
      hide Dec, DecElems;
      var vs := [];
      ghost var all := DecElems(e, n, data, pos);
      PrependNothing(all);
      for i := 0 to n
        invariant Valid() && |vs| == i
        invariant all == Prepend(vs, DecElems(e, n - i, data, pos))
      {
        NextRead(e, n - i, data, pos);
        var x :- Read(e);
        PrependAssoc(vs, x, DecElems(e, n - i - 1, data, pos));
        vs := vs + [x];
      }
      NoneLeft(e, data, pos, vs);
      return Ok(vs);
    }

    method ReadFields(fs: seq<Schema>) returns (r: Result<seq<Value>>)
      requires Valid()
      modifies this
      ensures Valid() && Agrees(DecFields(fs, data, old(pos)), r, (v: seq<Value>, u: seq<Value>) => v == u, pos)
      decreases fs, 0
    {
      if fs == [] {
        return Ok([]);
      }
      var x :- Read(fs[0]);
      var xs :- ReadFields(fs[1..]);
      return Ok([x] + xs);
    }
  }

  /** Values already read in front of what is still to come. */
  ghost function Prepend(vs: seq<Value>, r: Result<(seq<Value>, nat)>): Result<(seq<Value>, nat)> {
    match r
    case Ok((ws, q)) => Ok((vs + ws, q))
    case Err(e) => Err(e)
  }

  /** One iteration of the reading loop. */
  lemma NextRead(e: Schema, n: nat, data: seq<byte>, pos: nat)
    requires pos >= HEADER_SIZE && n > 0
    ensures var r := Dec(e, data, pos);
            DecElems(e, n, data, pos) ==
              if r.Err? then Err(r.error)
              else Prepend([r.value.0], DecElems(e, n - 1, data, r.value.1))
  {
  }

  lemma NoneLeft(e: Schema, data: seq<byte>, pos: nat, vs: seq<Value>)
    requires pos >= HEADER_SIZE
    ensures Prepend(vs, DecElems(e, 0, data, pos)) == Ok((vs, pos))
  {
    assert vs + [] == vs;
  }

  lemma PrependNothing(r: Result<(seq<Value>, nat)>)
    ensures Prepend([], r) == r
  {
    if r.Ok? {
      assert [] + r.value.0 == r.value.0;
    }
  }

  lemma PrependAssoc(vs: seq<Value>, x: Value, r: Result<(seq<Value>, nat)>)
    ensures Prepend(vs + [x], r) == Prepend(vs, Prepend([x], r))
  {
    if r.Ok? {
      assert vs + [x] + r.value.0 == vs + ([x] + r.value.0);
    }
  }

  method Serialize(s: Schema, v: Value) returns (bytes: seq<byte>)
    requires HasType(s, v)
    ensures bytes == Cdr.Serialize(s, v)
    ensures |bytes| >= 4 && bytes[..4] == [0x00, 0x01, 0x00, 0x00]
    ensures Fits(s, v) <==> Cdr.Deserialize(s, bytes) == Ok(v)
  {
    var w := new Writer();
    w.Write(s, v);
    bytes := w.buf;
    assert bytes[HEADER_SIZE..] == Enc(s, v, HEADER_SIZE);
    CdrLaws.AtSlice(bytes, HEADER_SIZE, Enc(s, v, HEADER_SIZE));
    CdrLaws.RoundTripExactly(s, v, bytes, HEADER_SIZE);
  }

  lemma DecodesExtension(s: Schema, v: Value, data: seq<byte>)
    requires HasType(s, v) && Fits(s, v) && Cdr.Serialize(s, v) <= data
    ensures Cdr.Deserialize(s, data) == Ok(v)
  {
    var b := Cdr.Serialize(s, v);
    var rest := data[|b|..];
    assert data == b + rest && (b + rest)[..|data|] == data;
    CdrLaws.PrefixSafety(s, v, rest, |data|);
  }

  lemma DecodesAll(s: Schema, data: seq<byte>)
    ensures var r := Cdr.Deserialize(s, data);
            && (r.Ok? ==> HasType(s, r.value) && Fits(s, r.value))
            && (forall v | HasType(s, v) && Fits(s, v) && Cdr.Serialize(s, v) <= data :: r == Ok(v))
  {
    hide HasType, Fits, Cdr.Deserialize, Cdr.Serialize;
    if Cdr.Deserialize(s, data).Ok? {
      CdrLaws.DecodeThenRoundTrip(s, data);
    }
    forall v | HasType(s, v) && Fits(s, v) && Cdr.Serialize(s, v) <= data
      ensures Cdr.Deserialize(s, data) == Ok(v)
    {
      DecodesExtension(s, v, data);
    }
  }

  method Deserialize(s: Schema, data: seq<byte>) returns (r: Result<Value>)
    ensures r == Cdr.Deserialize(s, data)
    ensures r.Ok? ==> HasType(s, r.value) && Fits(s, r.value)
    ensures forall v | HasType(s, v) && Fits(s, v) && Cdr.Serialize(s, v) <= data :: r == Ok(v)
  {
    DecodesAll(s, data);
    hide HasType, Fits, Cdr.Serialize;
    if |data| < HEADER_SIZE {
      return Err(ShortHeader);
    }
    var reader := new Reader(data);
    r := reader.Read(s);
  }
}
