/** Laws of the wire format, for every schema, value and start offset. */
module CdrLaws {
  import opened Bytes
  import opened Cdr

  /** The bytes of enc sit in data at position pos. */
  predicate At(data: seq<byte>, pos: nat, enc: seq<byte>)
    decreases enc
  {
    if enc == [] then pos <= |data|
    else pos < |data| && data[pos] == enc[0] && At(data, pos + 1, enc[1..])
  }

  lemma {:induction false} AtSlice(data: seq<byte>, pos: nat, enc: seq<byte>)
    ensures At(data, pos, enc) <==> pos + |enc| <= |data| && data[pos..pos + |enc|] == enc
    decreases enc
  {
    if enc != [] {
      AtSlice(data, pos + 1, enc[1..]);
      if pos + |enc| <= |data| {
        var d := data[pos..pos + |enc|];
        assert d[1..] == data[pos + 1..pos + |enc|] && d == [d[0]] + d[1..];
        assert enc == [enc[0]] + enc[1..];
      }
    }
  }

  lemma {:induction false} AtSplit(data: seq<byte>, pos: nat, a: seq<byte>, b: seq<byte>)
    requires At(data, pos, a + b)
    ensures At(data, pos, a) && At(data, pos + |a|, b)
    decreases a
  {
    if a == [] {
      assert a + b == b;
      AtSlice(data, pos, b);
    } else {
      assert (a + b)[1..] == a[1..] + b;
      AtSplit(data, pos + 1, a[1..], b);
    }
  }

  /** The padding is the source's expression, and puts the next integer at a multiple
      of its own size from the end of the header. */
  lemma PadIs(pos: nat, n: nat)
    requires pos >= HEADER_SIZE && IsWidth(n)
    ensures Pad(pos, n) == (n - (pos - HEADER_SIZE) % n) % n
    ensures (pos + Pad(pos, n) - HEADER_SIZE) % n == 0
  {
  }

  // ---- Round trip ----

  lemma UIntRoundTrip(bits: nat, w: nat, data: seq<byte>, pos: nat)
    requires pos >= HEADER_SIZE && IsWidth(w) && bits < Modulus(w)
    requires At(data, pos, EncUInt(bits, w, pos))
    ensures DecUInt(w, data, pos) == Ok((bits, pos + |EncUInt(bits, w, pos)|))
  {
    var z := Zeros(Pad(pos, w));
    AtSplit(data, pos, z, LittleEndian(bits, w));
    AtSlice(data, pos + |z|, LittleEndian(bits, w));
    ModulusIs(w);
    DecodeLittleEndian(bits, w);
  }

  lemma StrRoundTrip(s: seq<byte>, data: seq<byte>, pos: nat)
    requires pos >= HEADER_SIZE && |s| < TWO32 - 1 && At(data, pos, EncStr(s, pos))
    ensures DecStr(data, pos) == Ok((VStr(s), pos + |EncStr(s, pos)|))
  {
    hide EncUInt, DecUInt;
    var h := EncUInt(|s| + 1, 4, pos);
    assert EncStr(s, pos) == h + (s + [0]);
    AtSplit(data, pos, h, s + [0]);
    UIntRoundTrip(|s| + 1, 4, data, pos);
    AtSlice(data, pos + |h|, s + [0]);
    assert (s + [0])[..|s|] == s;
    assert data[pos + |h|..pos + |h| + |s|] == data[pos + |h|..pos + |h| + |s| + 1][..|s|];
  }

  lemma EncStrIs(s: seq<byte>, pos: nat)
    requires pos >= HEADER_SIZE
    ensures Enc(Str, VStr(s), pos) == EncUInt(StringPrefix(|s|), 4, pos) + s + [0]
  {
  }

  lemma {:induction false} RoundTrip(s: Schema, v: Value, data: seq<byte>, pos: nat)
    requires pos >= HEADER_SIZE && HasType(s, v) && Fits(s, v)
    requires At(data, pos, Enc(s, v, pos))
    ensures Dec(s, data, pos) == Ok((v, pos + |Enc(s, v, pos)|))
    decreases v, 1
  {
    hide EncUInt, DecUInt, EncElems, DecElems, EncFields, DecFields, EncStr, DecStr;
    match s
    case Prim(p) =>
      OfToBits(p, v);
      UIntRoundTrip(ToBits(p, v), Width(p), data, pos);
    case Str =>
      StrRoundTrip(v.s, data, pos);
    case Seq(e) =>
      SeqRoundTrip(e, v.vs, data, pos);
    case Arr(e, _) =>
      ElemsRoundTrip(e, v.vs, data, pos);
    case Struct(fs) =>
      FieldsRoundTrip(fs, v.vs, data, pos);
  }

  lemma EncSeqIs(e: Schema, vs: seq<Value>, pos: nat)
    requires pos >= HEADER_SIZE && ElemsHaveType(e, vs)
    ensures var h := EncUInt(|vs| % TWO32, 4, pos);
            Enc(Seq(e), VList(vs), pos) == h + EncElems(e, vs, pos + |h|)
  {
  }

  lemma DecSeqIs(e: Schema, vs: seq<Value>, data: seq<byte>, pos: nat, q: nat, end: nat)
    requires pos >= HEADER_SIZE && q >= HEADER_SIZE
    requires DecUInt(4, data, pos) == Ok((|vs|, q)) && DecElems(e, |vs|, data, q) == Ok((vs, end))
    ensures Dec(Seq(e), data, pos) == Ok((VList(vs), end))
  {
  }

  lemma {:induction false} SeqRoundTrip(e: Schema, vs: seq<Value>, data: seq<byte>, pos: nat)
    requires pos >= HEADER_SIZE && ElemsHaveType(e, vs) && ElemsFit(e, vs) && |vs| < TWO32
    requires At(data, pos, Enc(Seq(e), VList(vs), pos))
    ensures Dec(Seq(e), data, pos) == Ok((VList(vs), pos + |Enc(Seq(e), VList(vs), pos)|))
    decreases vs, 1
  {
    hide Enc, Dec, EncElems, DecElems, ElemsHaveType, ElemsFit, EncUInt, DecUInt;
    var n := |vs|;
    var h := EncUInt(n, 4, pos);
    var q := pos + |h|;
    var body := EncElems(e, vs, q);
    EncSeqIs(e, vs, pos);
    AtSplit(data, pos, h, body);
    UIntRoundTrip(n, 4, data, pos);
    ElemsRoundTrip(e, vs, data, q);
    DecSeqIs(e, vs, data, pos, q, q + |body|);
  }

  lemma EncElemsCons(e: Schema, vs: seq<Value>, pos: nat)
    requires ElemsHaveType(e, vs) && pos >= HEADER_SIZE && vs != []
    ensures var h := Enc(e, vs[0], pos); EncElems(e, vs, pos) == h + EncElems(e, vs[1..], pos + |h|)
  {
  }

  lemma EncFieldsCons(fs: seq<Schema>, vs: seq<Value>, pos: nat)
    requires FieldsHaveType(fs, vs) && pos >= HEADER_SIZE && vs != []
    ensures var h := Enc(fs[0], vs[0], pos); EncFields(fs, vs, pos) == h + EncFields(fs[1..], vs[1..], pos + |h|)
  {
  }

  lemma DecElemsCons(e: Schema, vs: seq<Value>, data: seq<byte>, pos: nat, q: nat, end: nat)
    requires pos >= HEADER_SIZE && q >= HEADER_SIZE && vs != []
    requires Dec(e, data, pos) == Ok((vs[0], q)) && DecElems(e, |vs| - 1, data, q) == Ok((vs[1..], end))
    ensures DecElems(e, |vs|, data, pos) == Ok((vs, end))
  {
    assert vs == [vs[0]] + vs[1..];
  }

  lemma DecFieldsCons(fs: seq<Schema>, vs: seq<Value>, data: seq<byte>, pos: nat, q: nat, end: nat)
    requires pos >= HEADER_SIZE && q >= HEADER_SIZE && vs != [] && fs != []
    requires Dec(fs[0], data, pos) == Ok((vs[0], q)) && DecFields(fs[1..], data, q) == Ok((vs[1..], end))
    ensures DecFields(fs, data, pos) == Ok((vs, end))
  {
    assert vs == [vs[0]] + vs[1..];
  }

  lemma {:induction false} ElemsRoundTrip(e: Schema, vs: seq<Value>, data: seq<byte>, pos: nat)
    requires pos >= HEADER_SIZE && ElemsHaveType(e, vs) && ElemsFit(e, vs)
    requires At(data, pos, EncElems(e, vs, pos))
    ensures DecElems(e, |vs|, data, pos) == Ok((vs, pos + |EncElems(e, vs, pos)|))
    decreases vs, 0
  {
    hide Enc, Dec, HasType, Fits;
    if vs != [] {
      var h := Enc(e, vs[0], pos);
      var q := pos + |h|;
      var rest := EncElems(e, vs[1..], q);
      EncElemsCons(e, vs, pos);
      AtSplit(data, pos, h, rest);
      RoundTrip(e, vs[0], data, pos);
      ElemsRoundTrip(e, vs[1..], data, q);
      DecElemsCons(e, vs, data, pos, q, q + |rest|);
    }
  }

  lemma {:induction false} FieldsRoundTrip(fs: seq<Schema>, vs: seq<Value>, data: seq<byte>, pos: nat)
    requires pos >= HEADER_SIZE && FieldsHaveType(fs, vs) && FieldsFit(fs, vs)
    requires At(data, pos, EncFields(fs, vs, pos))
    ensures DecFields(fs, data, pos) == Ok((vs, pos + |EncFields(fs, vs, pos)|))
    decreases vs, 0
  {
    hide Enc, Dec, HasType, Fits;
    if vs != [] {
      var h := Enc(fs[0], vs[0], pos);
      var q := pos + |h|;
      var rest := EncFields(fs[1..], vs[1..], q);
      EncFieldsCons(fs, vs, pos);
      AtSplit(data, pos, h, rest);
      RoundTrip(fs[0], vs[0], data, pos);
      FieldsRoundTrip(fs[1..], vs[1..], data, q);
      DecFieldsCons(fs, vs, data, pos, q, q + |rest|);
    }
  }

  // ---- ... and only then: a length that wraps never decodes to the value written ----

  lemma StrMisfit(s: seq<byte>, data: seq<byte>, pos: nat)
    requires pos >= HEADER_SIZE && |s| >= TWO32 - 1 && At(data, pos, EncStr(s, pos))
    ensures var r := DecStr(data, pos); r.Ok? ==> r.value.0 != VStr(s)
  {
    var n := StringPrefix(|s|);
    var h := EncUInt(n, 4, pos);
    assert EncStr(s, pos) == h + (s + [0]);
    AtSplit(data, pos, h, s + [0]);
    UIntRoundTrip(n, 4, data, pos);
  }

  lemma {:induction false} Misfit(s: Schema, v: Value, data: seq<byte>, pos: nat)
    requires pos >= HEADER_SIZE && HasType(s, v) && !Fits(s, v)
    requires At(data, pos, Enc(s, v, pos))
    ensures var r := Dec(s, data, pos); r.Ok? ==> r.value.0 != v
    decreases v, 1
  {
    hide EncUInt, DecUInt, EncElems, EncFields, DecFields, EncStr, DecStr;
    match s
    case Prim(_) =>
    case Str =>
      StrMisfit(v.s, data, pos);
    case Seq(e) =>
      var n := |v.vs| % TWO32;
      var h := EncUInt(n, 4, pos);
      AtSplit(data, pos, h, EncElems(e, v.vs, pos + |h|));
      UIntRoundTrip(n, 4, data, pos);
      if |v.vs| < TWO32 {
        ElemsMisfit(e, v.vs, data, pos + |h|);
      }
    case Arr(e, _) =>
      ElemsMisfit(e, v.vs, data, pos);
    case Struct(fs) =>
      FieldsMisfit(fs, v.vs, data, pos);
  }

  lemma {:induction false} ElemsMisfit(e: Schema, vs: seq<Value>, data: seq<byte>, pos: nat)
    requires pos >= HEADER_SIZE && ElemsHaveType(e, vs) && !ElemsFit(e, vs)
    requires At(data, pos, EncElems(e, vs, pos))
    ensures var r := DecElems(e, |vs|, data, pos); r.Ok? ==> r.value.0 != vs
    decreases vs, 0
  {
    hide Enc, Dec, HasType, Fits;
    var h := Enc(e, vs[0], pos);
    AtSplit(data, pos, h, EncElems(e, vs[1..], pos + |h|));
    if DecElems(e, |vs|, data, pos).Ok? {
      var (x, q) := Dec(e, data, pos).value;
      var xs := DecElems(e, |vs| - 1, data, q).value.0;
      if Fits(e, vs[0]) {
        RoundTrip(e, vs[0], data, pos);
        ElemsMisfit(e, vs[1..], data, q);
        assert ([x] + xs)[1..] == xs;
      } else {
        Misfit(e, vs[0], data, pos);
        assert ([x] + xs)[0] == x;
      }
    }
  }

  lemma {:induction false} FieldsMisfit(fs: seq<Schema>, vs: seq<Value>, data: seq<byte>, pos: nat)
    requires pos >= HEADER_SIZE && FieldsHaveType(fs, vs) && !FieldsFit(fs, vs)
    requires At(data, pos, EncFields(fs, vs, pos))
    ensures var r := DecFields(fs, data, pos); r.Ok? ==> r.value.0 != vs
    decreases vs, 0
  {
    hide Enc, Dec, HasType, Fits;
    var h := Enc(fs[0], vs[0], pos);
    AtSplit(data, pos, h, EncFields(fs[1..], vs[1..], pos + |h|));
    if Fits(fs[0], vs[0]) {
      RoundTrip(fs[0], vs[0], data, pos);
      FieldsMisfit(fs[1..], vs[1..], data, pos + |h|);
    } else {
      Misfit(fs[0], vs[0], data, pos);
    }
  }

  /** The round trip, exactly: a value written at any offset of any buffer reads
      back, with the cursor just past what was written, if and only if no length
      field wraps. */
  lemma RoundTripExactly(s: Schema, v: Value, data: seq<byte>, pos: nat)
    requires pos >= HEADER_SIZE && HasType(s, v) && At(data, pos, Enc(s, v, pos))
    ensures var r := Dec(s, data, pos); (r.Ok? && r.value.0 == v) <==> Fits(s, v)
    ensures Fits(s, v) ==> Dec(s, data, pos) == Ok((v, pos + |Enc(s, v, pos)|))
  {
    if Fits(s, v) {
      RoundTrip(s, v, data, pos);
    } else {
      Misfit(s, v, data, pos);
    }
  }

  /** The shortest string that does not survive: its length field wraps to 0, and it
      reads back as the empty string. */
  lemma LongStringReadsEmpty()
    ensures var v := VStr(seq(TWO32 - 1, _ => 0));
            HasType(Str, v) && !Fits(Str, v) && Deserialize(Str, Serialize(Str, v)) == Ok(VStr([]))
  {
    var s: seq<byte> := seq(TWO32 - 1, _ => 0);
    assert |s| == TWO32 - 1;
    WrappedString(s);
  }

  lemma WrappedString(s: seq<byte>)
    requires |s| == TWO32 - 1
    ensures Deserialize(Str, Serialize(Str, VStr(s))) == Ok(VStr([]))
  {
    var data := Serialize(Str, VStr(s));
    var h := EncUInt(0, 4, HEADER_SIZE);
    assert StringPrefix(|s|) == 0;
    EncStrIs(s, HEADER_SIZE);
    assert data == LE_HEADER + (h + s + [0]);
    assert data[HEADER_SIZE..HEADER_SIZE + |h|] == h;
    AtSlice(data, HEADER_SIZE, h);
    UIntRoundTrip(0, 4, data, HEADER_SIZE);
  }

  // ---- Reading looks no further than the cursor's final position ----

  lemma UIntLocal(w: nat, data: seq<byte>, pos: nat, len: nat)
    requires HEADER_SIZE <= pos <= len <= |data| && IsWidth(w) && DecUInt(w, data, pos).Ok?
    ensures DecUInt(w, data[..len], pos)
         == if len < DecUInt(w, data, pos).value.1 then Err(Underrun) else DecUInt(w, data, pos)
  {
    var p := pos + Pad(pos, w);
    if p + w <= len {
      assert data[..len][p..p + w] == data[p..p + w];
    }
  }

  lemma StrLocal(data: seq<byte>, pos: nat, len: nat)
    requires HEADER_SIZE <= pos <= len <= |data| && DecStr(data, pos).Ok?
    ensures DecStr(data[..len], pos)
         == if len < DecStr(data, pos).value.1 then Err(Underrun) else DecStr(data, pos)
  {
    UIntLocal(4, data, pos, len);
    var (n, p) := DecUInt(4, data, pos).value;
    if n != 0 && p + n <= len {
      assert data[..len][p..p + n - 1] == data[p..p + n - 1];
    }
  }

  /** On a cut-off buffer the reader either needs nothing beyond the cut and
      returns the same, or it runs out of data. */
  lemma {:induction false} Local(s: Schema, data: seq<byte>, pos: nat, len: nat)
    requires HEADER_SIZE <= pos <= len <= |data| && Dec(s, data, pos).Ok?
    ensures Dec(s, data, pos).value.1 <= |data|
    ensures Dec(s, data[..len], pos)
         == if len < Dec(s, data, pos).value.1 then Err(Underrun) else Dec(s, data, pos)
    decreases s, 0
  {
    match s
    case Prim(p) =>
      UIntLocal(Width(p), data, pos, len);
    case Str =>
      StrLocal(data, pos, len);
    case Seq(e) =>
      UIntLocal(4, data, pos, len);
      var (n, q) := DecUInt(4, data, pos).value;
      if q <= len {
        ElemsLocal(e, n, data, q, len);
      } else {
        ElemsLocal(e, n, data, q, |data|);
      }
    case Arr(e, n) =>
      ElemsLocal(e, n, data, pos, len);
    case Struct(fs) =>
      FieldsLocal(fs, data, pos, len);
  }

  lemma {:induction false} ElemsLocal(e: Schema, n: nat, data: seq<byte>, pos: nat, len: nat)
    requires HEADER_SIZE <= pos <= len <= |data| && DecElems(e, n, data, pos).Ok?
    ensures DecElems(e, n, data, pos).value.1 <= |data|
    ensures DecElems(e, n, data[..len], pos)
         == if len < DecElems(e, n, data, pos).value.1 then Err(Underrun) else DecElems(e, n, data, pos)
    decreases e, n + 1
  {
    if n > 0 {
      Local(e, data, pos, len);
      var q := Dec(e, data, pos).value.1;
      ElemsLocal(e, n - 1, data, q, if q <= len then len else |data|);
    }
  }

  lemma {:induction false} FieldsLocal(fs: seq<Schema>, data: seq<byte>, pos: nat, len: nat)
    requires HEADER_SIZE <= pos <= len <= |data| && DecFields(fs, data, pos).Ok?
    ensures DecFields(fs, data, pos).value.1 <= |data|
    ensures DecFields(fs, data[..len], pos)
         == if len < DecFields(fs, data, pos).value.1 then Err(Underrun) else DecFields(fs, data, pos)
    decreases fs, 0
  {
    if fs != [] {
      Local(fs[0], data, pos, len);
      var q := Dec(fs[0], data, pos).value.1;
      FieldsLocal(fs[1..], data, q, if q <= len then len else |data|);
    }
  }

  /** Prefix safety: every buffer that agrees with a serialization as far as it
      goes decodes to the value when it holds all of it, and otherwise fails. */
  lemma PrefixSafety(s: Schema, v: Value, extension: seq<byte>, len: nat)
    requires HasType(s, v) && Fits(s, v) && len <= |Serialize(s, v) + extension|
    ensures var buf := (Serialize(s, v) + extension)[..len];
            Deserialize(s, buf) == if len < HEADER_SIZE then Err(ShortHeader)
                                   else if len < |Serialize(s, v)| then Err(Underrun)
                                   else Ok(v)
  {
    var enc := Enc(s, v, HEADER_SIZE);
    var all := Serialize(s, v) + extension;
    assert all[HEADER_SIZE..HEADER_SIZE + |enc|] == enc;
    AtSlice(all, HEADER_SIZE, enc);
    RoundTrip(s, v, all, HEADER_SIZE);
    if len >= HEADER_SIZE {
      Local(s, all, HEADER_SIZE, len);
    }
  }

  /** Distinct values of one schema never serialize to bytes where one is a prefix
      of the other; in particular Serialize is injective. */
  lemma PrefixFree(s: Schema, v: Value, w: Value)
    requires HasType(s, v) && Fits(s, v) && HasType(s, w) && Fits(s, w)
    requires Serialize(s, v) <= Serialize(s, w)
    ensures v == w
  {
    var a, b := Serialize(s, v), Serialize(s, w);
    var ext := b[|a|..];
    assert b == a + ext && (a + ext)[..|b|] == b && (b + [])[..|b|] == b;
    PrefixSafety(s, v, ext, |b|);
    PrefixSafety(s, w, [], |b|);
  }

  // ---- Whatever is read is well typed and can be written again ----

  lemma {:induction false} DecTyped(s: Schema, data: seq<byte>, pos: nat)
    requires pos >= HEADER_SIZE && Dec(s, data, pos).Ok?
    ensures var v := Dec(s, data, pos).value.0; HasType(s, v) && Fits(s, v)
    decreases s, 0
  {
    match s
    case Prim(_) =>
    case Str =>
    case Seq(e) =>
      var (n, q) := DecUInt(4, data, pos).value;
      ElemsTyped(e, n, data, q);
    case Arr(e, n) =>
      ElemsTyped(e, n, data, pos);
    case Struct(fs) =>
      FieldsTyped(fs, data, pos);
  }

  lemma {:induction false} ElemsTyped(e: Schema, n: nat, data: seq<byte>, pos: nat)
    requires pos >= HEADER_SIZE && DecElems(e, n, data, pos).Ok?
    ensures var vs := DecElems(e, n, data, pos).value.0; ElemsHaveType(e, vs) && ElemsFit(e, vs)
    decreases e, n + 1
  {
    if n > 0 {
      DecTyped(e, data, pos);
      ElemsTyped(e, n - 1, data, Dec(e, data, pos).value.1);
    }
  }

  lemma {:induction false} FieldsTyped(fs: seq<Schema>, data: seq<byte>, pos: nat)
    requires pos >= HEADER_SIZE && DecFields(fs, data, pos).Ok?
    ensures var vs := DecFields(fs, data, pos).value.0; FieldsHaveType(fs, vs) && FieldsFit(fs, vs)
    decreases fs, 0
  {
    if fs != [] {
      DecTyped(fs[0], data, pos);
      FieldsTyped(fs[1..], data, Dec(fs[0], data, pos).value.1);
    }
  }

  /** Any buffer that decodes, canonical or not (odd padding, a bool byte 7, a
      string of length field 0, any header bytes), re-serializes to a buffer that
      decodes to the same value. */
  lemma DecodeThenRoundTrip(s: Schema, data: seq<byte>)
    requires Deserialize(s, data).Ok?
    ensures var v := Deserialize(s, data).value;
            HasType(s, v) && Fits(s, v) && Deserialize(s, Serialize(s, v)) == Ok(v)
  {
    DecTyped(s, data, HEADER_SIZE);
    var v := Deserialize(s, data).value;
    var b := Serialize(s, v);
    assert (b + [])[..|b|] == b;
    PrefixSafety(s, v, [], |b|);
  }

  // ---- The header is skipped, not read ----

  predicate SameBody(a: seq<byte>, b: seq<byte>) {
    |a| == |b| >= HEADER_SIZE && a[HEADER_SIZE..] == b[HEADER_SIZE..]
  }

  lemma SliceSame(a: seq<byte>, b: seq<byte>, lo: nat, hi: nat)
    requires SameBody(a, b) && HEADER_SIZE <= lo <= hi <= |a|
    ensures a[lo..hi] == b[lo..hi]
  {
    forall i | lo <= i < hi ensures a[i] == b[i] {
      assert a[HEADER_SIZE..][i - HEADER_SIZE] == b[HEADER_SIZE..][i - HEADER_SIZE];
    }
  }

  lemma UIntSame(w: nat, a: seq<byte>, b: seq<byte>, pos: nat)
    requires SameBody(a, b) && pos >= HEADER_SIZE && IsWidth(w)
    ensures DecUInt(w, a, pos) == DecUInt(w, b, pos)
  {
    var p := pos + Pad(pos, w);
    if p + w <= |a| {
      SliceSame(a, b, p, p + w);
    }
  }

  lemma StrSame(a: seq<byte>, b: seq<byte>, pos: nat)
    requires SameBody(a, b) && pos >= HEADER_SIZE
    ensures DecStr(a, pos) == DecStr(b, pos)
  {
    UIntSame(4, a, b, pos);
    if DecUInt(4, a, pos).Ok? {
      var (n, p) := DecUInt(4, a, pos).value;
      if n > 0 && p + n <= |a| {
        SliceSame(a, b, p, p + n - 1);
      }
    }
  }

  lemma {:induction false} DecSame(s: Schema, a: seq<byte>, b: seq<byte>, pos: nat)
    requires SameBody(a, b) && pos >= HEADER_SIZE
    ensures Dec(s, a, pos) == Dec(s, b, pos)
    decreases s, 0
  {
    match s
    case Prim(p) => UIntSame(Width(p), a, b, pos);
    case Str => StrSame(a, b, pos);
    case Seq(e) =>
      UIntSame(4, a, b, pos);
      if DecUInt(4, a, pos).Ok? {
        var (n, q) := DecUInt(4, a, pos).value;
        ElemsSame(e, n, a, b, q);
      }
    case Arr(e, n) => ElemsSame(e, n, a, b, pos);
    case Struct(fs) => FieldsSame(fs, a, b, pos);
  }

  lemma {:induction false} ElemsSame(e: Schema, n: nat, a: seq<byte>, b: seq<byte>, pos: nat)
    requires SameBody(a, b) && pos >= HEADER_SIZE
    ensures DecElems(e, n, a, pos) == DecElems(e, n, b, pos)
    decreases e, n + 1
  {
    if n > 0 {
      DecSame(e, a, b, pos);
      if Dec(e, a, pos).Ok? {
        ElemsSame(e, n - 1, a, b, Dec(e, a, pos).value.1);
      }
    }
  }

  lemma {:induction false} FieldsSame(fs: seq<Schema>, a: seq<byte>, b: seq<byte>, pos: nat)
    requires SameBody(a, b) && pos >= HEADER_SIZE
    ensures DecFields(fs, a, pos) == DecFields(fs, b, pos)
    decreases fs, 0
  {
    if fs != [] {
      DecSame(fs[0], a, b, pos);
      if Dec(fs[0], a, pos).Ok? {
        FieldsSame(fs[1..], a, b, Dec(fs[0], a, pos).value.1);
      }
    }
  }

  /** Any four bytes do for a header, big-endian or other encapsulations included:
      the body decodes as little-endian or fails all the same. */
  lemma HeaderIgnored(s: Schema, header: seq<byte>, body: seq<byte>)
    requires |header| == HEADER_SIZE
    ensures Deserialize(s, header + body) == Deserialize(s, LE_HEADER + body)
  {
    var a, b := header + body, LE_HEADER + body;
    assert a[HEADER_SIZE..] == body == b[HEADER_SIZE..];
    DecSame(s, a, b, HEADER_SIZE);
  }

  // ---- Padding depends on the offset only modulo 8 ----

  lemma ModDown(b: nat)
    ensures b % 2 == b % 8 % 2 && b % 4 == b % 8 % 4
  {
    var k, r := b / 8, b % 8;
    assert b == 2 * (4 * k + r / 2) + r % 2;
    assert b == 4 * (2 * k + r / 4) + r % 4;
  }

  lemma PadPeriod(p: nat, q: nat, w: nat)
    requires SamePhase(p, q) && IsWidth(w)
    ensures Pad(p, w) == Pad(q, w)
  {
    BodyPhase(p, q);
    ModDown(p - HEADER_SIZE);
    ModDown(q - HEADER_SIZE);
  }

  lemma BodyPhase(p: nat, q: nat)
    requires SamePhase(p, q)
    ensures (p - HEADER_SIZE) % 8 == (q - HEADER_SIZE) % 8
  {
  }

  predicate SamePhase(p: nat, q: nat) {
    p >= HEADER_SIZE && q >= HEADER_SIZE && p % 8 == q % 8
  }

  lemma ModShift(p: nat, q: nat, k: nat)
    requires SamePhase(p, q)
    ensures SamePhase(p + k, q + k)
  {
  }

  lemma {:induction false} Period(s: Schema, v: Value, p: nat, q: nat)
    requires HasType(s, v) && SamePhase(p, q)
    ensures Enc(s, v, p) == Enc(s, v, q)
    decreases v, 1
  {
    hide EncElems, EncFields, Pad, LittleEndian;
    match s
    case Prim(t) => PadPeriod(p, q, Width(t));
    case Str => PadPeriod(p, q, 4);
    case Seq(e) =>
      PadPeriod(p, q, 4);
      var h := EncUInt(|v.vs| % TWO32, 4, p);
      ModShift(p, q, |h|);
      ElemsPeriod(e, v.vs, p + |h|, q + |h|);
    case Arr(e, _) => ElemsPeriod(e, v.vs, p, q);
    case Struct(fs) => FieldsPeriod(fs, v.vs, p, q);
  }

  lemma {:induction false} ElemsPeriod(e: Schema, vs: seq<Value>, p: nat, q: nat)
    requires ElemsHaveType(e, vs) && SamePhase(p, q)
    ensures EncElems(e, vs, p) == EncElems(e, vs, q)
    decreases vs, 0
  {
    hide Enc, HasType;
    if vs != [] {
      Period(e, vs[0], p, q);
      var h := Enc(e, vs[0], p);
      ModShift(p, q, |h|);
      ElemsPeriod(e, vs[1..], p + |h|, q + |h|);
    }
  }

  lemma {:induction false} FieldsPeriod(fs: seq<Schema>, vs: seq<Value>, p: nat, q: nat)
    requires FieldsHaveType(fs, vs)
    requires SamePhase(p, q)
    ensures EncFields(fs, vs, p) == EncFields(fs, vs, q)
    decreases vs, 0
  {
    hide Enc, HasType;
    if vs != [] {
      Period(fs[0], vs[0], p, q);
      var h := Enc(fs[0], vs[0], p);
      ModShift(p, q, |h|);
      FieldsPeriod(fs[1..], vs[1..], p + |h|, q + |h|);
    }
  }

  // ---- Byte sequences: the bulk paths of the Python side ----

  lemma ByteEnc(b: byte, pos: nat)
    requires pos >= HEADER_SIZE
    ensures EncUInt(b, 1, pos) == [b]
  {
    assert Pad(pos, 1) == 0 && LittleEndian(b, 1) == [b] + LittleEndian(b / 256, 0);
  }

  /** A sequence of bytes written element by element is its bytes, unpadded. */
  lemma {:induction false} ByteElems(p: Prim, vs: seq<Value>, bs: seq<byte>, pos: nat)
    requires (p == U8 || p == I8) && pos >= HEADER_SIZE && |vs| == |bs|
    requires forall k | 0 <= k < |vs| :: HasPrimType(p, vs[k]) && ToBits(p, vs[k]) == bs[k]
    ensures ElemsHaveType(Prim(p), vs) && EncElems(Prim(p), vs, pos) == bs
  {
    if vs != [] {
      var b := bs[0];
      ByteEnc(b, pos);
      assert Enc(Prim(p), vs[0], pos) == [b];
      ByteElems(p, vs[1..], bs[1..], pos + 1);
      assert bs == [b] + bs[1..];
    }
  }

  function ByteValues(bs: seq<byte>): (vs: seq<Value>)
    ensures |vs| == |bs|
  {
    if bs == [] then [] else [VInt(bs[0])] + ByteValues(bs[1..])
  }

  lemma {:induction false} ByteValueAt(bs: seq<byte>, k: nat)
    requires k < |bs|
    ensures ByteValues(bs)[k] == VInt(bs[k])
  {
    if k > 0 {
      ByteValueAt(bs[1..], k - 1);
    }
  }

  lemma BytesAsElems(bs: seq<byte>, pos: nat)
    requires pos >= HEADER_SIZE
    ensures ElemsHaveType(Prim(U8), ByteValues(bs)) && EncElems(Prim(U8), ByteValues(bs), pos) == bs
  {
    forall k | 0 <= k < |bs| ensures ByteValues(bs)[k] == VInt(bs[k]) {
      ByteValueAt(bs, k);
    }
    ByteElems(U8, ByteValues(bs), bs, pos);
  }

  /** ... and reading them one by one is one slice, with the same underrun. */
  lemma {:induction false} ByteElemsRead(n: nat, data: seq<byte>, pos: nat)
    requires pos >= HEADER_SIZE && pos <= |data|
    ensures DecElems(Prim(U8), n, data, pos)
         == if pos + n > |data| then Err(Underrun)
            else Ok((ByteValues(data[pos..pos + n]), pos + n))
  {
    hide Dec;
    if n > 0 && pos < |data| {
      ByteRead(data, pos);
      ByteElemsRead(n - 1, data, pos + 1);
      if pos + n <= |data| {
        assert data[pos..pos + n][1..] == data[pos + 1..pos + n];
      }
    } else if n > 0 {
      NoByteRead(data, pos);
    }
  }

  lemma ByteRead(data: seq<byte>, pos: nat)
    requires HEADER_SIZE <= pos < |data|
    ensures Dec(Prim(U8), data, pos) == Ok((VInt(data[pos]), pos + 1))
  {
    var b := data[pos];
    assert Pad(pos, 1) == 0;
    assert data[pos..pos + 1] == [b];
    assert FromLittleEndian([b]) == b + 256 * FromLittleEndian([]);
  }

  lemma NoByteRead(data: seq<byte>, pos: nat)
    requires pos >= HEADER_SIZE && pos >= |data|
    ensures Dec(Prim(U8), data, pos) == Err(Underrun)
  {
    assert DecUInt(1, data, pos) == Err(Underrun);
  }
}
