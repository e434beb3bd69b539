/** Writing a struct field by field, one statement per field, against the encoding of
    the whole struct. */
module CdrFields {
  import opened Bytes
  import opened Cdr

  /** With the first k fields written, buf and the fields left make up all. */
  ghost predicate Left(buf: seq<byte>, fs: seq<Schema>, vs: seq<Value>, k: nat, all: seq<byte>) {
    && k <= |fs| == |vs| && |buf| >= HEADER_SIZE
    && FieldsHaveType(fs[k..], vs[k..])
    && buf + EncFields(fs[k..], vs[k..], |buf|) == all
  }

  lemma Start(buf: seq<byte>, fs: seq<Schema>, vs: seq<Value>)
    requires |buf| >= HEADER_SIZE && HasType(Struct(fs), VList(vs))
    ensures Left(buf, fs, vs, 0, buf + Enc(Struct(fs), VList(vs), |buf|))
  {
    assert fs[0..] == fs && vs[0..] == vs;
  }

  lemma NextField(buf: seq<byte>, fs: seq<Schema>, vs: seq<Value>, k: nat, all: seq<byte>)
    requires k < |fs| && Left(buf, fs, vs, k, all)
    ensures HasType(fs[k], vs[k]) && Left(buf + Enc(fs[k], vs[k], |buf|), fs, vs, k + 1, all)
    ensures k + 1 == |fs| ==> buf + Enc(fs[k], vs[k], |buf|) == all
  {
    var f, x, fs', vs' := fs[k], vs[k], fs[k + 1..], vs[k + 1..];
    assert fs[k..] == [f] + fs' && vs[k..] == [x] + vs';
    SplitField(buf, f, x, fs', vs');
  }

  lemma SplitField(buf: seq<byte>, f: Schema, x: Value, fs: seq<Schema>, vs: seq<Value>)
    requires |buf| >= HEADER_SIZE && FieldsHaveType([f] + fs, [x] + vs)
    ensures HasType(f, x) && FieldsHaveType(fs, vs)
    ensures var buf' := buf + Enc(f, x, |buf|);
            buf + EncFields([f] + fs, [x] + vs, |buf|) == buf' + EncFields(fs, vs, |buf'|)
  {
    hide Enc, HasType;
    assert ([f] + fs)[1..] == fs && ([x] + vs)[1..] == vs;
    var h := Enc(f, x, |buf|);
    var rest := EncFields(fs, vs, |buf| + |h|);
    assert buf + (h + rest) == (buf + h) + rest;
  }
}
