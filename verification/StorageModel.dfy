/** The table of zenoh-c's z_storage example seen as sequences: one chain of samples
    per bin, what insert and remove do to a chain, and the finite map it stands for. */
module StorageModel {
  import opened Bytes

  const SIZE_MAX_PLUS_1: nat := 0x1_0000_0000_0000_0000

  /** A key expression reaches the table as a pointer and a length; nothing keeps a
      NUL out of it. */
  type Key = seq<byte>

  datatype Sample = Sample(key: Key, payload: seq<byte>)

  type Chain = seq<Sample>
  type Bins = seq<Chain>

  // ---- Hashing and comparing ----

  /** (size_t)data[i] where char is signed: bytes from 128 on are sign-extended. */
  function CharToSize(c: byte): (n: nat)
    ensures n < SIZE_MAX_PLUS_1
  {
    if c < 128 then c else SIZE_MAX_PLUS_1 - 256 + c
  }

  /** djb2 over size_t, which wraps. */
  function Hash(s: seq<byte>): (h: nat)
    ensures h < SIZE_MAX_PLUS_1
  {
    if s == [] then 5381
    else
      var h := Hash(s[..|s| - 1]);
      (h * 32 + h + CharToSize(s[|s| - 1])) % SIZE_MAX_PLUS_1
  }

  /** The value of a signed char. */
  function Signed(c: byte): int { if c < 128 then c else c - 256 }

  function Pow33(n: nat): nat { if n == 0 then 1 else 33 * Pow33(n - 1) }

  /** The characters as signed digits in base 33, the first one leading. */
  function Digits(s: seq<byte>): int {
    if s == [] then 0 else Signed(s[0]) * Pow33(|s| - 1) + Digits(s[1..])
  }

  lemma {:induction false} DigitsSnoc(s: seq<byte>, c: byte)
    ensures Digits(s + [c]) == 33 * Digits(s) + Signed(c)
  {
    if s == [] {
      assert [] + [c] == [c] && [c][1..] == [];
    } else {
      assert (s + [c])[1..] == s[1..] + [c];
      DigitsSnoc(s[1..], c);
      var x, p := Signed(s[0]), Pow33(|s| - 1);
      assert Pow33(|s|) == 33 * p;
      assert x * (33 * p) == 33 * (x * p);
    }
  }

  /** One more step of a sum kept modulo m. */
  lemma WrapStep(x: int, h: int, c: int, d: int, m: int)
    requires m > 0 && h == x % m && (c - d) % m == 0
    ensures (33 * h + c) % m == (33 * x + d) % m
  {
    var q, r := x / m, (c - d) / m;
    assert x == m * q + h && c == d + m * r;
    assert 33 * x + d == 33 * h + c + m * (33 * q - r) by {
      assert 33 * (m * q) == m * (33 * q);
    }
    SameRemainder(33 * h + c, 33 * q - r, m);
  }

  lemma SameRemainder(a: int, k: int, m: int)
    requires m > 0
    ensures (a + m * k) % m == a % m
  {
    var q, r := a / m, a % m;
    assert a + m * k == m * (q + k) + r;
    DivOfSum(m, q + k, r);
  }

  /** djb2, exactly: the hash is 5381 * 33^n plus the signed characters as digits in
      base 33, wrapped to 64 bits at the end. */
  lemma {:induction false} HashIs(s: seq<byte>)
    ensures Hash(s) == (5381 * Pow33(|s|) + Digits(s)) % SIZE_MAX_PLUS_1
  {
    if s != [] {
      var init, c := s[..|s| - 1], s[|s| - 1];
      HashIs(init);
      assert s == init + [c];
      DigitsSnoc(init, c);
      assert Pow33(|s|) == 33 * Pow33(|s| - 1);
      WrapStep(5381 * Pow33(|init|) + Digits(init), Hash(init), CharToSize(c), Signed(c), SIZE_MAX_PLUS_1);
    }
  }

  method HashString(s: seq<byte>) returns (hash: nat)
    ensures hash == Hash(s)
  {
    hash := 5381;
    for i := 0 to |s|
      invariant hash == Hash(s[..i])
    {
      assert s[..i + 1][..i] == s[..i];
      hash := (hash * 32 + hash + CharToSize(s[i])) % SIZE_MAX_PLUS_1;
    }
    assert s[..|s|] == s;
  }

  /** strncmp(a, b, n) == 0 on buffers of n bytes: equal up to n or a common NUL. */
  predicate SameUpToNul(a: seq<byte>, b: seq<byte>)
    requires |a| == |b|
  {
    a != [] ==> a[0] == b[0] && (a[0] != 0 ==> SameUpToNul(a[1..], b[1..]))
  }

  predicate CompareSpec(a: seq<byte>, b: seq<byte>) {
    |a| == |b| && SameUpToNul(a, b)
  }

  method CompareString(a: seq<byte>, b: seq<byte>) returns (same: bool)
    ensures same == CompareSpec(a, b)
  {
    if |a| != |b| {
      return false;
    }
    var i := 0;
    while i < |a|
      invariant i <= |a| && SameUpToNul(a, b) == SameUpToNul(a[i..], b[i..])
    {
      assert a[i..][1..] == a[i + 1..] && b[i..][1..] == b[i + 1..];
      if a[i] != b[i] {
        return false;
      }
      if a[i] == 0 {
        return true;
      }
      i := i + 1;
    }
    return true;
  }

  /** Both strings have the same first k bytes and then a NUL. */
  predicate SharedNul(a: seq<byte>, b: seq<byte>, k: int)
    requires |a| == |b|
  {
    0 <= k < |a| && a[k] == 0 && a[..k + 1] == b[..k + 1]
  }

  /** The comparison is equality except when both strings continue differently
      after a common prefix that ends in NUL. */
  lemma {:induction false} CompareExactly(a: seq<byte>, b: seq<byte>)
    ensures CompareSpec(a, b) <==>
            a == b || (|a| == |b| && exists k :: SharedNul(a, b, k))
    decreases a
  {
    if |a| == |b| && a != [] {
      if a[0] == b[0] {
        if a[0] == 0 {
          assert a[..1] == b[..1];
          assert SharedNul(a, b, 0);
        } else {
          CompareExactly(a[1..], b[1..]);
          if k :| SharedNul(a, b, k) {
            assert a[1..][..k] == a[..k + 1][1..] == b[..k + 1][1..] == b[1..][..k];
            assert SharedNul(a[1..], b[1..], k - 1);
          }
          if k :| SharedNul(a[1..], b[1..], k) {
            assert a[..k + 2] == [a[0]] + a[1..][..k + 1] && b[..k + 2] == [b[0]] + b[1..][..k + 1];
            assert SharedNul(a, b, k + 1);
          }
          assert a == [a[0]] + a[1..] && b == [b[0]] + b[1..];
        }
      } else {
        forall k: int | 0 <= k < |a| ensures !SharedNul(a, b, k) {
          assert a[..k + 1][0] != b[..k + 1][0];
        }
      }
    }
  }

  lemma PrefixAt(a: seq<byte>, b: seq<byte>, k: nat)
    requires k < |a| == |b| && a[..k + 1] == b[..k + 1]
    ensures a[k] == b[k]
  {
    assert a[..k + 1][k] == b[..k + 1][k];
  }

  /** Keys without a NUL compare equal only to themselves. */
  lemma KeysCompare(a: Key, b: Key)
    requires 0 !in a || 0 !in b
    ensures CompareSpec(a, b) <==> a == b
  {
    CompareExactly(a, b);
    if |a| == |b| {
      forall k: int | 0 <= k < |a| ensures !SharedNul(a, b, k) {
        if a[..k + 1] == b[..k + 1] {
          PrefixAt(a, b, k);
        }
      }
    }
  }

  lemma {:induction false} CompareSame(a: Key)
    ensures CompareSpec(a, a)
  {
    if a != [] {
      CompareSame(a[1..]);
    }
  }

  /** Comparing equal is an equivalence. */
  lemma {:induction false} CompareEuclidean(a: Key, b: Key, c: Key)
    requires CompareSpec(a, c) && CompareSpec(b, c)
    ensures CompareSpec(a, b)
    decreases a
  {
    if a != [] && a[0] != 0 {
      CompareEuclidean(a[1..], b[1..], c[1..]);
    }
  }

  lemma CompareSwap(a: Key, b: Key)
    ensures CompareSpec(a, b) <==> CompareSpec(b, a)
  {
    CompareSame(a);
    CompareSame(b);
    if CompareSpec(a, b) {
      CompareEuclidean(b, a, b);
    }
    if CompareSpec(b, a) {
      CompareEuclidean(a, b, a);
    }
  }

  // ---- Chains ----

  /** Position of the first sample whose key compares equal to k, or the length. */
  function IndexOf(c: Chain, k: Key): (i: nat)
    ensures i <= |c|
    ensures forall j :: 0 <= j < i ==> !CompareSpec(c[j].key, k)
    ensures i < |c| ==> CompareSpec(c[i].key, k)
  {
    if c == [] || CompareSpec(c[0].key, k) then 0 else 1 + IndexOf(c[1..], k)
  }

  function PutChain(c: Chain, s: Sample): Chain {
    var i := IndexOf(c, s.key);
    if i < |c| then c[i := s] else c + [s]
  }

  /** Replace, or append; on an empty chain, begin. */
  lemma PutCases(c: Chain, s: Sample)
    ensures IndexOf(c, s.key) < |c| ==> PutChain(c, s) == c[IndexOf(c, s.key) := s]
    ensures IndexOf(c, s.key) == |c| ==> PutChain(c, s) == c + [s] && (c == [] ==> PutChain(c, s) == [s])
  {
    assert [] + [s] == [s];
  }

  function DelChain(c: Chain, k: Key): Chain {
    var i := IndexOf(c, k);
    if i < |c| then c[..i] + c[i + 1..] else c
  }

  function Bin(k: Key, n: nat): (b: nat)
    requires n > 0
    ensures b < n
  {
    Hash(k) % n
  }

  function Put(t: Bins, s: Sample): Bins
    requires |t| > 0
  {
    var b := Bin(s.key, |t|);
    t[b := PutChain(t[b], s)]
  }

  function Del(t: Bins, k: Key): Bins
    requires |t| > 0
  {
    var b := Bin(k, |t|);
    t[b := DelChain(t[b], k)]
  }

  /** No two keys of a chain compare equal; in particular none is repeated. */
  predicate Unlike(c: Chain) {
    forall i, j :: 0 <= i < j < |c| ==> !CompareSpec(c[i].key, c[j].key)
  }

  predicate DistinctKeys(c: Chain) {
    forall i, j :: 0 <= i < j < |c| ==> c[i].key != c[j].key
  }

  lemma UnlikeDistinct(c: Chain)
    requires Unlike(c)
    ensures DistinctKeys(c)
  {
    forall i, j | 0 <= i < j < |c| ensures c[i].key != c[j].key {
      CompareSame(c[i].key);
    }
  }

  /** No two keys of a chain compare equal, and every key is in its hash bin. */
  ghost predicate WellPlaced(t: Bins) {
    && |t| > 0
    && (forall b :: 0 <= b < |t| ==> Unlike(t[b]))
    && (forall b, i :: 0 <= b < |t| && 0 <= i < |t[b]| ==> Bin(t[b][i].key, |t|) == b)
  }

  /** What storage_find returns. */
  datatype Option<+T> = None | Some(value: T)

  function Lookup(t: Bins, k: Key): Option<Sample>
    requires |t| > 0
  {
    var c := t[Bin(k, |t|)];
    var i := IndexOf(c, k);
    if i < |c| then Some(c[i]) else None
  }

  /** The finite map a table stands for: the keys and payloads of its samples. */
  ghost predicate Represents(t: Bins, m: map<Key, seq<byte>>)
    requires |t| > 0
  {
    forall s: Sample :: s in t[Bin(s.key, |t|)] <==> s.key in m && m[s.key] == s.payload
  }

  lemma RepresentsOne(t: Bins, m: map<Key, seq<byte>>, m': map<Key, seq<byte>>)
    requires |t| > 0 && Represents(t, m) && Represents(t, m')
    ensures m == m'
  {
    forall k | k in m ensures k in m' && m'[k] == m[k] {
      assert Sample(k, m[k]) in t[Bin(k, |t|)];
    }
    forall k | k in m' ensures k in m {
      assert Sample(k, m'[k]) in t[Bin(k, |t|)];
    }
  }

  lemma PutChainLaws(c: Chain, s: Sample)
    requires Unlike(c)
    ensures Unlike(PutChain(c, s))
    ensures forall x :: x in PutChain(c, s) <==> x == s || (x in c && !CompareSpec(x.key, s.key))
  {
    var p := IndexOf(c, s.key);
    var d := PutChain(c, s);
    var q := if p < |c| then p else |c|;
    assert d[q] == s;
    forall i | 0 <= i < |c| && i != p ensures !CompareSpec(c[i].key, s.key) && d[i] == c[i] {
      if p < |c| && CompareSpec(c[i].key, s.key) {
        CompareEuclidean(c[i].key, c[p].key, s.key);
        CompareSwap(c[i].key, c[p].key);
      }
    }
    forall i, j | 0 <= i < j < |d| ensures !CompareSpec(d[i].key, d[j].key) {
      if i == q {
        CompareSwap(s.key, d[j].key);
      }
    }
  }

  lemma DelChainLaws(c: Chain, k: Key)
    requires Unlike(c)
    ensures Unlike(DelChain(c, k))
    ensures forall x :: x in DelChain(c, k) <==> x in c && !CompareSpec(x.key, k)
  {
    var p := IndexOf(c, k);
    var d := DelChain(c, k);
    forall i | 0 <= i < |c| && i != p ensures !CompareSpec(c[i].key, k) {
      if p < |c| && CompareSpec(c[i].key, k) {
        CompareEuclidean(c[i].key, c[p].key, k);
        CompareSwap(c[i].key, c[p].key);
      }
    }
    if p < |c| {
      assert forall x :: 0 <= x < p ==> d[x] == c[x];
      assert forall x :: p <= x < |d| ==> d[x] == c[x + 1];
      assert forall x :: p < x < |c| ==> c[x] == d[x - 1];
    }
  }

  // ---- The finite map, exactly ----

  /** The table has one place for both keys. */
  predicate SameSlot(a: Key, b: Key, n: nat)
    requires n > 0
  {
    Bin(a, n) == Bin(b, n) && CompareSpec(a, b)
  }

  /** storage_insert on the map: it takes the place of every key in its slot. */
  function PutMap(m: map<Key, seq<byte>>, s: Sample, n: nat): map<Key, seq<byte>>
    requires n > 0
  {
    DelMap(m, s.key, n)[s.key := s.payload]
  }

  /** storage_remove on the map. */
  function DelMap(m: map<Key, seq<byte>>, k: Key, n: nat): map<Key, seq<byte>>
    requires n > 0
  {
    map q | q in m && !SameSlot(q, k, n) :: m[q]
  }

  /** No other key of the map is in the slot of k. */
  ghost predicate Alone(m: map<Key, seq<byte>>, k: Key, n: nat)
    requires n > 0
  {
    forall q | q in m && q != k :: !SameSlot(q, k, n)
  }

  /** Insert and remove are those of a finite map exactly when no other key of the
      map is in the slot of theirs. */
  lemma MapExactly(m: map<Key, seq<byte>>, s: Sample, n: nat)
    requires n > 0
    ensures PutMap(m, s, n) == m[s.key := s.payload] <==> Alone(m, s.key, n)
    ensures DelMap(m, s.key, n) == m - {s.key} <==> Alone(m, s.key, n)
  {
    var k := s.key;
    CompareSame(k);
    assert SameSlot(k, k, n);
    if Alone(m, k, n) {
      assert DelMap(m, k, n) == m - {k};
      assert PutMap(m, s, n) == m[k := s.payload];
    } else {
      var q :| q in m && q != k && SameSlot(q, k, n);
      assert q in m - {k} && q !in DelMap(m, k, n);
      assert q in m[k := s.payload] && q !in PutMap(m, s, n);
    }
  }

  lemma PutRefines(t: Bins, s: Sample, m: map<Key, seq<byte>>)
    requires WellPlaced(t) && Represents(t, m)
    ensures WellPlaced(Put(t, s)) && Represents(Put(t, s), PutMap(m, s, |t|))
  {
    var b := Bin(s.key, |t|);
    PutChainLaws(t[b], s);
    CompareSame(s.key);
    var t': Bins := Put(t, s);
    forall c: int, i: int | 0 <= c < |t'| && 0 <= i < |t'[c]| ensures Bin(t'[c][i].key, |t'|) == c {
      if c == b {
        assert t'[c][i] in PutChain(t[b], s);
      }
    }
    forall x: Sample
      ensures x in t'[Bin(x.key, |t'|)] <==> x.key in PutMap(m, s, |t|) && PutMap(m, s, |t|)[x.key] == x.payload
    {
      assert x in t[Bin(x.key, |t|)] <==> x.key in m && m[x.key] == x.payload;
    }
  }

  lemma DelRefines(t: Bins, k: Key, m: map<Key, seq<byte>>)
    requires WellPlaced(t) && Represents(t, m)
    ensures WellPlaced(Del(t, k)) && Represents(Del(t, k), DelMap(m, k, |t|))
  {
    var b := Bin(k, |t|);
    DelChainLaws(t[b], k);
    var t': Bins := Del(t, k);
    forall c: int, i: int | 0 <= c < |t'| && 0 <= i < |t'[c]| ensures Bin(t'[c][i].key, |t'|) == c {
      if c == b {
        assert t'[c][i] in DelChain(t[b], k);
      }
    }
    forall x: Sample
      ensures x in t'[Bin(x.key, |t'|)] <==> x.key in DelMap(m, k, |t|) && DelMap(m, k, |t|)[x.key] == x.payload
    {
      assert x in t[Bin(x.key, |t|)] <==> x.key in m && m[x.key] == x.payload;
    }
  }

  /** storage_find returns the stored sample in the slot of k, if there is one. */
  lemma LookupIs(t: Bins, k: Key, m: map<Key, seq<byte>>)
    requires WellPlaced(t) && Represents(t, m)
    ensures match Lookup(t, k)
            case None => forall q | q in m :: !SameSlot(q, k, |t|)
            case Some(s) => s.key in m && m[s.key] == s.payload && SameSlot(s.key, k, |t|)
  {
    var c := t[Bin(k, |t|)];
    var i := IndexOf(c, k);
    if i < |c| {
      assert c[i] in t[Bin(c[i].key, |t|)];
    } else {
      forall q | q in m ensures !SameSlot(q, k, |t|) {
        var s := Sample(q, m[q]);
        assert s in t[Bin(s.key, |t|)];
      }
    }
  }

  /** It finds what the finite map holds for k exactly when no other key of the map is
      in the slot of k. */
  lemma LookupExactly(t: Bins, k: Key, m: map<Key, seq<byte>>)
    requires WellPlaced(t) && Represents(t, m)
    ensures Lookup(t, k) == (if k in m then Some(Sample(k, m[k])) else None) <==> Alone(m, k, |t|)
  {
    LookupIs(t, k, m);
    CompareSame(k);
    assert SameSlot(k, k, |t|);
    var l := Lookup(t, k);
    if l.Some? && k in m {
      OneInSlot(t, l.value, Sample(k, m[k]), k);
    }
    if q :| q in m && q != k && SameSlot(q, k, |t|) {
      assert Sample(q, m[q]) in t[Bin(q, |t|)];
      OneInSlot(t, l.value, Sample(q, m[q]), k);
    }
  }

  /** A slot holds one sample at most. */
  lemma OneInSlot(t: Bins, x: Sample, y: Sample, k: Key)
    requires WellPlaced(t) && x in t[Bin(k, |t|)] && y in t[Bin(k, |t|)]
    requires CompareSpec(x.key, k) && CompareSpec(y.key, k)
    ensures x == y
  {
    var c := t[Bin(k, |t|)];
    var i, j :| 0 <= i < |c| && 0 <= j < |c| && c[i] == x && c[j] == y;
    CompareEuclidean(x.key, y.key, k);
    CompareEuclidean(y.key, x.key, k);
    assert i == j;
  }

  // ---- Whole runs of the subscriber ----

  /** What the subscriber receives: Z_SAMPLE_KIND_PUT or Z_SAMPLE_KIND_DELETE. */
  datatype Event = PutEvent(sample: Sample) | DeleteEvent(key: Key)

  function Apply(t: Bins, ops: seq<Event>): (r: Bins)
    requires |t| > 0
    ensures |r| == |t|
  {
    if ops == [] then t
    else
      ApplyOne(Apply(t, ops[..|ops| - 1]), ops[|ops| - 1])
  }

  function ApplyOne(t: Bins, e: Event): (r: Bins)
    requires |t| > 0
    ensures |r| == |t|
  {
    match e
    case PutEvent(s) => Put(t, s)
    case DeleteEvent(k) => Del(t, k)
  }

  function ApplyMap(m: map<Key, seq<byte>>, ops: seq<Event>): map<Key, seq<byte>> {
    if ops == [] then m
    else
      var u := ApplyMap(m, ops[..|ops| - 1]);
      match ops[|ops| - 1]
      case PutEvent(s) => u[s.key := s.payload]
      case DeleteEvent(k) => u - {k}
  }

  function Empty(n: nat): (t: Bins)
    ensures |t| == n && forall b :: 0 <= b < n ==> t[b] == []
  {
    seq(n, _ => [])
  }

  function KeyOf(e: Event): Key {
    match e
    case PutEvent(s) => s.key
    case DeleteEvent(k) => k
  }

  /** The events on the map, slot by slot. */
  function ApplySlots(n: nat, ops: seq<Event>): map<Key, seq<byte>>
    requires n > 0
  {
    if ops == [] then map[]
    else
      ApplyOneSlot(ApplySlots(n, ops[..|ops| - 1]), ops[|ops| - 1], n)
  }

  function ApplyOneSlot(m: map<Key, seq<byte>>, e: Event, n: nat): map<Key, seq<byte>>
    requires n > 0
  {
    match e
    case PutEvent(s) => PutMap(m, s, n)
    case DeleteEvent(k) => DelMap(m, k, n)
  }

  lemma RunNothing(n: nat)
    requires n > 0
    ensures Apply(Empty(n), []) == Empty(n) && ApplySlots(n, []) == map[]
  {
  }

  lemma RunNext(n: nat, ops: seq<Event>, i: nat)
    requires n > 0 && i < |ops|
    ensures Apply(Empty(n), ops[..i + 1]) == ApplyOne(Apply(Empty(n), ops[..i]), ops[i])
    ensures ApplySlots(n, ops[..i + 1]) == ApplyOneSlot(ApplySlots(n, ops[..i]), ops[i], n)
  {
    assert ops[..i + 1][..i] == ops[..i];
  }

  /** After any sequence of puts and deletes the table is the map they make slot by
      slot. */
  lemma {:induction false} RunIs(n: nat, ops: seq<Event>)
    requires n > 0
    ensures WellPlaced(Apply(Empty(n), ops)) && Represents(Apply(Empty(n), ops), ApplySlots(n, ops))
  {
    if ops != [] {
      var before := ops[..|ops| - 1];
      RunIs(n, before);
      var t, m := Apply(Empty(n), before), ApplySlots(n, before);
      match ops[|ops| - 1]
      case PutEvent(s) => PutRefines(t, s, m);
      case DeleteEvent(k) => DelRefines(t, k, m);
    }
  }

  /** No event meets another key in its slot. */
  ghost predicate Apart(n: nat, ops: seq<Event>)
    requires n > 0
  {
    forall i | 0 <= i < |ops| :: Alone(ApplyMap(map[], ops[..i]), KeyOf(ops[i]), n)
  }

  /** After every event the table is the finite map of the events so far. */
  ghost predicate Follows(n: nat, ops: seq<Event>)
    requires n > 0
  {
    forall i | 0 <= i <= |ops| :: Represents(Apply(Empty(n), ops[..i]), ApplyMap(map[], ops[..i]))
  }

  /** The table follows the finite map of a run's puts and deletes, after every one of
      them, if and only if none of them meets another key in its slot. */
  lemma {:induction false} RunRefinesMap(n: nat, ops: seq<Event>)
    requires n > 0
    ensures Follows(n, ops) <==> Apart(n, ops)
    ensures Apart(n, ops) ==> ApplySlots(n, ops) == ApplyMap(map[], ops)
  {
    if ops == [] {
      RunIs(n, ops);
    } else {
      hide Represents, Alone, Apart, Follows, ApplySlots, ApplyMap, Apply;
      var before, e := ops[..|ops| - 1], ops[|ops| - 1];
      assert ops == before + [e];
      RunRefinesMap(n, before);
      FollowsStep(n, before, e);
      ApartStep(n, before, e);
      if Apart(n, before) {
        EventExactly(n, before, e);
      }
    }
  }

  /** One more event on a map that agrees so far. */
  lemma EventExactly(n: nat, ops: seq<Event>, e: Event)
    requires n > 0 && ApplySlots(n, ops) == ApplyMap(map[], ops)
    ensures ApplySlots(n, ops + [e]) == ApplyMap(map[], ops + [e]) <==> Alone(ApplyMap(map[], ops), KeyOf(e), n)
  {
    assert (ops + [e])[..|ops|] == ops;
    MapExactly(ApplyMap(map[], ops), if e.PutEvent? then e.sample else Sample(e.key, []), n);
  }

  lemma ApartStep(n: nat, ops: seq<Event>, e: Event)
    requires n > 0
    ensures Apart(n, ops + [e]) <==> Apart(n, ops) && Alone(ApplyMap(map[], ops), KeyOf(e), n)
  {
    var all := ops + [e];
    assert all[..|ops|] == ops && forall i | 0 <= i < |ops| :: all[..i] == ops[..i] && all[i] == ops[i];
    assert all[|ops|] == e;
  }

  lemma FollowsStep(n: nat, ops: seq<Event>, e: Event)
    requires n > 0
    ensures Follows(n, ops + [e]) <==> Follows(n, ops) && ApplySlots(n, ops + [e]) == ApplyMap(map[], ops + [e])
  {
    hide Represents, ApplyMap, ApplySlots, Apply;
    var all := ops + [e];
    assert all[..|all|] == all && forall i | 0 <= i <= |ops| :: all[..i] == ops[..i];
    RunIs(n, all);
    if Represents(Apply(Empty(n), all), ApplyMap(map[], all)) {
      RepresentsOne(Apply(Empty(n), all), ApplySlots(n, all), ApplyMap(map[], all));
    }
  }

  /** It does whenever no two different keys of the run share a slot, and so whenever
      they hold no NUL, for any number of bins. */
  lemma UnlikeKeysApart(n: nat, ops: seq<Event>)
    requires n > 0
    requires forall i, j | 0 <= i < j < |ops| && KeyOf(ops[i]) != KeyOf(ops[j]) ::
               !SameSlot(KeyOf(ops[i]), KeyOf(ops[j]), n)
    ensures Apart(n, ops)
  {
    forall j | 0 <= j < |ops| ensures Alone(ApplyMap(map[], ops[..j]), KeyOf(ops[j]), n) {
      MapKeys(ops[..j]);
    }
  }

  lemma {:induction false} MapKeys(ops: seq<Event>)
    ensures forall q | q in ApplyMap(map[], ops) :: exists i :: 0 <= i < |ops| && KeyOf(ops[i]) == q
  {
    if ops != [] {
      var before := ops[..|ops| - 1];
      MapKeys(before);
      forall q | q in ApplyMap(map[], ops) ensures exists i :: 0 <= i < |ops| && KeyOf(ops[i]) == q {
        if q in ApplyMap(map[], before) {
          var i :| 0 <= i < |before| && KeyOf(before[i]) == q;
          assert KeyOf(ops[i]) == q;
        } else {
          assert KeyOf(ops[|ops| - 1]) == q;
        }
      }
    }
  }

  lemma NulFreeApart(n: nat, ops: seq<Event>)
    requires n > 0 && forall i | 0 <= i < |ops| :: 0 !in KeyOf(ops[i])
    ensures Apart(n, ops)
  {
    forall i, j | 0 <= i < j < |ops| && KeyOf(ops[i]) != KeyOf(ops[j])
      ensures !SameSlot(KeyOf(ops[i]), KeyOf(ops[j]), n)
    {
      KeysCompare(KeyOf(ops[i]), KeyOf(ops[j]));
    }
    UnlikeKeysApart(n, ops);
  }

  /** Two different keys with a NUL inside and one hash: "a", NUL, "bz" and "a", NUL,
      "cY". */
  const NUL_KEY1: Key := [97, 0, 98, 122]
  const NUL_KEY2: Key := [97, 0, 99, 89]

  lemma HashSnoc(s: seq<byte>, c: byte, h: nat)
    requires Hash(s) == h && c < 128 && h * 33 + c < SIZE_MAX_PLUS_1
    ensures Hash(s + [c]) == h * 33 + c
  {
    assert (s + [c])[..|s|] == s;
  }

  lemma NulKeysHash()
    ensures Hash(NUL_KEY1) == Hash(NUL_KEY2) == 6384930146
  {
    HashSnoc([], 97, 5381);
    assert [] + [97] == [97];
    HashSnoc([97], 0, 177670);
    assert [97] + [0] == [97, 0];
    HashSnoc([97, 0], 98, 5863110);
    assert [97, 0] + [98] == [97, 0, 98];
    HashSnoc([97, 0, 98], 122, 193482728);
    assert [97, 0, 98] + [122] == NUL_KEY1;
    HashSnoc([97, 0], 99, 5863110);
    assert [97, 0] + [99] == [97, 0, 99];
    HashSnoc([97, 0, 99], 89, 193482729);
    assert [97, 0, 99] + [89] == NUL_KEY2;
  }

  lemma NulKeysShareSlot(n: nat)
    requires n > 0
    ensures NUL_KEY1 != NUL_KEY2 && SameSlot(NUL_KEY1, NUL_KEY2, n)
  {
    hide Hash;
    NulKeysHash();
    assert NUL_KEY1[1..] == [0, 98, 122] && NUL_KEY2[1..] == [0, 99, 89];
    assert NUL_KEY1[2] != NUL_KEY2[2];
  }

  /** Storing one of them and then the other leaves one entry, for every number of
      bins. */
  lemma NulKeysOverwrite(n: nat, p: seq<byte>, q: seq<byte>)
    requires n > 0
    ensures var ops := [PutEvent(Sample(NUL_KEY1, p)), PutEvent(Sample(NUL_KEY2, q))];
            && ApplySlots(n, ops) == map[NUL_KEY2 := q] && !Follows(n, ops)
  {
    var e1, e2 := PutEvent(Sample(NUL_KEY1, p)), PutEvent(Sample(NUL_KEY2, q));
    NulKeysShareSlot(n);
    assert [e1, e2][..1] == [e1] && [e1][..0] == [];
    assert ApplySlots(n, [e1]) == map[NUL_KEY1 := p];
    assert ApplySlots(n, [e1, e2]) == map[NUL_KEY2 := q];
    assert NUL_KEY1 in ApplyMap(map[], [e1, e2]);
    assert [e1] + [e2] == [e1, e2];
    FollowsStep(n, [e1], e2);
  }

  // ---- Iteration order and queries ----

  function Flatten(t: Bins): Chain {
    if t == [] then [] else t[0] + Flatten(t[1..])
  }

  lemma FlattenStep(t: Bins, b: nat)
    requires b < |t|
    ensures Flatten(t[b..]) == t[b] + Flatten(t[b + 1..]) == t[b][0..] + Flatten(t[b + 1..])
  {
    assert t[b..][0] == t[b] && t[b..][1..] == t[b + 1..];
    assert t[b][0..] == t[b];
  }

  /** What is left to visit from position i of bin b on. */
  function Rest(t: Bins, b: nat, i: nat): Chain
    requires b <= |t| && (b < |t| ==> i <= |t[b]|)
  {
    if b == |t| then [] else t[b][i..] + Flatten(t[b + 1..])
  }

  lemma RestStep(t: Bins, b: nat, i: nat)
    requires b < |t| && i < |t[b]|
    ensures Rest(t, b, i) == [t[b][i]] + Rest(t, b, i + 1)
    ensures i + 1 == |t[b]| ==> Rest(t, b, i) == [t[b][i]] + Flatten(t[b + 1..])
  {
    var c, f := t[b][i + 1..], Flatten(t[b + 1..]);
    assert t[b][i..] == [t[b][i]] + c;
    assert ([t[b][i]] + c) + f == [t[b][i]] + (c + f);
  }

  function Filter(p: Key -> bool, c: Chain): Chain {
    if c == [] then []
    else (if p(c[0].key) then [c[0]] else []) + Filter(p, c[1..])
  }

  lemma FilterNothing(p: Key -> bool)
    ensures Filter(p, []) == []
  {
  }

  lemma FilterStep(p: Key -> bool, done: Chain, s: Sample, rest: Chain)
    ensures done + Filter(p, [s] + rest) == (if p(s.key) then done + [s] else done) + Filter(p, rest)
  {
    assert ([s] + rest)[1..] == rest;
    assert done + ([s] + Filter(p, rest)) == (done + [s]) + Filter(p, rest);
  }

  lemma {:induction false} FlattenMembers(t: Bins, s: Sample)
    ensures s in Flatten(t) <==> exists b :: 0 <= b < |t| && s in t[b]
  {
    if t != [] {
      FlattenMembers(t[1..], s);
      if s in Flatten(t[1..]) {
        var b :| 0 <= b < |t[1..]| && s in t[1..][b];
        assert s in t[b + 1];
      }
      if b :| 0 <= b < |t| && s in t[b] && s !in t[0] {
        assert s in t[1..][b - 1];
      }
    }
  }

  /** Distinct keys over the whole table, when they are distinct per chain and
      every chain only holds keys of its own class. */
  lemma {:induction false} FlattenDistinct(t: Bins, first: nat, n: nat)
    requires n > 0 && (forall b :: 0 <= b < |t| ==> DistinctKeys(t[b]))
    requires forall b, i :: 0 <= b < |t| && 0 <= i < |t[b]| ==> Bin(t[b][i].key, n) == first + b
    ensures DistinctKeys(Flatten(t))
  {
    if t != [] {
      var rest := Flatten(t[1..]);
      FlattenDistinct(t[1..], first + 1, n);
      forall i, j | 0 <= i < j < |t[0] + rest| ensures (t[0] + rest)[i].key != (t[0] + rest)[j].key {
        if i < |t[0]| <= j {
          var x := rest[j - |t[0]|];
          FlattenMembers(t[1..], x);
          var b :| 0 <= b < |t[1..]| && x in t[1..][b];
          assert t[1..][b] == t[b + 1];
        }
      }
    }
  }

  lemma {:induction false} FilterLaws(p: Key -> bool, c: Chain)
    requires DistinctKeys(c)
    ensures DistinctKeys(Filter(p, c))
    ensures forall s :: s in Filter(p, c) <==> s in c && p(s.key)
  {
    if c != [] {
      FilterLaws(p, c[1..]);
      assert c == [c[0]] + c[1..];
      var f := Filter(p, c[1..]);
      assert forall j :: 0 <= j < |f| ==> f[j] in c[1..];
      assert forall x | x in c[1..] :: x.key != c[0].key;
    }
  }

  /** A query is answered with exactly the stored entries whose key it intersects,
      each once. */
  lemma QueryAnswers(t: Bins, m: map<Key, seq<byte>>, intersects: Key -> bool)
    requires WellPlaced(t) && Represents(t, m)
    ensures var replies := Filter(intersects, Flatten(t));
            && DistinctKeys(replies)
            && forall s: Sample :: s in replies <==> s.key in m && m[s.key] == s.payload && intersects(s.key)
  {
    forall b | 0 <= b < |t| ensures DistinctKeys(t[b]) {
      UnlikeDistinct(t[b]);
    }
    FlattenDistinct(t, 0, |t|);
    FilterLaws(intersects, Flatten(t));
    forall s: Sample ensures s in Flatten(t) <==> s.key in m && m[s.key] == s.payload {
      FlattenMembers(t, s);
      assert s in t[Bin(s.key, |t|)] <==> s.key in m && m[s.key] == s.payload;
    }
  }
}
