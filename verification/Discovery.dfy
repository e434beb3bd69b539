/** Topic discovery: node.cc prints what a publisher or service offers into a
    liveliness key, talosos_tool.cc parses the keys into a registry and prints it, and
    topic.py reads the printed lines. */
module Discovery {
  import opened Splitting

  datatype Option<+T> = None | Some(value: T)

  // ---- Names (node.cc) ----

  function StripLeadingSlash(s: string): (r: string)
    ensures r == [] || r[0] != '/'
  {
    if s != [] && s[0] == '/' then StripLeadingSlash(s[1..]) else s
  }

  /** The loop of StripLeadingSlash, and substr from where it stops. */
  method StripSlashes(s: string) returns (r: string)
    ensures r == StripLeadingSlash(s)
  {
    var i := 0;
    while i < |s| && s[i] == '/'
      invariant i <= |s| && StripLeadingSlash(s[i..]) == StripLeadingSlash(s)
    {
      assert s[i..][1..] == s[i + 1..];
      i := i + 1;
    }
    r := s[i..];
  }

  /** It removes the leading slashes, all of them, and nothing else. */
  lemma {:induction false} StripIs(s: string)
    ensures var r := StripLeadingSlash(s);
            |r| <= |s| && s[|s| - |r|..] == r && forall k :: 0 <= k < |s| - |r| ==> s[k] == '/'
  {
    if s != [] && s[0] == '/' {
      var t, r := s[1..], StripLeadingSlash(s[1..]);
      assert StripLeadingSlash(s) == r;
      StripIs(t);
      hide StripLeadingSlash;
      OneMoreSlash(s, t, |t| - |r|);
    } else {
      assert s[0..] == s;
    }
  }

  lemma OneMoreSlash(s: string, t: string, n: nat)
    requires s != [] && s[0] == '/' && t == s[1..] && n <= |t| && forall k :: 0 <= k < n ==> t[k] == '/'
    ensures s[n + 1..] == t[n..] && forall k :: 0 <= k < n + 1 ==> s[k] == '/'
  {
    forall k | 0 < k < n + 1 ensures s[k] == '/' {
      assert s[k] == t[k - 1];
    }
  }

  function JoinKey(a: string, b: string): string {
    if a == [] then b
    else if b == [] then a
    else
      var aTrails, bLeads := a[|a| - 1] == '/', b[0] == '/';
      if aTrails && bLeads then a + b[1..]
      else if aTrails || bLeads then a + b
      else a + "/" + b
  }

  datatype Node = Node(name: string, ns: string) {
    function FullyQualifiedName(): string { JoinKey(StripLeadingSlash(ns), name) }

    function ResolveTopic(topic: string): string {
      if topic == [] then FullyQualifiedName()
      else if topic[0] == '/' then StripLeadingSlash(topic)
      else if |topic| >= 2 && topic[0] == '~' && topic[1] == '/' then JoinKey(FullyQualifiedName(), topic[2..])
      else JoinKey(FullyQualifiedName(), topic)
    }
  }

  predicate LeadsWithSlash(s: string) { s != [] && s[0] == '/' }

  /** A resolved key starts with a slash only through a node name that does, in the
      empty namespace, or through `~//` on a nameless node. */
  lemma ResolvedKey(n: Node, topic: string)
    requires !LeadsWithSlash(n.name) && n.name != ""
    ensures !LeadsWithSlash(n.ResolveTopic(topic)) && n.FullyQualifiedName() != ""
  {
  }

  // ---- Liveliness keys ----

  /** A type name with '/' written as '_'. */
  function SafeType(t: string): (r: string)
    ensures |r| == |t| && '/' !in r
    ensures '/' !in t ==> r == t
  {
    if t == [] then [] else [if t[0] == '/' then '_' else t[0]] + SafeType(t[1..])
  }

  const PUB := "pub"
  const SRV := "srv"

  /** CreateRawPublisher; CreateRawService prints the same with kind srv and no type. */
  function LiveKey(kind: string, key: string, typeName: string, fqn: string): string {
    var safe := SafeType(typeName);
    "_talos/" + kind + "/" + key + (if safe != "" then "/_t/" + safe else "") + "/_n/" + fqn
  }

  lemma {:induction false} SafeTypeAt(t: string, k: nat)
    requires k < |t|
    ensures SafeType(t)[k] == if t[k] == '/' then '_' else t[k]
  {
    if k > 0 {
      SafeTypeAt(t[1..], k - 1);
    }
  }

  /** for (char& c : safe_type) if (c == '/') c = '_'; */
  method ReplaceSlashes(t: string) returns (safe: string)
    ensures safe == SafeType(t) && |safe| == |t|
    ensures forall k | 0 <= k < |t| :: safe[k] == if t[k] == '/' then '_' else t[k]
  {
    safe := t;
    for i := 0 to |safe|
      invariant |safe| == |t|
      invariant forall k :: 0 <= k < |t| ==> safe[k] == if k < i && t[k] == '/' then '_' else t[k]
    {
      if safe[i] == '/' {
        safe := safe[i := '_'];
      }
    }
    forall k | 0 <= k < |t| ensures SafeType(t)[k] == safe[k] {
      SafeTypeAt(t, k);
    }
  }

  /** The edits in place by which CreateRawPublisher builds its key; a service skips
      the type. */
  method BuildLiveKey(kind: string, key: string, typeName: string, fqn: string) returns (liveKey: string)
    ensures liveKey == LiveKey(kind, key, typeName, fqn)
  {
    var safe := ReplaceSlashes(typeName);
    liveKey := "_talos/" + kind + "/" + key;
    if safe != "" {
      liveKey := liveKey + ("/_t/" + safe);
    }
    liveKey := liveKey + "/_n/" + fqn;
  }

  /** Position of the first part equal to mark from i on, or the number of parts. */
  function FirstAt(parts: seq<string>, mark: string, i: nat): (k: nat)
    requires i <= |parts|
    ensures i <= k <= |parts|
    ensures k < |parts| ==> parts[k] == mark
    ensures forall j :: i <= j < k ==> parts[j] != mark
    decreases |parts| - i
  {
    if i == |parts| || parts[i] == mark then i else FirstAt(parts, mark, i + 1)
  }

  datatype Announcement = Announcement(key: string, typeName: string, node: string)

  /** What on_reply reads from the segments of a liveliness key. */
  function ParseParts(parts: seq<string>): Option<Announcement> {
    if |parts| < 4 || parts[0] != "_talos" then None
    else
      var n, t := FirstAt(parts, "_n", 2), FirstAt(parts, "_t", 2);
      if n + 1 >= |parts| then None
      else
        Some(Announcement(
          Join('/', parts[2..if t < n then t else n]),
          if t < n then Join('/', parts[t + 1..n]) else "",
          Join('/', parts[n + 1..])))
  }

  function Parse(k: string): Option<Announcement> { ParseParts(Split('/', k)) }

  /** The segments of a key that the parser takes for its own markers. */
  predicate Unmarked(key: string) { "_t" !in Split('/', key) && "_n" !in Split('/', key) }

  lemma SplitSegment(p: string, rest: string)
    requires '/' !in p
    ensures Split('/', p + "/" + rest) == [p] + Split('/', rest)
  {
    SplitAppend('/', p, rest);
    SplitNone('/', p);
  }

  /** The end of a liveliness key, from the markers on. */
  function Suffix(safe: string, fqn: string): string {
    if safe != "" then "_t" + "/" + (safe + "/" + ("_n" + "/" + fqn)) else "_n" + "/" + fqn
  }

  lemma SuffixParts(safe: string, fqn: string)
    requires '/' !in safe
    ensures Split('/', Suffix(safe, fqn)) == (if safe != "" then ["_t", safe] else []) + ["_n"] + Split('/', fqn)
  {
    SplitSegment("_n", fqn);
    if safe != "" {
      SplitSegment(safe, "_n" + "/" + fqn);
      SplitSegment("_t", safe + "/" + ("_n" + "/" + fqn));
    }
  }

  lemma Regroup<T>(a: seq<T>, b: seq<T>, c: seq<T>, d: seq<T>, e: seq<T>, f: seq<T>, g: seq<T>)
    ensures a + b + c + d + e + f + g == a + (b + (c + (d + (e + (f + g)))))
  {
  }

  lemma LiveKeyGrouped(kind: string, key: string, typeName: string, fqn: string)
    ensures LiveKey(kind, key, typeName, fqn)
         == "_talos" + "/" + (kind + "/" + (key + "/" + Suffix(SafeType(typeName), fqn)))
  {
    var safe := SafeType(typeName);
    var typed := if safe != "" then "/_t/" + safe else "";
    var suffix := Suffix(safe, fqn);
    Regroup("_talos/", kind, "/", key, typed, "/_n/", fqn);
    assert "_talos/" == "_talos" + "/" && "/_n/" == "/" + "_n" + "/" && "/_t/" == "/" + "_t" + "/";
    assert typed + ("/_n/" + fqn) == "/" + suffix by {
      var n := "_n" + "/" + fqn;
      assert "/_n/" + fqn == "/" + n;
      if safe != "" {
        assert ("/" + "_t" + "/" + safe) + ("/" + n) == "/" + ("_t" + "/" + (safe + "/" + n));
      } else {
        assert "" + ("/" + n) == "/" + n;
      }
    }
    assert key + ("/" + suffix) == key + "/" + suffix;
    assert kind + ("/" + (key + "/" + suffix)) == kind + "/" + (key + "/" + suffix);
  }

  lemma LiveKeyParts(kind: string, key: string, typeName: string, fqn: string)
    requires '/' !in kind
    ensures Split('/', LiveKey(kind, key, typeName, fqn))
         == ["_talos", kind] + Split('/', key)
            + ((if SafeType(typeName) != "" then ["_t", SafeType(typeName)] else []) + ["_n"] + Split('/', fqn))
  {
    var suffix := Suffix(SafeType(typeName), fqn);
    LiveKeyGrouped(kind, key, typeName, fqn);
    SuffixParts(SafeType(typeName), fqn);
    SplitAppend('/', key, suffix);
    SplitSegment(kind, key + "/" + suffix);
    SplitSegment("_talos", kind + "/" + (key + "/" + suffix));
    TwoInFront("_talos", kind, Split('/', key), Split('/', suffix));
  }

  lemma TwoInFront<T>(a: T, b: T, c: seq<T>, d: seq<T>)
    ensures [a] + ([b] + (c + d)) == [a, b] + c + d
  {
  }

  // ---- Reading the key back ----

  lemma FirstAtIs(parts: seq<string>, mark: string, i: nat, k: nat)
    requires i <= k < |parts| && parts[k] == mark && forall j :: i <= j < k ==> parts[j] != mark
    ensures FirstAt(parts, mark, i) == k
  {
  }

  /** Fewer segments than a key has never join to that key. */
  lemma Truncated(key: string, m: nat)
    requires m < |Split('/', key)| && Split('/', key)[m] != ""
    ensures Join('/', Split('/', key)[..m]) != key
  {
    JoinSplit('/', key);
    if m > 0 {
      SplitJoin('/', Split('/', key)[..m]);
    }
  }

  /** Parsing a liveliness key recovers topic key, type (with slashes replaced) and
      node exactly when no segment of the key is `_t` or `_n` and the type is not
      `_n`. */
  lemma ParseExactly(kind: string, key: string, typeName: string, fqn: string)
    requires '/' !in kind
    ensures Parse(LiveKey(kind, key, typeName, fqn)) == Some(Announcement(key, SafeType(typeName), fqn))
            <==> Unmarked(key) && SafeType(typeName) != "_n"
  {
    var k, t, f, safe := LiveKey(kind, key, typeName, fqn), Split('/', key), Split('/', fqn), SafeType(typeName);
    var typed := if safe != "" then ["_t", safe] else [];
    LiveKeyParts(kind, key, typeName, fqn);
    var parts := ["_talos", kind] + t + (typed + ["_n"] + f);
    JoinSplit('/', key);
    JoinSplit('/', fqn);
    if Unmarked(key) {
      ParseClean(kind, t, safe, f);
    } else {
      var m := FirstMark(t);
      ParseMarked(kind, t, typed + ["_n"] + f, m);
      Truncated(key, m);
    }
  }

  /** A topic a/_t/b announced without a type is read as topic a of type b. */
  lemma MarkedKeyMisread()
    ensures Parse(LiveKey(PUB, "a/_t/b", "", "n")) == Some(Announcement("a", "b", "n"))
  {
    MarkedKeyParts();
    hide LiveKey;
    var parts := ["_talos", PUB, "a", "_t", "b", "_n", "n"];
    FirstAtIs(parts, "_t", 2, 3);
    FirstAtIs(parts, "_n", 2, 5);
    assert parts[2..3] == ["a"] && parts[4..5] == ["b"] && parts[6..] == ["n"];
  }

  lemma MarkedKeyParts()
    ensures Split('/', LiveKey(PUB, "a/_t/b", "", "n")) == ["_talos", PUB, "a", "_t", "b", "_n", "n"]
  {
    hide LiveKey;
    var key := "a/_t/b";
    assert key == "a" + "/" + ("_t" + "/" + "b");
    SplitSegment("a", "_t" + "/" + "b");
    SplitSegment("_t", "b");
    SplitNone('/', "b");
    SplitNone('/', "n");
    LiveKeyParts(PUB, key, "", "n");
    hide Split;
    assert SafeType("") == "";
  }

  /** Position of the first marker among the segments of a key. */
  lemma FirstMark(t: seq<string>) returns (m: nat)
    requires "_t" in t || "_n" in t
    ensures m < |t| && (t[m] == "_t" || t[m] == "_n") && forall j :: 0 <= j < m ==> t[j] != "_t" && t[j] != "_n"
  {
    var a, b := FirstAt(t, "_t", 0), FirstAt(t, "_n", 0);
    m := if a < b then a else b;
  }

  lemma ParseMarked(kind: string, t: seq<string>, rest: seq<string>, m: nat)
    requires m < |t| && (t[m] == "_t" || t[m] == "_n") && forall j :: 0 <= j < m ==> t[j] != "_t" && t[j] != "_n"
    ensures var r := ParseParts(["_talos", kind] + t + rest); r.Some? ==> r.value.key == Join('/', t[..m])
  {
    var parts := ["_talos", kind] + t + rest;
    assert parts[2 + m] == t[m] && forall j :: 2 <= j < 2 + m ==> parts[j] == t[j - 2];
    FirstAtIs(parts, t[m], 2, 2 + m);
    var other := if t[m] == "_t" then "_n" else "_t";
    assert FirstAt(parts, other, 2) > 2 + m;
    assert parts[2..2 + m] == t[..m];
  }

  lemma ParseClean(kind: string, t: seq<string>, safe: string, f: seq<string>)
    requires t != [] && f != [] && "_t" !in t && "_n" !in t
    ensures ParseParts(["_talos", kind] + t + ((if safe != "" then ["_t", safe] else []) + ["_n"] + f))
         == if safe == "_n" then Some(Announcement(Join('/', t), "", Join('/', ["_n"] + f)))
            else Some(Announcement(Join('/', t), safe, Join('/', f)))
  {
    if safe == "" {
      ParseUntyped(kind, t, f);
      assert [] + ["_n"] + f == ["_n"] + f;
    } else {
      ParseTyped(kind, t, safe, f);
    }
  }

  lemma ParseUntyped(kind: string, t: seq<string>, f: seq<string>)
    requires t != [] && f != [] && "_t" !in t && "_n" !in t
    ensures ParseParts(["_talos", kind] + t + (["_n"] + f)) == Some(Announcement(Join('/', t), "", Join('/', f)))
  {
    var parts := ["_talos", kind] + t + (["_n"] + f);
    var e := 2 + |t|;
    assert forall j :: 2 <= j < e ==> parts[j] == t[j - 2];
    assert parts[2..e] == t && parts[e] == "_n" && parts[e + 1..] == f;
    FirstAtIs(parts, "_n", 2, e);
    assert FirstAt(parts, "_t", 2) > e;
  }

  lemma ParseTyped(kind: string, t: seq<string>, safe: string, f: seq<string>)
    requires t != [] && f != [] && "_t" !in t && "_n" !in t && safe != ""
    ensures ParseParts(["_talos", kind] + t + (["_t", safe] + ["_n"] + f))
         == if safe == "_n" then Some(Announcement(Join('/', t), "", Join('/', ["_n"] + f)))
            else Some(Announcement(Join('/', t), safe, Join('/', f)))
  {
    var parts := ["_talos", kind] + t + (["_t", safe] + ["_n"] + f);
    var e := 2 + |t|;
    assert forall j :: 2 <= j < e ==> parts[j] == t[j - 2];
    assert parts[2..e] == t && parts[e] == "_t" && parts[e + 1] == safe && parts[e + 2] == "_n";
    FirstAtIs(parts, "_t", 2, e);
    if safe == "_n" {
      FirstAtIs(parts, "_n", 2, e + 1);
      assert parts[e + 2..] == ["_n"] + f && parts[e + 1..e + 1] == [];
    } else {
      FirstAtIs(parts, "_n", 2, e + 2);
      assert parts[e + 1..e + 2] == [safe] && parts[e + 3..] == f;
    }
  }
}
