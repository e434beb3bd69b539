/** Names by their segments: what a node and a topic resolve to, and which liveliness
    keys the tool understands. */
module DiscoveryNames {
  import opened Splitting
  import opened Discovery

  /** The segments between slashes; the empty name has none. */
  function Segments(s: string): seq<string> { if s == "" then [] else Split('/', s) }

  /** No segment is empty, so no slash leads, trails or is doubled. */
  predicate Tidy(s: string) { "" !in Segments(s) }

  /** Without one slash at the end, or at the beginning. */
  function Untrailed(a: string): string {
    if a != "" && a[|a| - 1] == '/' then a[..|a| - 1] else a
  }
  function Unled(b: string): string { if LeadsWithSlash(b) then b[1..] else b }

  /** Two names are put together by one slash, whatever slashes they meet with. */
  lemma JoinKeySegments(a: string, b: string)
    requires a != "" && b != ""
    ensures Split('/', JoinKey(a, b)) == Split('/', Untrailed(a)) + Split('/', Unled(b))
  {
    var u, v := Untrailed(a), Unled(b);
    assert a[|a| - 1] == '/' ==> a == u + ['/'];
    assert LeadsWithSlash(b) ==> b == ['/'] + v;
    assert JoinKey(a, b) == u + ['/'] + v;
    SplitAppend('/', u, v);
  }

  lemma {:induction false} SplitEnds(s: string)
    requires s != ""
    ensures s[0] == '/' ==> Split('/', s)[0] == ""
    ensures s[|s| - 1] == '/' ==> Split('/', s)[|Split('/', s)| - 1] == ""
  {
    if |s| > 1 {
      SplitEnds(s[1..]);
    }
  }

  lemma TidyEnds(s: string)
    requires s != "" && Tidy(s)
    ensures Untrailed(s) == s == Unled(s)
  {
    SplitEnds(s);
    var parts := Split('/', s);
    assert parts[0] in parts && parts[|parts| - 1] in parts;
  }

  /** Tidy names put together have the segments of both. */
  lemma TidyJoin(a: string, b: string)
    requires Tidy(a) && Tidy(b)
    ensures Segments(JoinKey(a, b)) == Segments(a) + Segments(b) && Tidy(JoinKey(a, b))
  {
    if a != "" && b != "" {
      TidyEnds(a);
      TidyEnds(b);
      JoinKeySegments(a, b);
    }
  }

  lemma NameSegments(name: string)
    requires '/' !in name
    ensures Segments(name) == (if name == "" then [] else [name]) && Tidy(name)
  {
    SplitNone('/', name);
  }

  /** A node's key is its namespace, segment by segment, and then its name. */
  lemma NodeKey(n: Node)
    requires Tidy(StripLeadingSlash(n.ns)) && '/' !in n.name
    ensures Segments(n.FullyQualifiedName())
         == Segments(StripLeadingSlash(n.ns)) + (if n.name == "" then [] else [n.name])
    ensures Tidy(n.FullyQualifiedName())
  {
    NameSegments(n.name);
    TidyJoin(StripLeadingSlash(n.ns), n.name);
  }

  /** A relative topic lies below the node, and so does what follows `~/`; a topic with
      a leading slash stands for itself without its leading slashes; the empty topic is
      the node. */
  lemma TopicKey(n: Node, topic: string)
    requires Tidy(StripLeadingSlash(n.ns)) && '/' !in n.name
    ensures var node := Segments(StripLeadingSlash(n.ns)) + (if n.name == "" then [] else [n.name]);
            var key := n.ResolveTopic(topic);
            && (LeadsWithSlash(topic) ==>
                  |key| < |topic| && topic[|topic| - |key|..] == key && !LeadsWithSlash(key)
                  && forall k | 0 <= k < |topic| - |key| :: topic[k] == '/')
            && (!LeadsWithSlash(topic) && !("~/" <= topic) && Tidy(topic) ==>
                  Segments(key) == node + Segments(topic))
            && ("~/" <= topic && Tidy(topic[2..]) ==> Segments(key) == node + Segments(topic[2..]))
            && (topic == "" ==> Segments(key) == node)
  {
    NodeKey(n);
    var fqn := n.FullyQualifiedName();
    hide Segments, JoinKey, Tidy;
    if LeadsWithSlash(topic) {
      StripIs(topic);
    } else if "~/" <= topic {
      if Tidy(topic[2..]) {
        TidyJoin(fqn, topic[2..]);
      }
    } else if Tidy(topic) && topic != "" {
      TidyJoin(fqn, topic);
    }
  }

  // ---- The keys the tool understands ----

  /** Position n holds the first `_n` behind the kind, and something follows it. */
  predicate NodeMark(parts: seq<string>, n: int) {
    2 <= n < |parts| - 1 && parts[n] == "_n" && forall j :: 2 <= j < n ==> parts[j] != "_n"
  }

  /** The first `_t` before it, or n itself when there is none. */
  predicate TypeMark(parts: seq<string>, n: int, t: int)
    requires NodeMark(parts, n)
  {
    2 <= t <= n && (forall j :: 2 <= j < t ==> parts[j] != "_t") && (t < n ==> parts[t] == "_t")
  }

  /** A key is read if and only if it has four segments or more, begins with `_talos` and
      names a node behind a `_n`; then the topic key ends at the first `_t`, if one stands
      before that `_n`, the type lies between the two, and the node is the rest. */
  lemma ParsedExactly(k: string)
    ensures var parts := Split('/', k);
            && (Parse(k).Some? <==> |parts| >= 4 && parts[0] == "_talos" && exists n :: NodeMark(parts, n))
            && forall n, t | Parse(k).Some? && NodeMark(parts, n) && TypeMark(parts, n, t) ::
                 Parse(k).value == Announcement(Join('/', parts[2..t]),
                                                if t < n then Join('/', parts[t + 1..n]) else "",
                                                Join('/', parts[n + 1..]))
  {
    var parts := Split('/', k);
    if |parts| >= 4 {
      var n, t := FirstAt(parts, "_n", 2), FirstAt(parts, "_t", 2);
      assert n + 1 < |parts| ==> NodeMark(parts, n);
      forall m | NodeMark(parts, m) ensures m == n {
        FirstAtIs(parts, "_n", 2, m);
      }
      forall m, u | NodeMark(parts, m) && TypeMark(parts, m, u) ensures u == if t < n then t else n {
        if u < m {
          FirstAtIs(parts, "_t", 2, u);
        }
      }
    }
  }
}
