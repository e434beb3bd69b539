/** Splitting a text at a character and joining the segments: SplitSlash of
    talosos_tool.cc, Python's str.split and join, and lines and their line feeds. */
module Splitting {

  /** The segments of s between separators; there is always at least one. */
  function Split(sep: char, s: string): (parts: seq<string>)
    ensures |parts| > 0
  {
    if s == [] then [""]
    else if s[0] == sep then [""] + Split(sep, s[1..])
    else Lead([s[0]], Split(sep, s[1..]))
  }

  /** cur in front of the first segment. */
  function Lead(cur: string, parts: seq<string>): (r: seq<string>)
    requires |parts| > 0
    ensures |r| == |parts|
  {
    [cur + parts[0]] + parts[1..]
  }

  function Join(sep: char, parts: seq<string>): string {
    if parts == [] then ""
    else if |parts| == 1 then parts[0]
    else parts[0] + [sep] + Join(sep, parts[1..])
  }

  /** SplitSlash of talosos_tool.cc, and Python's str.split on one character. */
  method SplitOn(sep: char, s: string) returns (parts: seq<string>)
    ensures parts == Split(sep, s)
  {
    parts := [];
    var cur := "";
    assert s[0..] == s;
    LeadNothing(Split(sep, s));
    for i := 0 to |s|
      invariant Split(sep, s) == parts + Lead(cur, Split(sep, s[i..]))
    {
      assert s[i..][0] == s[i] && s[i..][1..] == s[i + 1..];
      var c := s[i];
      if c == sep {
        var rest := Split(sep, s[i + 1..]);
        LeadSep(cur, rest);
        assert parts + ([cur] + Lead("", rest)) == (parts + [cur]) + Lead("", rest);
        parts := parts + [cur];
        cur := "";
      } else {
        LeadLead(cur, c, Split(sep, s[i + 1..]));
        cur := cur + [c];
      }
    }
    assert s[|s|..] == "" && cur + "" == cur;
    assert Lead(cur, [""]) == [cur];
    parts := parts + [cur];
  }

  lemma LeadNothing(parts: seq<string>)
    requires |parts| > 0
    ensures Lead("", parts) == parts
  {
    assert "" + parts[0] == parts[0];
  }

  lemma LeadSep(cur: string, rest: seq<string>)
    requires |rest| > 0
    ensures Lead(cur, [""] + rest) == [cur] + Lead("", rest)
  {
    assert cur + "" == cur;
    assert ([""] + rest)[1..] == rest;
    LeadNothing(rest);
  }

  lemma LeadLead(cur: string, c: char, parts: seq<string>)
    requires |parts| > 0
    ensures Lead(cur, Lead([c], parts)) == Lead(cur + [c], parts)
  {
    assert cur + ([c] + parts[0]) == (cur + [c]) + parts[0];
  }

  lemma {:induction false} SplitAppend(sep: char, a: string, b: string)
    ensures Split(sep, a + [sep] + b) == Split(sep, a) + Split(sep, b)
  {
    if a == [] {
      assert (a + [sep] + b)[1..] == b;
    } else {
      assert (a + [sep] + b)[1..] == a[1..] + [sep] + b;
      SplitAppend(sep, a[1..], b);
    }
  }

  lemma {:induction false} SplitNone(sep: char, a: string)
    requires sep !in a
    ensures Split(sep, a) == [a]
  {
    if a != [] {
      SplitNone(sep, a[1..]);
      assert [a[0]] + a[1..] == a;
    }
  }

  lemma {:induction false} SplitJoin(sep: char, parts: seq<string>)
    requires parts != [] && forall p | p in parts :: sep !in p
    ensures Split(sep, Join(sep, parts)) == parts
  {
    if |parts| == 1 {
      SplitNone(sep, parts[0]);
    } else {
      SplitNone(sep, parts[0]);
      SplitAppend(sep, parts[0], Join(sep, parts[1..]));
      SplitJoin(sep, parts[1..]);
      assert parts == [parts[0]] + parts[1..];
    }
  }

  lemma {:induction false} JoinSplit(sep: char, s: string)
    ensures Join(sep, Split(sep, s)) == s
    ensures forall p | p in Split(sep, s) :: sep !in p
  {
    if s != [] {
      JoinSplit(sep, s[1..]);
      var r := Split(sep, s[1..]);
      if s[0] == sep {
        assert ([""] + r)[1..] == r;
        assert [sep] + s[1..] == s;
      } else {
        var l := Lead([s[0]], r);
        assert l[1..] == r[1..];
        assert Join(sep, l) == [s[0]] + Join(sep, r);
        assert [s[0]] + s[1..] == s;
      }
    }
  }

  lemma {:induction false} JoinSnoc(sep: char, ps: seq<string>, p: string)
    ensures Join(sep, ps + [p]) == if ps == [] then p else Join(sep, ps) + [sep] + p
  {
    if ps == [] {
      assert ps + [p] == [p];
    } else if |ps| == 1 {
      assert (ps + [p])[1..] == [p];
    } else {
      JoinCons(sep, ps);
      JoinCons(sep, ps + [p]);
      assert (ps + [p])[1..] == ps[1..] + [p];
      JoinSnoc(sep, ps[1..], p);
      hide Join;
      Associate(ps[0] + [sep], Join(sep, ps[1..]), [sep], p);
    }
  }

  lemma JoinNothing(sep: char)
    ensures Join(sep, []) == ""
  {
  }

  lemma JoinCons(sep: char, ps: seq<string>)
    requires |ps| >= 2
    ensures Join(sep, ps) == ps[0] + [sep] + Join(sep, ps[1..])
  {
  }

  lemma Associate(a: string, b: string, c: string, d: string)
    ensures a + (b + c + d) == (a + b) + c + d
  {
  }
}
