/** What token a text begins with, in terms of the text alone: its type, its id and its
    span, for every text and every kind of token. */
module SplitGuideTokens {
  import opened SplitGuide

  // ---- Occurrences, lines and runs ----

  predicate OccursAt(s: string, p: string, k: int) { 0 <= k <= |s| - |p| && s[k..k + |p|] == p }

  ghost predicate Occurs(s: string, p: string) { exists k :: OccursAt(s, p, k) }

  predicate FirstAt(s: string, p: string, k: int) {
    OccursAt(s, p, k) && forall j :: 0 <= j < k ==> !OccursAt(s, p, j)
  }

  lemma FindExactly(s: string, p: string)
    ensures Find(s, p).Some? <==> Occurs(s, p)
    ensures forall k: nat :: Find(s, p) == Some(k) <==> FirstAt(s, p, k)
  {
    if Find(s, p).Some? {
      var i := Find(s, p).value;
      assert OccursAt(s, p, i);
      forall j | OccursAt(s, p, j) ensures i <= j {
        FindFirst(s, p, j);
      }
    }
    if k :| OccursAt(s, p, k) {
      FindFirst(s, p, k);
    }
  }

  /** The rest of the line, without the line feed. */
  predicate Line(s: string, span: string) {
    span <= s && '\n' !in span && (|span| < |s| ==> s[|span|] == '\n')
  }

  lemma LineExactly(s: string, span: string)
    ensures span == Until(s, "\n") <==> Line(s, span)
  {
    FindExactly(s, "\n");
    forall j | 0 <= j < |s| ensures OccursAt(s, "\n", j) <==> s[j] == '\n' {
      assert s[j..j + 1] == [s[j]];
    }
    if Line(s, span) && |span| < |s| {
      assert forall j :: 0 <= j < |span| ==> s[j] == span[j];
      assert FirstAt(s, "\n", |span|);
    }
  }

  /** run is the longest beginning of s whose characters satisfy p. */
  predicate HeadRun(s: string, run: string, p: char -> bool) {
    run <= s && (forall c | c in run :: p(c)) && (|run| < |s| ==> !p(s[|run|]))
  }

  lemma {:induction false} LeadingExactly(s: string, run: string, p: char -> bool)
    ensures run == s[..Leading(s, p)] <==> HeadRun(s, run, p)
  {
    if s != "" && p(s[0]) {
      var k := Leading(s[1..], p);
      assert s[..k + 1] == [s[0]] + s[1..][..k];
      if run != "" {
        LeadingExactly(s[1..], run[1..], p);
        assert run == [run[0]] + run[1..];
        assert s == [s[0]] + s[1..];
      }
    } else if run != "" && run <= s {
      assert run[0] == s[0] && run[0] in run;
    }
  }

  /** id is the longest ending of s made of letters, digits and underscores. */
  predicate TailName(s: string, id: string, alnum: char -> bool) {
    && |id| <= |s| && s[|s| - |id|..] == id && (forall c | c in id :: alnum(c) || c == '_')
    && (|id| < |s| ==> var c := s[|s| - |id| - 1]; !alnum(c) && c != '_')
  }

  lemma {:induction false} TrailingExactly(s: string, id: string, alnum: char -> bool)
    ensures id == s[|s| - Trailing(s, IdentChar(alnum))..] <==> TailName(s, id, alnum)
  {
    var n := |s|;
    var k := Trailing(s, IdentChar(alnum));
    if s != "" && (alnum(s[n - 1]) || s[n - 1] == '_') {
      var t := s[..n - 1];
      assert k == Trailing(t, IdentChar(alnum)) + 1;
      assert s[n - k..] != "";
      if id != "" {
        TrailingExactly(t, id[..|id| - 1], alnum);
        TailSnoc(s, id, alnum);
        EndsAlike(s, k, id);
      }
    } else if id != "" && |id| <= n && s[n - |id|..] == id {
      assert id[|id| - 1] == s[n - 1] && id[|id| - 1] in id;
    }
  }

  lemma TailSnoc(s: string, id: string, alnum: char -> bool)
    requires s != "" && id != "" && (alnum(s[|s| - 1]) || s[|s| - 1] == '_')
    ensures TailName(s, id, alnum) <==>
            id[|id| - 1] == s[|s| - 1] && TailName(s[..|s| - 1], id[..|id| - 1], alnum)
  {
    var t, init := s[..|s| - 1], id[..|id| - 1];
    assert s == t + [s[|s| - 1]] && id == init + [id[|id| - 1]];
    if |id| <= |s| {
      EndsAlike(s, |id|, id);
    }
  }

  lemma EndsAlike(s: string, k: nat, id: string)
    requires 0 < k <= |s| && id != ""
    ensures id == s[|s| - k..] <==>
            id[|id| - 1] == s[|s| - 1] && id[..|id| - 1] == s[..|s| - 1][|s| - k..]
  {
    assert s[|s| - k..] == s[..|s| - 1][|s| - k..] + [s[|s| - 1]];
    assert id == id[..|id| - 1] + [id[|id| - 1]];
  }

  // ---- What a text begins with ----

  datatype Begin = Space | BlockComment | LineComment | Endif | Quoted | Angled | DefineLine | IfLine | ElseLine
    | TypedefText | Other

  /** The tests exclude each other. */
  function BeginOf(s: string): Begin
    requires s != ""
  {
    if IsSpace(s[0]) then Space
    else if "/*" <= s then BlockComment
    else if "//" <= s then LineComment
    else if "#endif" <= s then Endif
    else if "#include \"" <= s then Quoted
    else if "#include <" <= s then Angled
    else if "#define " <= s then DefineLine
    else if "#if " <= s || "#ifdef " <= s || "#ifndef " <= s then IfLine
    else if "#else" <= s then ElseLine
    else if "typedef" <= s then TypedefText
    else Other
  }

  // ---- The tokens ----

  /** The first word of the definition, behind any white space. */
  ghost predicate FirstWord(rest: string, id: string) {
    exists gap :: HeadRun(rest, gap, IsSpace) && HeadRun(rest[|gap|..], id, NotSpace)
  }

  /** The first ';' outside braces, or the text, ends the span. */
  predicate TypedefSpanned(s: string, span: string) {
    && span <= s && span != "" && (forall k: nat | k < |span| - 1 :: !EndsAt(s, 0, k))
    && (|span| == |s| || EndsAt(s, 0, |span| - 1))
  }

  predicate Private(id: string) { id != "" && id[0] == '_' }

  predicate LastParen(s: string, k: int) { 0 <= k < |s| && s[k] == '(' && forall j :: k < j < |s| ==> s[j] != '(' }

  /** t is the token that s begins with. */
  ghost predicate TokenIs(s: string, alnum: char -> bool, t: Token)
    requires s != ""
  {
    match BeginOf(s)
    case Space => t.tt == Whitespace && t.id == "" && HeadRun(s, t.span, IsSpace)
    case BlockComment =>
      t.tt == Comment && t.id == "" && (if Occurs(s, "*/") then Through(s, "*/", t.span) else t.span == s)
    case LineComment => t.tt == Comment && t.id == "" && Line(s, t.span)
    case Endif => t.tt == PreprEndif && t.id == "" && Line(s, t.span)
    case Quoted => false
    case Angled =>
      t.tt == PreprInclude && Through(s, ">", t.span) && t.span == "#include <" + t.id + ">"
    case DefineLine =>
      && t.tt == (if |s| > 8 && s[8] == '_' then PrivateToken else PreprDefine)
      && Line(s, t.span) && |t.span| >= 8 && t.id != "" && FirstWord(t.span[8..], t.id)
    case IfLine => t.tt == PreprIf && t.id == t.span && Line(s, t.span)
    case ElseLine => t.tt == PreprElse && t.id == "" && Line(s, t.span)
    case TypedefText =>
      && t.tt == (if Private(t.id) then PrivateToken else Typedef)
      && TypedefSpanned(s, t.span) && TailName(t.span[..|t.span| - 1], t.id, alnum)
    case Other => Through(s, ";", t.span) && if Occurs(t.span, "const") then ConstIs(t, alnum) else FunctionIs(t, alnum)
  }

  /** span ends with the first occurrence of p. */
  predicate Through(s: string, p: string, span: string) {
    |span| >= |p| && span <= s && FirstAt(s, p, |span| - |p|)
  }

  /** A constant is named just before its ';'. */
  predicate ConstIs(t: Token, alnum: char -> bool) {
    t.tt == Const && t.span != "" && TailName(t.span[..|t.span| - 1], t.id, alnum)
  }

  /** A function is named just before its last '('. */
  ghost predicate FunctionIs(t: Token, alnum: char -> bool) {
    t.tt == Function && exists k :: LastParen(t.span, k) && TailName(t.span[..k], t.id, alnum)
  }

  /** The texts on which the tokenizer panics: a quoted include, an include without an
      end, a definition of nothing. */
  ghost predicate PanicsOn(s: string)
    requires s != ""
  {
    match BeginOf(s)
    case Quoted => true
    case Angled => !Occurs(s, ">")
    case DefineLine => forall span | Line(s, span) && |span| >= 8 :: forall c | c in span[8..] :: IsSpace(c)
    case _ => false
  }

  // ---- The first constructor that fits ----

  lemma NotBegun(s: string)
    requires s != "" && !IsSpace(s[0])
    ensures LexWhitespace(s) == NoMatch
  {
  }

  lemma FirstThatFits(s: string, alnum: char -> bool)
    requires s != ""
    ensures match BeginOf(s)
            case Space => LexNext(s, alnum) == LexWhitespace(s)
            case BlockComment => LexNext(s, alnum) == LexComment(s)
            case LineComment => LexNext(s, alnum) == LexComment(s)
            case Endif => LexNext(s, alnum) == LexEndif(s)
            case Quoted => LexNext(s, alnum) == LexInclude(s)
            case Angled => LexNext(s, alnum) == LexInclude(s)
            case DefineLine => LexNext(s, alnum) == LexDefine(s)
            case IfLine => LexNext(s, alnum) == LexIf(s)
            case ElseLine => LexNext(s, alnum) == LexElse(s)
            case TypedefText => LexNext(s, alnum) == LexTypedef(s, alnum)
            case Other => LexNext(s, alnum) == OrElse(LexConst(s, alnum), LexFunction(s, alnum))
  {
    if !IsSpace(s[0]) {
      NotBegun(s);
    }
    hide LexConst, LexFunction, IsSpace;
  }

  lemma SpaceExactly(s: string, t: Token)
    requires s != "" && BeginOf(s) == Space
    ensures LexWhitespace(s) == Tok(t) <==> t.tt == Whitespace && t.id == "" && HeadRun(s, t.span, IsSpace)
    ensures LexWhitespace(s).Tok?
  {
    LeadingExactly(s, t.span, IsSpace);
  }

  lemma CommentExactly(s: string, t: Token)
    requires s != "" && (BeginOf(s) == BlockComment || BeginOf(s) == LineComment)
    ensures LexComment(s) == Tok(t) <==>
            && t.tt == Comment && t.id == ""
            && if BeginOf(s) == LineComment then Line(s, t.span)
               else if Occurs(s, "*/") then Through(s, "*/", t.span) else t.span == s
    ensures LexComment(s).Tok?
  {
    hide IsSpace, Occurs, Through, Line, UntilIncl, Until;
    LineExactly(s, t.span);
    ThroughExactly(s, "*/", t.span);
  }

  lemma ThroughExactly(s: string, p: string, span: string)
    ensures UntilIncl(s, p) == Some(span) <==> Through(s, p, span)
    ensures UntilIncl(s, p).None? <==> !Occurs(s, p)
  {
    FindExactly(s, p);
    if Find(s, p).Some? {
      var k := Find(s, p).value;
      assert FirstAt(s, p, k);
      if Through(s, p, span) {
        assert FirstAt(s, p, |span| - |p|) && Find(s, p) == Some(|span| - |p|);
        assert span == s[..|span|];
      }
    }
  }

  lemma DirectiveExactly(s: string, t: Token)
    requires s != ""
    ensures "#endif" <= s ==> (LexEndif(s) == Tok(t) <==> t.tt == PreprEndif && t.id == "" && Line(s, t.span))
    ensures "#else" <= s ==> (LexElse(s) == Tok(t) <==> t.tt == PreprElse && t.id == "" && Line(s, t.span))
    ensures "#if " <= s || "#ifdef " <= s || "#ifndef " <= s ==>
              (LexIf(s) == Tok(t) <==> t.tt == PreprIf && t.id == t.span && Line(s, t.span))
  {
    LineExactly(s, t.span);
  }

  lemma AngledExactly(s: string, t: Token)
    requires s != "" && BeginOf(s) == Angled
    ensures LexInclude(s) == Tok(t) <==>
            t.tt == PreprInclude && Through(s, ">", t.span) && t.span == "#include <" + t.id + ">"
    ensures LexInclude(s) == Panics <==> !Occurs(s, ">")
    ensures LexInclude(s) != NoMatch
  {
    hide IsSpace, Occurs, Through, UntilIncl, BeginOf;
    assert !("#include \"" <= s) && "#include <" <= s by { AngledBegins(s); }
    match UntilIncl(s, ">")
    case None => ThroughExactly(s, ">", t.span);
    case Some(span) =>
      ThroughExactly(s, ">", span);
      ThroughExactly(s, ">", t.span);
      AngledSpan(s, span);
      IdBetween(span, t.id);
  }

  lemma AngledBegins(s: string)
    requires s != "" && BeginOf(s) == Angled
    ensures !("#include \"" <= s) && "#include <" <= s
  {
  }

  /** The end is not found inside the start. */
  lemma AngledSpan(s: string, span: string)
    requires "#include <" <= s && Through(s, ">", span)
    ensures |span| >= 11 && "#include <" <= span && span[|span| - 1] == '>'
  {
    var k := |span| - 1;
    assert s[k] == s[k..k + 1][0] == '>';
    var start := "#include <";
    assert forall j :: 0 <= j < |start| ==> s[j] == start[j] != '>';
  }

  lemma IdBetween(span: string, id: string)
    requires |span| >= 11 && "#include <" <= span && span[|span| - 1] == '>'
    ensures span == "#include <" + id + ">" <==> id == span[10..|span| - 1]
  {
    var start := "#include <";
    assert span == start + span[10..|span| - 1] + ">";
    if span == start + id + ">" {
      assert (start + id + ">")[10..|span| - 1] == id;
    }
  }

  lemma DefineExactly(s: string, t: Token)
    requires s != "" && BeginOf(s) == DefineLine
    ensures LexDefine(s) == Tok(t) <==>
            && t.tt == (if |s| > 8 && s[8] == '_' then PrivateToken else PreprDefine)
            && Line(s, t.span) && |t.span| >= 8 && t.id != "" && FirstWord(t.span[8..], t.id)
    ensures LexDefine(s) == Panics <==> PanicsOn(s)
    ensures LexDefine(s) != NoMatch
  {
    hide IsSpace, Until, Line, FirstWord, Leading;
    var span := Until(s, "\n");
    UntilKeeps(s, DEFINE);
    LineExactly(s, span);
    LineExactly(s, t.span);
    forall x | Line(s, x) ensures x == span {
      LineExactly(s, x);
    }
    WordExactly(span[8..], t.id);
    assert |s| > 8 ==> s[8..] != "" && s[8..][0] == s[8];
  }

  /** The word found is the first one; there is none exactly when all is white space. */
  lemma WordExactly(rest: string, id: string)
    ensures var word := rest[Leading(rest, IsSpace)..];
            && (id == word[..Leading(word, NotSpace)] <==> FirstWord(rest, id))
            && (word[..Leading(word, NotSpace)] == "" <==> forall c | c in rest :: IsSpace(c))
  {
    var gap := rest[..Leading(rest, IsSpace)];
    var word := rest[|gap|..];
    assert rest == gap + word;
    LeadingExactly(rest, gap, IsSpace);
    LeadingExactly(word, id, NotSpace);
    forall g | HeadRun(rest, g, IsSpace) ensures g == gap {
      LeadingExactly(rest, g, IsSpace);
    }
    NoWord(rest, gap, word);
    hide HeadRun, Leading, IsSpace;
  }

  lemma NoWord(rest: string, gap: string, word: string)
    requires rest == gap + word && HeadRun(rest, gap, IsSpace)
    ensures word[..Leading(word, NotSpace)] == "" <==> forall c | c in rest :: IsSpace(c)
  {
    if word != "" {
      assert word[0] == rest[|gap|] && word[0] in rest;
      assert Leading(word, NotSpace) > 0;
    } else {
      assert rest == gap;
    }
  }

  lemma TypedefExactly(s: string, alnum: char -> bool, t: Token)
    requires s != "" && BeginOf(s) == TypedefText
    ensures LexTypedef(s, alnum) == Tok(t) <==>
            && t.tt == (if Private(t.id) then PrivateToken else Typedef)
            && TypedefSpanned(s, t.span) && TailName(t.span[..|t.span| - 1], t.id, alnum)
    ensures LexTypedef(s, alnum).Tok?
  {
    hide IsSpace, EndsAt, TailName;
    TypedefSpanExactly(s, t.span);
    var span := s[..TypedefLen(s, 0)];
    TrailingExactly(span[..|span| - 1], t.id, alnum);
  }

  lemma TypedefSpanExactly(s: string, span: string)
    requires s != ""
    ensures span == s[..TypedefLen(s, 0)] <==> TypedefSpanned(s, span)
  {
    var len := TypedefLen(s, 0);
    TypedefEnds(s, 0);
    hide EndsAt, TypedefLen;
    if TypedefSpanned(s, span) {
      assert |span| == len;
      assert span == s[..len];
    }
  }

  lemma {:induction false} ParenExactly(s: string, k: int)
    ensures Contains(s, "(") <==> Trailing(s, NotParen) < |s|
    ensures LastParen(s, k) <==> Contains(s, "(") && k == |s| - Trailing(s, NotParen) - 1
  {
    ParenIn(s);
    if s != "" && NotParen(s[|s| - 1]) {
      var t := s[..|s| - 1];
      assert s == t + [s[|s| - 1]];
      ParenIn(t);
      ParenExactly(t, k);
    }
  }

  lemma ParenIn(s: string)
    ensures Contains(s, "(") <==> '(' in s
  {
    FindExactly(s, "(");
    forall j | 0 <= j < |s| ensures OccursAt(s, "(", j) <==> s[j] == '(' {
      assert s[j..j + 1] == [s[j]];
    }
  }

  /** What is computed from a declaration with a '(' behind k characters. */
  lemma FunctionParts(s: string, span: string, alnum: char -> bool, k: int)
    requires UntilIncl(s, ";") == Some(span) && k == |span| - Trailing(span, NotParen) - 1
    requires Contains(span, "(") <==> k >= 0
    ensures k < 0 ==> LexFunction(s, alnum) == NoMatch
    ensures k >= 0 ==>
              var name := span[..k];
              LexFunction(s, alnum) == Tok(Token(Function, name[k - Trailing(name, IdentChar(alnum))..], span))
  {
    hide Contains, UntilIncl, Trailing;
    if k >= 0 {
      assert span[..k + 1][..k] == span[..k];
    }
  }

  lemma FunctionExactly(s: string, span: string, alnum: char -> bool, t: Token)
    requires UntilIncl(s, ";") == Some(span)
    ensures LexFunction(s, alnum) == Tok(t) <==> t.span == span && FunctionIs(t, alnum)
    ensures LexFunction(s, alnum) != Panics
  {
    hide LexFunction, Contains, UntilIncl, LastParen, TailName, Trailing, IdentChar;
    var k := |span| - Trailing(span, NotParen) - 1;
    LastParenIs(span, k);
    FunctionParts(s, span, alnum, k);
    if k >= 0 {
      TrailingExactly(span[..k], t.id, alnum);
    }
  }

  lemma LastParenIs(span: string, k: int)
    requires k == |span| - Trailing(span, NotParen) - 1
    ensures Contains(span, "(") <==> k >= 0
    ensures forall j :: LastParen(span, j) <==> k >= 0 && j == k
  {
    ParenExactly(span, k);
    forall j ensures LastParen(span, j) <==> k >= 0 && j == k {
      ParenExactly(span, j);
    }
  }

  lemma ConstExactly(s: string, span: string, alnum: char -> bool, t: Token)
    requires UntilIncl(s, ";") == Some(span)
    ensures LexConst(s, alnum) == NoMatch <==> !Occurs(span, "const")
    ensures Occurs(span, "const") ==> (LexConst(s, alnum) == Tok(t) <==> t.span == span && ConstIs(t, alnum))
    ensures LexConst(s, alnum) != Panics
  {
    FindExactly(span, "const");
    hide Occurs, FirstAt, TailName, UntilIncl, Find;
    TrailingExactly(span[..|span| - 1], t.id, alnum);
  }

  lemma OtherExactly(s: string, alnum: char -> bool, t: Token)
    ensures OrElse(LexConst(s, alnum), LexFunction(s, alnum)) == Tok(t) <==>
            Through(s, ";", t.span) && if Occurs(t.span, "const") then ConstIs(t, alnum) else FunctionIs(t, alnum)
    ensures OrElse(LexConst(s, alnum), LexFunction(s, alnum)) != Panics
  {
    ThroughExactly(s, ";", t.span);
    hide Through, Occurs, ConstIs, FunctionIs, UntilIncl;
    match UntilIncl(s, ";")
    case None =>
    case Some(span) =>
      ConstExactly(s, span, alnum, t);
      FunctionExactly(s, span, alnum, t);
      hide LexConst, LexFunction;
  }

  /** For every text: the tokenizer's next token is t if and only if t is what the text
      begins with, and it panics on exactly three kinds of text. */
  lemma NextExactly(s: string, alnum: char -> bool, t: Token)
    requires s != ""
    ensures LexNext(s, alnum) == Tok(t) <==> TokenIs(s, alnum, t)
    ensures LexNext(s, alnum) == Panics <==> PanicsOn(s)
  {
    FirstThatFits(s, alnum);
    match BeginOf(s)
    case Space => SpaceExactly(s, t);
    case BlockComment => CommentExactly(s, t);
    case LineComment => CommentExactly(s, t);
    case Endif => DirectiveExactly(s, t);
    case Quoted => QuotedIncludePanics(s, alnum);
    case Angled => AngledExactly(s, t);
    case DefineLine => DefineExactly(s, t);
    case IfLine => DirectiveExactly(s, t);
    case ElseLine => DirectiveExactly(s, t);
    case TypedefText => TypedefExactly(s, alnum, t);
    case Other => OtherExactly(s, alnum, t);
  }
}
