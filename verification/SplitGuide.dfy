/** The header splitter of zenoh-c's splitguide.rs: a prefix tokenizer and the
    grouping of its tokens into records.  Text is a sequence of characters. */
module SplitGuide {

  datatype Option<+T> = None | Some(value: T)

  datatype TokenType =
    | Comment | Typedef | Function | Const | PrivateToken | PreprDefine | PreprInclude
    | PreprIf | PreprElse | PreprEndif | Whitespace

  datatype Token = Token(tt: TokenType, id: string, span: string)

  /** Whether a token constructor applies, and whether it panics when it does. */
  datatype Lex = NoMatch | Panics | Tok(token: Token)

  // ---- String searches ----

  predicate IsSpace(c: char) {
    var n := c as int;
    9 <= n <= 13 || n == 32 || n == 0x85 || n == 0xA0 || n == 0x1680 || 0x2000 <= n <= 0x200A
    || n == 0x2028 || n == 0x2029 || n == 0x202F || n == 0x205F || n == 0x3000
  }

  predicate NotSpace(c: char) { !IsSpace(c) }

  predicate NotParen(c: char) { c != '(' }

  /** str::find: the first position at which the pattern occurs. */
  function Find(s: string, pattern: string): (r: Option<nat>)
    ensures r.Some? ==> r.value + |pattern| <= |s| && s[r.value..r.value + |pattern|] == pattern
  {
    if pattern <= s then Some(0)
    else if s == "" then None
    else
      match Find(s[1..], pattern)
      case None => None
      case Some(k) => Some(k + 1)
  }

  predicate Contains(s: string, pattern: string) { Find(s, pattern).Some? }

  /** s.until(pattern).unwrap_or(s) */
  function Until(s: string, pattern: string): (r: string)
    ensures r <= s
  {
    match Find(s, pattern)
    case None => s
    case Some(k) => s[..k]
  }

  function UntilIncl(s: string, pattern: string): (r: Option<string>)
    ensures r.Some? ==> r.value <= s && |r.value| >= |pattern|
  {
    match Find(s, pattern)
    case None => None
    case Some(k) => Some(s[..k + |pattern|])
  }

  /** Length of the longest prefix whose characters satisfy p. */
  function Leading(s: string, p: char -> bool): (k: nat)
    ensures k <= |s|
  {
    if s == "" || !p(s[0]) then 0 else 1 + Leading(s[1..], p)
  }

  /** ... and of the longest suffix. */
  function Trailing(s: string, p: char -> bool): (k: nat)
    ensures k <= |s|
  {
    if s == "" || !p(s[|s| - 1]) then 0 else 1 + Trailing(s[..|s| - 1], p)
  }

  function IdentChar(alnum: char -> bool): char -> bool { c => alnum(c) || c == '_' }

  function StartsPrivate(id: string, else_: TokenType): TokenType {
    if id != "" && id[0] == '_' then PrivateToken else else_
  }

  // ---- Token constructors; alnum is char::is_alphanumeric ----

  /** Characters up to the first ';' outside braces, or all of them. */
  function TypedefLen(s: string, accolades: int): (len: nat)
    ensures len <= |s| && (s != "" ==> len > 0)
  {
    if s == "" then 0
    else if s[0] == '{' then 1 + TypedefLen(s[1..], accolades + 1)
    else if s[0] == '}' then 1 + TypedefLen(s[1..], accolades - 1)
    else if s[0] == ';' && accolades == 0 then 1
    else 1 + TypedefLen(s[1..], accolades)
  }

  /** The loop over the characters of a typedef. */
  method TypedefSpan(s: string) returns (len: nat)
    ensures len == TypedefLen(s, 0)
  {
    len := 0;
    var accolades := 0;
    while len < |s|
      invariant len <= |s| && TypedefLen(s, 0) == len + TypedefLen(s[len..], accolades)
    {
      var c := s[len];
      assert s[len..][1..] == s[len + 1..];
      len := len + 1;
      if c == '{' {
        accolades := accolades + 1;
      } else if c == '}' {
        accolades := accolades - 1;
      } else if c == ';' && accolades == 0 {
        return;
      }
    }
  }

  /** Opening less closing braces. */
  function Braces(s: string): int {
    if s == "" then 0 else (if s[0] == '{' then 1 else if s[0] == '}' then -1 else 0) + Braces(s[1..])
  }

  /** Read inside a open braces, position k holds a ';' outside all braces. */
  predicate EndsAt(s: string, a: int, k: nat)
    requires k < |s|
  {
    s[k] == ';' && a + Braces(s[..k]) == 0
  }

  /** A typedef ends with its first ';' outside braces, or with the text. */
  lemma {:induction false} TypedefEnds(s: string, a: int)
    ensures var len := TypedefLen(s, a);
            && (forall k: nat | k < len - 1 :: !EndsAt(s, a, k))
            && (len == |s| || EndsAt(s, a, len - 1))
  {
    if s != "" {
      var c := s[0];
      var b := a + (if c == '{' then 1 else if c == '}' then -1 else 0);
      TypedefEnds(s[1..], b);
      forall k: nat | 0 < k < |s| ensures EndsAt(s, a, k) <==> EndsAt(s[1..], b, k - 1) {
        assert s[..k][1..] == s[1..][..k - 1];
      }
      assert EndsAt(s, a, 0) <==> c == ';' && a == 0;
    }
  }

  function LexTypedef(s: string, alnum: char -> bool): Lex {
    if "typedef" <= s then
      var span := s[..TypedefLen(s, 0)];
      var body := span[..|span| - 1];
      var id := body[|body| - Trailing(body, IdentChar(alnum))..];
      Tok(Token(StartsPrivate(id, Typedef), id, span))
    else NoMatch
  }

  function LexFunction(s: string, alnum: char -> bool): Lex {
    match UntilIncl(s, ";")
    case None => NoMatch
    case Some(span) =>
      if !Contains(span, "(") then NoMatch
      else
        var args := Trailing(span, NotParen);
        var head := span[..|span| - args];
        var name := if head == "" then "" else head[..|head| - 1];
        Tok(Token(Function, name[|name| - Trailing(name, IdentChar(alnum))..], span))
  }

  function LexConst(s: string, alnum: char -> bool): Lex {
    match UntilIncl(s, ";")
    case None => NoMatch
    case Some(span) =>
      if !Contains(span, "const") then NoMatch
      else
        var body := span[..|span| - 1];
        Tok(Token(Const, body[|body| - Trailing(body, IdentChar(alnum))..], span))
  }

  function LexWhitespace(s: string): Lex {
    var len := Leading(s, IsSpace);
    if len > 0 then Tok(Token(Whitespace, "", s[..len])) else NoMatch
  }

  /** The loop over leading white space. */
  method WhitespaceSpan(s: string) returns (len: nat)
    ensures len == Leading(s, IsSpace)
    ensures len <= |s| && (forall k :: 0 <= k < len ==> IsSpace(s[k])) && (len < |s| ==> !IsSpace(s[len]))
  {
    len := 0;
    assert s[0..] == s;
    while len < |s| && IsSpace(s[len])
      invariant len <= |s| && Leading(s, IsSpace) == len + Leading(s[len..], IsSpace)
      invariant forall k :: 0 <= k < len ==> IsSpace(s[k])
    {
      assert s[len..][1..] == s[len + 1..];
      len := len + 1;
    }
  }

  function LexComment(s: string): Lex {
    if "/*" <= s then Tok(Token(Comment, "", match UntilIncl(s, "*/") case Some(c) => c case None => s))
    else if "//" <= s then Tok(Token(Comment, "", Until(s, "\n")))
    else NoMatch
  }

  function LexIf(s: string): Lex {
    if "#if " <= s || "#ifdef " <= s || "#ifndef " <= s then
      var span := Until(s, "\n");
      Tok(Token(PreprIf, span, span))
    else NoMatch
  }

  const DEFINE := "#define "

  function LexDefine(s: string): Lex {
    if DEFINE <= s then
      var span := Until(s, "\n");
      if |span| < |DEFINE| then Panics
      else
        var rest := span[|DEFINE|..];
        var word := rest[Leading(rest, IsSpace)..];
        var id := word[..Leading(word, NotSpace)];
        if id == "" then Panics
        else Tok(Token(StartsPrivate(s[|DEFINE|..], PreprDefine), id, span))
    else NoMatch
  }

  function LexEndif(s: string): Lex {
    if "#endif" <= s then Tok(Token(PreprEndif, "", Until(s, "\n"))) else NoMatch
  }

  function LexElse(s: string): Lex {
    if "#else" <= s then Tok(Token(PreprElse, "", Until(s, "\n"))) else NoMatch
  }

  /** The slice of the file name panics when the end mark is found inside the start. */
  function LexIncludeWith(s: string, start: string, end: string): Lex {
    if start <= s then
      match UntilIncl(s, end)
      case None => Panics
      case Some(span) =>
        if |start| > |span| - |end| then Panics
        else Tok(Token(PreprInclude, span[|start|..|span| - |end|], span))
    else NoMatch
  }

  function OrElse(a: Lex, b: Lex): Lex { if a.NoMatch? then b else a }

  function LexInclude(s: string): Lex {
    OrElse(LexIncludeWith(s, "#include \"", "\""), LexIncludeWith(s, "#include <", ">"))
  }

  /** Token::next: the first constructor that applies. */
  function LexNext(s: string, alnum: char -> bool): Lex {
    OrElse(LexWhitespace(s), OrElse(LexComment(s), OrElse(LexEndif(s), OrElse(LexInclude(s), OrElse(LexDefine(s),
      OrElse(LexIf(s), OrElse(LexElse(s), OrElse(LexTypedef(s, alnum), OrElse(LexConst(s, alnum),
        LexFunction(s, alnum))))))))))
  }

  // ---- Spans ----

  predicate SpanOk(s: string, l: Lex) {
    l.Tok? ==> l.token.span != "" && l.token.span <= s
  }

  /** A newline is not found before the end of a prefix that holds none. */
  lemma {:induction false} UntilKeeps(s: string, prefix: string)
    requires prefix <= s && '\n' !in prefix
    ensures prefix <= Until(s, "\n")
  {
    match Find(s, "\n")
    case None =>
    case Some(k) =>
      assert s[k] == s[k..k + 1][0] == '\n';
      assert forall j :: 0 <= j < |prefix| ==> prefix[j] in prefix && s[j] == prefix[j];
  }

  lemma LineSpan(s: string, prefix: string, tt: TokenType, id: string)
    requires prefix <= s && prefix != "" && '\n' !in prefix
    ensures SpanOk(s, Tok(Token(tt, id, Until(s, "\n"))))
  {
    UntilKeeps(s, prefix);
  }

  lemma CommentSpan(s: string)
    ensures SpanOk(s, LexComment(s)) && SpanOk(s, LexWhitespace(s))
  {
    if !("/*" <= s) && "//" <= s {
      LineSpan(s, "//", Comment, "");
    }
  }

  lemma DirectiveSpan(s: string)
    ensures SpanOk(s, LexEndif(s)) && SpanOk(s, LexElse(s)) && SpanOk(s, LexDefine(s)) && SpanOk(s, LexInclude(s))
  {
    if "#endif" <= s { LineSpan(s, "#endif", PreprEndif, ""); }
    if "#else" <= s { LineSpan(s, "#else", PreprElse, ""); }
    if DEFINE <= s { LineSpan(s, DEFINE, PreprDefine, ""); }
  }

  lemma IfSpan(s: string)
    ensures SpanOk(s, LexIf(s))
  {
    var span := Until(s, "\n");
    if "#if " <= s {
      LineSpan(s, "#if ", PreprIf, span);
    } else if "#ifdef " <= s {
      LineSpan(s, "#ifdef ", PreprIf, span);
    } else if "#ifndef " <= s {
      LineSpan(s, "#ifndef ", PreprIf, span);
    }
  }

  lemma DeclarationSpan(s: string, alnum: char -> bool)
    ensures SpanOk(s, LexTypedef(s, alnum)) && SpanOk(s, LexConst(s, alnum)) && SpanOk(s, LexFunction(s, alnum))
  {
  }

  /** Every token takes a non-empty prefix of the text. */
  lemma SpansOk(s: string, alnum: char -> bool)
    ensures SpanOk(s, LexNext(s, alnum))
  {
    CommentSpan(s);
    DirectiveSpan(s);
    IfSpan(s);
    DeclarationSpan(s, alnum);
  }

  /** A quoted include always panics: the closing mark is found in the opening one. */
  lemma QuotedIncludePanics(s: string, alnum: char -> bool)
    requires "#include \"" <= s
    ensures LexNext(s, alnum) == Panics
  {
    assert s[0] == '#' && s[1] == 'i' && s[9] == '"';
    assert LexWhitespace(s) == NoMatch && LexComment(s) == NoMatch;
    assert s[1] != "#endif"[1] && LexEndif(s) == NoMatch;
    assert s[9..9 + 1] == "\"";
    FindFirst(s, "\"", 9);
    assert LexIncludeWith(s, "#include \"", "\"") == Panics;
  }

  lemma {:induction false} FindFirst(s: string, pattern: string, k: nat)
    requires k + |pattern| <= |s| && s[k..k + |pattern|] == pattern
    ensures Find(s, pattern).Some? && Find(s, pattern).value <= k
  {
    if !(pattern <= s) {
      assert s[1..][k - 1..k - 1 + |pattern|] == pattern;
      FindFirst(s[1..], pattern, k - 1);
    }
  }
}
