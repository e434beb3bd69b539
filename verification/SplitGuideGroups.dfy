/** Records of splitguide.rs: what add_token and group_tokens make of the tokens. */
module SplitGuideGroups {
  import opened SplitGuide
  import Tokens = SplitGuideTokens

  datatype RecordType =
    | Empty | Multiple | OfPrivate | OfTypedef | OfFunction | OfConst | OfDefine | OfInclude

  /** RecordType::update */
  function UpdateType(old_: RecordType, rt: RecordType): RecordType {
    match old_
    case Empty => rt
    case _ => Multiple
  }

  /** The record type a token counts for, if any. */
  function TypeOf(t: Token): Option<RecordType> {
    match t.tt
    case Typedef => Some(OfTypedef)
    case Function => Some(OfFunction)
    case Const => Some(OfConst)
    case PrivateToken => Some(OfPrivate)
    case PreprDefine => Some(OfDefine)
    case PreprInclude => Some(OfInclude)
    case _ => None
  }

  datatype Rec = Rec(rt: RecordType, nesting: int, ids: seq<string>, tokens: seq<Token>) {
    predicate IsReady() { nesting == 0 && rt != Empty }
  }

  const NEW_REC := Rec(Empty, 0, [], [])

  /** Record::add_token; None is the error "unmatched #endif". */
  function AddToken(r: Rec, t: Token): Option<Rec> {
    match TypeOf(t)
    case Some(rt) =>
      Some(Rec(UpdateType(r.rt, rt), r.nesting, if t.id != "" then r.ids + [t.id] else r.ids, r.tokens + [t]))
    case None =>
      match t.tt
      case PreprIf => Some(r.(nesting := r.nesting + 1, tokens := r.tokens + [t]))
      case PreprEndif =>
        if r.nesting - 1 < 0 then None else Some(r.(nesting := r.nesting - 1, tokens := r.tokens + [t]))
      case _ => Some(r.(tokens := r.tokens + [t]))
  }

  datatype Outcome = Records(records: seq<Rec>) | UnmatchedEndif | Panicked

  /** The tokenizer as an iterator: the tokens of s, or where it panics. */
  function Tokenize(s: string, alnum: char -> bool): Option<seq<Token>>
    decreases |s|
  {
    if s == "" then Some([])
    else
      SpansOk(s, alnum);
      match LexNext(s, alnum)
      case Tok(t) =>
        (match Tokenize(s[|t.span|..], alnum)
         case None => None
         case Some(ts) => Some([t] + ts))
      case _ => None
  }

  /** group_tokens on the text s with record r being collected. */
  function Group(s: string, alnum: char -> bool, r: Rec): Outcome
    decreases |s|
  {
    if s == "" then Records([r])
    else
      SpansOk(s, alnum);
      match LexNext(s, alnum)
      case Tok(t) =>
        (match AddToken(r, t)
         case None => UnmatchedEndif
         case Some(r') =>
           if r'.IsReady() then Cons(r', Group(s[|t.span|..], alnum, NEW_REC)) else Group(s[|t.span|..], alnum, r'))
      case _ => Panicked
  }

  function Cons(r: Rec, o: Outcome): Outcome {
    match o
    case Records(rs) => Records([r] + rs)
    case _ => o
  }

  // ---- The objects ----

  class Tokenizer {
    var inner: string
    const alnum: char -> bool

    constructor (text: string, alnum: char -> bool)
      ensures inner == text && this.alnum == alnum
    {
      inner := text;
      this.alnum := alnum;
    }

    /** Iterator::next; Panics when nothing applies either. */
    method Next() returns (l: Lex)
      modifies this
      ensures old(inner) == "" ==> l == NoMatch && inner == ""
      ensures old(inner) != "" ==>
                && (LexNext(old(inner), alnum).Tok? ==>
                      l == LexNext(old(inner), alnum) && l.token.span != "" && old(inner) == l.token.span + inner)
                && (!LexNext(old(inner), alnum).Tok? ==> l == Panics)
                && (forall t :: l == Tok(t) <==> Tokens.TokenIs(old(inner), alnum, t))
    {
      hide LexNext, Tokens.TokenIs;
      if inner == "" {
        return NoMatch;
      }
      l := LexNext(inner, alnum);
      SpansOk(inner, alnum);
      forall t ensures l == Tok(t) <==> Tokens.TokenIs(inner, alnum, t) {
        Tokens.NextExactly(inner, alnum, t);
      }
      if l.Tok? {
        inner := inner[|l.token.span|..];
      } else {
        l := Panics;
      }
    }
  }

  class Record {
    var rt: RecordType
    var nesting: int
    var ids: seq<string>
    var tokens: seq<Token>

    ghost function View(): Rec
      reads this
    {
      Rec(rt, nesting, ids, tokens)
    }

    constructor ()
      ensures View() == NEW_REC
    {
      rt, nesting, ids, tokens := Empty, 0, [], [];
    }

    method PushToken(t: Token)
      modifies this`tokens
      ensures tokens == old(tokens) + [t]
    {
      tokens := tokens + [t];
    }

    method PushRecordTypeToken(t: Token, k: RecordType)
      requires TypeOf(t) == Some(k)
      modifies this
      ensures Some(View()) == AddToken(old(View()), t)
    {
      rt := UpdateType(rt, k);
      if t.id != "" {
        ids := ids + [t.id];
      }
      PushToken(t);
    }

    /** Err leaves the record with its nesting below zero; it is then discarded. */
    method Add(t: Token) returns (ok: bool)
      modifies this
      ensures ok <==> AddToken(old(View()), t).Some?
      ensures ok ==> Some(View()) == AddToken(old(View()), t)
    {
      match t.tt {
        case Typedef => PushRecordTypeToken(t, OfTypedef);
        case Function => PushRecordTypeToken(t, OfFunction);
        case Const => PushRecordTypeToken(t, OfConst);
        case PrivateToken => PushRecordTypeToken(t, OfPrivate);
        case PreprDefine => PushRecordTypeToken(t, OfDefine);
        case PreprInclude => PushRecordTypeToken(t, OfInclude);
        case PreprIf =>
          nesting := nesting + 1;
          PushToken(t);
        case PreprEndif =>
          nesting := nesting - 1;
          if nesting < 0 {
            return false;
          }
          PushToken(t);
        case _ => PushToken(t);
      }
      return true;
    }
  }

  /** The record objects hold the records rs. */
  ghost predicate Hold(objects: seq<Record>, rs: seq<Rec>)
    reads objects
  {
    |objects| == |rs| && forall i :: 0 <= i < |objects| ==> objects[i].View() == rs[i]
  }

  datatype Verdict = Grouped | Failed | Aborted

  method GroupTokens(stream: Tokenizer) returns (v: Verdict, records: seq<Record>)
    modifies stream
    ensures match Group(old(stream.inner), stream.alnum, NEW_REC)
            case Records(rs) => v == Grouped && Hold(records, rs)
            case UnmatchedEndif => v == Failed
            case Panicked => v == Aborted
  {
    hide AddToken, LexNext, Group;
    records := [];
    var collect := new Record();
    ghost var done: seq<Rec> := [];
    ghost var all := Group(stream.inner, stream.alnum, NEW_REC);
    PrefixNothing(all);
    while true
      invariant fresh(collect) && collect !in records && fresh(records)
      invariant Hold(records, done)
      invariant all == Prefix(done, Group(stream.inner, stream.alnum, collect.View()))
      decreases |stream.inner|
    {
      if stream.inner != "" {
        GroupStep(stream.inner, stream.alnum, collect.View());
      }
      var l := stream.Next();
      if l == NoMatch {
        break;
      }
      if l == Panics {
        return Aborted, [];
      }
      var ok := collect.Add(l.token);
      assert Hold(records, done);
      if !ok {
        return Failed, [];
      }
      if collect.nesting == 0 && collect.rt != Empty {
        PrefixCons(done, collect.View(), Group(stream.inner, stream.alnum, NEW_REC));
        ghost var view := collect.View();
        assert Hold(records + [collect], done + [view]);
        done := done + [view];
        records := records + [collect];
        collect := new Record();
        assert Hold(records, done);
      }
    }
    v := Grouped;
    GroupEnd(stream.alnum, collect.View());
    assert Hold(records + [collect], done + [collect.View()]);
    records := records + [collect];
  }

  lemma GroupEnd(alnum: char -> bool, r: Rec)
    ensures Group("", alnum, r) == Records([r])
  {
  }

  /** One token of Group, with the text split at the end of the token. */
  lemma GroupStep(s: string, alnum: char -> bool, r: Rec)
    requires s != ""
    ensures var l := LexNext(s, alnum);
            && (!l.Tok? ==> Group(s, alnum, r) == Panicked)
            && (l.Tok? ==>
                  forall rest | s == l.token.span + rest ::
                    Group(s, alnum, r) ==
                      match AddToken(r, l.token)
                      case None => UnmatchedEndif
                      case Some(r') =>
                        if r'.IsReady() then Cons(r', Group(rest, alnum, NEW_REC)) else Group(rest, alnum, r'))
  {
    SpansOk(s, alnum);
    var l := LexNext(s, alnum);
    if l.Tok? {
      forall rest | s == l.token.span + rest ensures rest == s[|l.token.span|..] {
      }
    }
  }

  ghost function Prefix(rs: seq<Rec>, o: Outcome): Outcome {
    match o
    case Records(more) => Records(rs + more)
    case _ => o
  }

  lemma PrefixNothing(o: Outcome)
    ensures Prefix([], o) == o
  {
    if o.Records? {
      assert [] + o.records == o.records;
    }
  }

  lemma PrefixCons(rs: seq<Rec>, r: Rec, o: Outcome)
    ensures Prefix(rs, Cons(r, o)) == Prefix(rs + [r], o)
  {
    if o.Records? {
      assert rs + ([r] + o.records) == (rs + [r]) + o.records;
    }
  }

  // ---- Laws ----

  /** The spans of tokens in a row. */
  function Text(ts: seq<Token>): string {
    if ts == [] then "" else ts[0].span + Text(ts[1..])
  }

  /** Tokens tile the text: spans are not empty and concatenate to it. */
  lemma {:induction false} TokensTile(s: string, alnum: char -> bool)
    requires Tokenize(s, alnum).Some?
    ensures Text(Tokenize(s, alnum).value) == s
    ensures forall t | t in Tokenize(s, alnum).value :: t.span != ""
    decreases |s|
  {
    if s != "" {
      SpansOk(s, alnum);
      var t := LexNext(s, alnum).token;
      TokensTile(s[|t.span|..], alnum);
      var ts := Tokenize(s[|t.span|..], alnum).value;
      assert ([t] + ts)[1..] == ts;
      assert t.span + s[|t.span|..] == s;
    }
  }

  /** Every token is the one its place in the text begins with. */
  ghost predicate InPlace(ts: seq<Token>, alnum: char -> bool) {
    forall i | 0 <= i < |ts| :: Text(ts[i..]) != "" && Tokens.TokenIs(Text(ts[i..]), alnum, ts[i])
  }

  lemma {:induction false} TokensInPlace(s: string, alnum: char -> bool)
    requires Tokenize(s, alnum).Some?
    ensures InPlace(Tokenize(s, alnum).value, alnum)
    decreases |s|
  {
    hide LexNext, Tokens.TokenIs;
    if s != "" {
      SpansOk(s, alnum);
      var t := LexNext(s, alnum).token;
      var rest := Tokenize(s[|t.span|..], alnum).value;
      var ts := [t] + rest;
      TokensInPlace(s[|t.span|..], alnum);
      TokensTile(s, alnum);
      Tokens.NextExactly(s, alnum, t);
      forall i | 0 <= i < |ts| ensures Text(ts[i..]) != "" && Tokens.TokenIs(Text(ts[i..]), alnum, ts[i]) {
        if i > 0 {
          assert ts[i..] == rest[i - 1..];
        } else {
          assert ts[0..] == ts;
        }
      }
    }
  }

  /** Open conditionals after some tokens. */
  function Depth(ts: seq<Token>): int {
    if ts == [] then 0 else Depth(ts[..|ts| - 1]) + Delta(ts[|ts| - 1])
  }

  function Delta(t: Token): int { if t.tt == PreprIf then 1 else if t.tt == PreprEndif then -1 else 0 }

  /** The record types of the tokens that have one, in order. */
  function Types(ts: seq<Token>): seq<RecordType> {
    if ts == [] then []
    else
      Types(ts[..|ts| - 1]) + (match TypeOf(ts[|ts| - 1]) case Some(rt) => [rt] case None => [])
  }

  /** Empty, the single type, or Multiple. */
  function TypeOfAll(ts: seq<Token>): RecordType {
    var k := Types(ts);
    if |k| == 0 then Empty else if |k| == 1 then k[0] else Multiple
  }

  /** The ids of the tokens that have a record type, in order, without empty ones. */
  function Ids(ts: seq<Token>): seq<string> {
    if ts == [] then []
    else
      var t := ts[|ts| - 1];
      Ids(ts[..|ts| - 1]) + (if TypeOf(t).Some? && t.id != "" then [t.id] else [])
  }

  predicate Ready(ts: seq<Token>) { Depth(ts) == 0 && TypeOfAll(ts) != Empty }

  /** A record is what its tokens make it: its type by the typed tokens it holds, its
      nesting never negative, and not ready before its last token. */
  ghost predicate RecOk(r: Rec) {
    && r.rt == TypeOfAll(r.tokens) && r.nesting == Depth(r.tokens) && r.ids == Ids(r.tokens)
    && (forall k :: 0 <= k <= |r.tokens| ==> Depth(r.tokens[..k]) >= 0)
    && (forall k :: 0 <= k < |r.tokens| ==> !Ready(r.tokens[..k]))
  }

  lemma {:induction false} TypesNotEmpty(ts: seq<Token>)
    ensures forall i :: 0 <= i < |Types(ts)| ==> Types(ts)[i] != Empty
  {
    if ts != [] {
      TypesNotEmpty(ts[..|ts| - 1]);
    }
  }

  /** RecordType::update keeps track of the types seen. */
  lemma AddType(ts: seq<Token>, t: Token)
    ensures TypeOfAll(ts + [t]) == match TypeOf(t)
                                   case None => TypeOfAll(ts)
                                   case Some(rt) => UpdateType(TypeOfAll(ts), rt)
  {
    assert (ts + [t])[..|ts|] == ts;
    TypesNotEmpty(ts);
  }

  lemma AddDepth(ts: seq<Token>, t: Token)
    ensures Depth(ts + [t]) == Depth(ts) + Delta(t)
  {
    assert (ts + [t])[..|ts|] == ts;
  }

  lemma AddIds(r: Rec, t: Token)
    requires r.ids == Ids(r.tokens) && AddToken(r, t).Some?
    ensures AddToken(r, t).value.ids == Ids(r.tokens + [t])
  {
    assert (r.tokens + [t])[..|r.tokens|] == r.tokens;
  }

  lemma AddKeepsRec(r: Rec, t: Token)
    requires RecOk(r) && !r.IsReady()
    ensures AddToken(r, t).None? <==> Depth(r.tokens) + Delta(t) < 0
    ensures AddToken(r, t).Some? ==> RecOk(AddToken(r, t).value) && AddToken(r, t).value.tokens == r.tokens + [t]
  {
    var n, all := |r.tokens|, r.tokens + [t];
    AddType(r.tokens, t);
    AddDepth(r.tokens, t);
    assert r.tokens[..n] == r.tokens && all[..n + 1] == all;
    assert Depth(r.tokens) >= 0;
    if AddToken(r, t).Some? {
      var r' := AddToken(r, t).value;
      AddIds(r, t);
      assert r'.tokens == all && r'.rt == TypeOfAll(all) && r'.nesting == Depth(all);
      forall k | 0 <= k <= n + 1 ensures Depth(all[..k]) >= 0 {
        assert k <= n ==> all[..k] == r.tokens[..k];
      }
      forall k | 0 <= k < n + 1 ensures !Ready(all[..k]) {
        assert all[..k] == r.tokens[..k];
      }
    }
  }

  // ---- What the type of a record says ----

  /** A token of which kinds of declaration. */
  predicate Declares(t: Token) {
    t.tt == Typedef || t.tt == Function || t.tt == Const || t.tt == PrivateToken || t.tt == PreprDefine
    || t.tt == PreprInclude
  }

  /** The only declaration among the tokens is of type tt. */
  ghost predicate Only(ts: seq<Token>, tt: TokenType) {
    exists i :: 0 <= i < |ts| && Declares(ts[i]) && ts[i].tt == tt
                && forall j :: 0 <= j < |ts| && Declares(ts[j]) ==> j == i
  }

  ghost predicate Several(ts: seq<Token>) {
    exists i, j :: 0 <= i < j < |ts| && Declares(ts[i]) && Declares(ts[j])
  }

  predicate NoDeclaration(ts: seq<Token>) { forall t | t in ts :: !Declares(t) }

  lemma {:induction false} TypesCount(ts: seq<Token>)
    ensures |Types(ts)| == 0 <==> NoDeclaration(ts)
    ensures |Types(ts)| >= 2 <==> Several(ts)
    ensures |Types(ts)| == 1 ==>
              exists i :: 0 <= i < |ts| && Declares(ts[i]) && Some(Types(ts)[0]) == TypeOf(ts[i])
                          && forall j :: 0 <= j < |ts| && Declares(ts[j]) ==> j == i
  {
    if ts != [] {
      var init, t := ts[..|ts| - 1], ts[|ts| - 1];
      assert ts == init + [t];
      TypesCount(init);
      SeveralSnoc(init, t);
      if |Types(ts)| == 1 && Declares(t) {
        forall j | 0 <= j < |init| ensures !Declares(init[j]) {
          assert init[j] in init;
        }
      }
    }
  }

  lemma SeveralSnoc(init: seq<Token>, t: Token)
    ensures Several(init + [t]) <==> Several(init) || (Declares(t) && !NoDeclaration(init))
  {
    var ts := init + [t];
    if i, j :| 0 <= i < j < |ts| && Declares(ts[i]) && Declares(ts[j]) {
      assert i < |init| && init[i] in init;
      if j < |init| {
        assert Declares(init[i]) && Declares(init[j]);
      }
    }
    if i, j :| 0 <= i < j < |init| && Declares(init[i]) && Declares(init[j]) {
      assert Declares(ts[i]) && Declares(ts[j]);
    }
    if Declares(t) && !NoDeclaration(init) {
      var x :| x in init && Declares(x);
      var i :| 0 <= i < |init| && init[i] == x;
      assert Declares(ts[i]) && Declares(ts[|init|]);
    }
  }

  /** The type of a record is that of its only declaration, Multiple when it has several
      and Empty when it has none. */
  lemma RecordTypeIs(r: Rec)
    requires RecOk(r)
    ensures r.rt == Empty <==> NoDeclaration(r.tokens)
    ensures r.rt == Multiple <==> Several(r.tokens)
    ensures r.rt == OfTypedef <==> Only(r.tokens, Typedef)
    ensures r.rt == OfFunction <==> Only(r.tokens, Function)
    ensures r.rt == OfConst <==> Only(r.tokens, Const)
    ensures r.rt == OfPrivate <==> Only(r.tokens, PrivateToken)
    ensures r.rt == OfDefine <==> Only(r.tokens, PreprDefine)
    ensures r.rt == OfInclude <==> Only(r.tokens, PreprInclude)
  {
    var ts := r.tokens;
    TypesCount(ts);
    if Several(ts) {
      SeveralNotOnly(ts);
    } else if NoDeclaration(ts) {
      forall i | 0 <= i < |ts| ensures !Declares(ts[i]) {
        assert ts[i] in ts;
      }
    } else {
      var i :| 0 <= i < |ts| && Declares(ts[i]) && Some(Types(ts)[0]) == TypeOf(ts[i])
               && forall j :: 0 <= j < |ts| && Declares(ts[j]) ==> j == i;
      assert forall tt :: Only(ts, tt) <==> tt == ts[i].tt;
    }
  }

  lemma SeveralNotOnly(ts: seq<Token>)
    requires Several(ts)
    ensures forall tt :: !Only(ts, tt)
  {
  }

  function AllTokens(rs: seq<Rec>): seq<Token> {
    if rs == [] then [] else rs[0].tokens + AllTokens(rs[1..])
  }

  lemma NewRecOk()
    ensures RecOk(NEW_REC) && !NEW_REC.IsReady()
  {
    assert NEW_REC.tokens == [] && Types([]) == [] && Ids([]) == [];
  }

  /** What grouping the text s yields with record r being collected. */
  ghost predicate WellGrouped(rs: seq<Rec>, before: seq<Token>, ts: seq<Token>) {
    && rs != [] && AllTokens(rs) == before + ts
    && (forall r | r in rs :: RecOk(r))
    && (forall i :: 0 <= i < |rs| - 1 ==> rs[i].IsReady())
    && !rs[|rs| - 1].IsReady()
  }

  lemma GroupedCons(r: Rec, rs: seq<Rec>, before: seq<Token>, t: Token, ts: seq<Token>)
    requires RecOk(r) && r.IsReady() && r.tokens == before + [t] && WellGrouped(rs, [], ts)
    ensures WellGrouped([r] + rs, before, [t] + ts)
  {
    assert ([r] + rs)[1..] == rs;
    assert (before + [t]) + ([] + ts) == before + ([t] + ts);
  }

  lemma GroupedShift(rs: seq<Rec>, before: seq<Token>, t: Token, ts: seq<Token>)
    requires WellGrouped(rs, before + [t], ts)
    ensures WellGrouped(rs, before, [t] + ts)
  {
    assert (before + [t]) + ts == before + ([t] + ts);
  }

  lemma GroupedLast(r: Rec)
    requires RecOk(r) && !r.IsReady()
    ensures WellGrouped([r], r.tokens, [])
  {
    assert ([r])[1..] == [] && r.tokens + [] == r.tokens;
  }

  /** Grouping loses and reorders no token; every record but the last is ready, that
      is, typed and balanced; each record is typed by the tokens it holds. */
  lemma {:induction false} GroupLaws(s: string, alnum: char -> bool, r: Rec)
    requires RecOk(r) && !r.IsReady() && Group(s, alnum, r).Records?
    ensures Tokenize(s, alnum).Some?
    ensures WellGrouped(Group(s, alnum, r).records, r.tokens, Tokenize(s, alnum).value)
    decreases |s|
  {
    hide RecOk, WellGrouped, AddToken, LexNext;
    if s == "" {
      GroupedLast(r);
    } else {
      SpansOk(s, alnum);
      var t := LexNext(s, alnum).token;
      var rest := s[|t.span|..];
      AddKeepsRec(r, t);
      var r' := AddToken(r, t).value;
      NewRecOk();
      if r'.IsReady() {
        GroupLaws(rest, alnum, NEW_REC);
        GroupedCons(r', Group(rest, alnum, NEW_REC).records, r.tokens, t, Tokenize(rest, alnum).value);
      } else {
        GroupLaws(rest, alnum, r');
        GroupedShift(Group(rest, alnum, r').records, r.tokens, t, Tokenize(rest, alnum).value);
      }
    }
  }

  /** Some prefix of the tokens, read from depth d, closes more than was opened. */
  predicate Overclosed(d: int, ts: seq<Token>)
    decreases ts
  {
    ts != [] && (d + Delta(ts[0]) < 0 || Overclosed(d + Delta(ts[0]), ts[1..]))
  }

  lemma {:induction false} OverclosedMeans(d: int, ts: seq<Token>)
    requires d >= 0
    ensures Overclosed(d, ts) <==> exists k :: 0 <= k <= |ts| && d + Depth(ts[..k]) < 0
    decreases ts
  {
    if ts != [] {
      var e := d + Delta(ts[0]);
      if e >= 0 {
        OverclosedMeans(e, ts[1..]);
      }
      forall k | 1 <= k <= |ts| ensures Depth(ts[..k]) == Delta(ts[0]) + Depth(ts[1..][..k - 1]) {
        DepthCons(ts[0], ts[1..][..k - 1]);
        assert [ts[0]] + ts[1..][..k - 1] == ts[..k];
      }
      assert Depth(ts[..1]) == Delta(ts[0]) + Depth(ts[1..][..0]);
      if k :| 0 <= k <= |ts[1..]| && e + Depth(ts[1..][..k]) < 0 {
        assert Depth(ts[..k + 1]) == Delta(ts[0]) + Depth(ts[1..][..k]);
      }
    }
  }

  lemma {:induction false} DepthCons(t: Token, ts: seq<Token>)
    ensures Depth([t] + ts) == Delta(t) + Depth(ts)
  {
    if ts == [] {
      assert [t] + ts == [t] && [t][..0] == [];
    } else {
      assert ([t] + ts)[..|ts|] == [t] + ts[..|ts| - 1];
      DepthCons(t, ts[..|ts| - 1]);
    }
  }

  /** On text the tokenizer accepts, grouping fails exactly when some prefix of the
      tokens closes more conditionals than it opens. */
  lemma {:induction false} GroupFails(s: string, alnum: char -> bool, r: Rec)
    requires RecOk(r) && !r.IsReady() && Tokenize(s, alnum).Some?
    ensures Group(s, alnum, r) == UnmatchedEndif <==> Overclosed(r.nesting, Tokenize(s, alnum).value)
    ensures Group(s, alnum, r) != Panicked
    decreases |s|
  {
    hide LexNext, Overclosed;
    if s == "" {
      OverclosedNothing(r.nesting);
    } else {
      SpansOk(s, alnum);
      var t := LexNext(s, alnum).token;
      var rest := s[|t.span|..];
      var ts := Tokenize(rest, alnum).value;
      OverclosedStep(r.nesting, t, ts);
      AddKeepsRec(r, t);
      if AddToken(r, t).Some? {
        var r' := AddToken(r, t).value;
        NewRecOk();
        GroupFails(rest, alnum, if r'.IsReady() then NEW_REC else r');
      }
    }
  }

  lemma OverclosedNothing(d: int)
    ensures !Overclosed(d, [])
  {
  }

  lemma OverclosedStep(d: int, t: Token, ts: seq<Token>)
    ensures Overclosed(d, [t] + ts) <==> d + Delta(t) < 0 || Overclosed(d + Delta(t), ts)
  {
    assert ([t] + ts)[1..] == ts;
  }

  /** The whole pass over a header text. */
  lemma SplitHeader(s: string, alnum: char -> bool)
    requires Tokenize(s, alnum).Some?
    ensures var ts := Tokenize(s, alnum).value;
            && Text(ts) == s && InPlace(ts, alnum)
            && (Group(s, alnum, NEW_REC) == UnmatchedEndif <==> exists k :: 0 <= k <= |ts| && Depth(ts[..k]) < 0)
            && (Group(s, alnum, NEW_REC) != UnmatchedEndif ==>
                  Group(s, alnum, NEW_REC).Records? && WellGrouped(Group(s, alnum, NEW_REC).records, [], ts))
  {
    NewRecOk();
    TokensTile(s, alnum);
    TokensInPlace(s, alnum);
    hide InPlace;
    GroupFails(s, alnum, NEW_REC);
    var ts := Tokenize(s, alnum).value;
    OverclosedMeans(0, ts);
    if k :| 0 <= k <= |ts| && Depth(ts[..k]) < 0 {
      assert 0 + Depth(ts[..k]) < 0;
    }
    if Group(s, alnum, NEW_REC).Records? {
      GroupLaws(s, alnum, NEW_REC);
    }
  }

  /** No record boundary falls inside an open conditional of the whole text. */
  lemma {:induction false} BoundariesBalanced(rs: seq<Rec>, k: nat)
    requires k < |rs| && (forall r | r in rs :: RecOk(r)) && forall i :: 0 <= i < |rs| - 1 ==> rs[i].IsReady()
    ensures Depth(AllTokens(rs[..k])) == 0
  {
    if k > 0 {
      var tail := rs[1..];
      assert rs[..k][1..] == tail[..k - 1] && rs[..k][0] == rs[0];
      assert forall r | r in tail :: r in rs;
      BoundariesBalanced(tail, k - 1);
      DepthAppend(rs[0].tokens, AllTokens(tail[..k - 1]));
      assert rs[0] in rs;
    }
  }

  lemma {:induction false} DepthAppend(a: seq<Token>, b: seq<Token>)
    ensures Depth(a + b) == Depth(a) + Depth(b)
  {
    if b == [] {
      assert a + b == a;
    } else {
      assert (a + b)[..|a + b| - 1] == a + b[..|b| - 1];
      DepthAppend(a, b[..|b| - 1]);
    }
  }
}
