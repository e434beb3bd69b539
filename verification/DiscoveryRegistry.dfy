/** The registry of talosos_tool's topic and service lists, its printed form, and
    topic.py reading it back. */
module DiscoveryRegistry {
  import opened Splitting
  import opened Discovery
  import opened Sorting

  /** Type and nodes announced for one topic key. */
  datatype Entry = Entry(typeName: string, nodes: set<string>)

  type Registry = map<string, Entry>

  function EntryAt(reg: Registry, key: string): Entry {
    if key in reg then reg[key] else Entry("", {})
  }

  /** registry[key]: keep the first non-empty type, collect the nodes. */
  function Register(reg: Registry, a: Announcement): Registry {
    var e := EntryAt(reg, a.key);
    reg[a.key := Entry(if a.typeName != "" && e.typeName == "" then a.typeName else e.typeName, e.nodes + {a.node})]
  }

  function Build(announced: seq<Announcement>): Registry {
    if announced == [] then map[]
    else Register(Build(announced[..|announced| - 1]), announced[|announced| - 1])
  }

  /** The announcements among replies, in order. */
  function Parsed(replies: seq<string>): seq<Announcement> {
    if replies == [] then []
    else
      var before := Parsed(replies[..|replies| - 1]);
      match Parse(replies[|replies| - 1])
      case None => before
      case Some(a) => before + [a]
  }

  /** The tool while replies come in. */
  class Lister {
    var registry: Registry

    constructor ()
      ensures registry == map[]
    {
      registry := map[];
    }

    /** on_reply: split the key, scan for the markers, rebuild the three parts. */
    method OnReply(k: string)
      modifies this
      ensures registry == match Parse(k)
                          case None => old(registry)
                          case Some(a) => Register(old(registry), a)
    {
      var r := ReadReply(k);
      if r == None {
        return;
      }
      var a := r.value;
      var e := if a.key in registry then registry[a.key] else Entry("", {});
      if a.typeName != "" && e.typeName == "" {
        e := e.(typeName := a.typeName);
      }
      registry := registry[a.key := e.(nodes := e.nodes + {a.node})];
    }
  }

  /** on_reply up to the lock. */
  method ReadReply(k: string) returns (r: Option<Announcement>)
    ensures r == Parse(k)
  {
    hide Split, Join;
    var parts := SplitOn('/', k);
    if |parts| < 4 || parts[0] != "_talos" {
      return None;
    }
    var tAt, nAt := FindMarkers(parts);
    if nAt == |parts| || nAt + 1 >= |parts| {
      return None;
    }
    ghost var t := FirstAt(parts, "_t", 2);
    var keyEnd := if tAt < nAt then tAt else nAt;
    assert keyEnd == if t < nAt then t else nAt;
    var key := JoinRange(parts, 2, keyEnd);
    var typeName := "";
    if tAt < nAt && tAt + 1 < nAt {
      typeName := JoinRange(parts, tAt + 1, nAt);
    }
    JoinNothing('/');
    assert t + 1 == nAt ==> parts[t + 1..nAt] == [];
    assert typeName == if t < nAt then Join('/', parts[t + 1..nAt]) else "";
    var node := JoinRange(parts, nAt + 1, |parts|);
    assert parts[nAt + 1..|parts|] == parts[nAt + 1..];
    r := Some(Announcement(key, typeName, node));
  }

  /** The scan for the `_t` and `_n` markers; a `_t` after the `_n` is not looked for. */
  method FindMarkers(parts: seq<string>) returns (tAt: nat, nAt: nat)
    requires |parts| >= 2
    ensures nAt == FirstAt(parts, "_n", 2)
    ensures if FirstAt(parts, "_t", 2) < nAt then tAt == FirstAt(parts, "_t", 2) else tAt >= nAt
  {
    tAt, nAt := |parts|, |parts|;
    var i := 2;
    while i < |parts|
      invariant 2 <= i <= |parts| && nAt == |parts|
      invariant forall j :: 2 <= j < i ==> parts[j] != "_n"
      invariant if tAt == |parts| then forall j :: 2 <= j < i ==> parts[j] != "_t"
                else 2 <= tAt < i && parts[tAt] == "_t" && forall j :: 2 <= j < tAt ==> parts[j] != "_t"
    {
      if parts[i] == "_t" && tAt == |parts| {
        tAt := i;
      } else if parts[i] == "_n" && nAt == |parts| {
        nAt := i;
        break;
      }
      i := i + 1;
    }
  }

  /** The loops that put parts lo to hi back together with slashes. */
  method JoinRange(parts: seq<string>, lo: nat, hi: nat) returns (s: string)
    requires lo <= hi <= |parts|
    ensures s == Join('/', parts[lo..hi])
  {
    s := "";
    for i := lo to hi
      invariant s == Join('/', parts[lo..i])
    {
      JoinSnoc('/', parts[lo..i], parts[i]);
      assert parts[lo..i] + [parts[i]] == parts[lo..i + 1];
      if i > lo {
        s := s + ['/'];
      }
      s := s + parts[i];
    }
  }

  // ---- What the registry holds ----

  /** The first non-empty type announced for a key. */
  function FirstType(announced: seq<Announcement>, key: string): string {
    if announced == [] then ""
    else
      var t := FirstType(announced[..|announced| - 1], key);
      var a := announced[|announced| - 1];
      if t == "" && a.key == key then a.typeName else t
  }

  lemma {:induction false} BuildIs(announced: seq<Announcement>, key: string)
    ensures key in Build(announced) <==> exists a :: a in announced && a.key == key
    ensures EntryAt(Build(announced), key).typeName == FirstType(announced, key)
    ensures forall n :: n in EntryAt(Build(announced), key).nodes <==>
              exists a :: a in announced && a.key == key && a.node == n
  {
    if announced != [] {
      var before, a := announced[..|announced| - 1], announced[|announced| - 1];
      assert announced == before + [a];
      BuildIs(before, key);
    }
  }

  /** Non-empty types announced for one key are the same. */
  predicate TypesAgree(announced: seq<Announcement>) {
    forall a, b | a in announced && b in announced && a.key == b.key && a.typeName != "" && b.typeName != "" ::
      a.typeName == b.typeName
  }

  lemma {:induction false} FirstTypeIs(announced: seq<Announcement>, key: string)
    ensures FirstType(announced, key) == "" ==> forall a | a in announced && a.key == key :: a.typeName == ""
    ensures FirstType(announced, key) != "" ==>
              exists a :: a in announced && a.key == key && a.typeName == FirstType(announced, key)
  {
    if announced != [] {
      var before, a := announced[..|announced| - 1], announced[|announced| - 1];
      assert announced == before + [a];
      FirstTypeIs(before, key);
    }
  }

  /** The type at position i is the first one announced for its key that is not empty. */
  ghost predicate FirstTyped(announced: seq<Announcement>, key: string, i: int) {
    && 0 <= i < |announced| && announced[i].key == key && announced[i].typeName != ""
    && forall j :: 0 <= j < i && announced[j].key == key ==> announced[j].typeName == ""
  }

  lemma {:induction false} FirstTypeExactly(announced: seq<Announcement>, key: string)
    ensures forall i :: FirstTyped(announced, key, i) ==> FirstType(announced, key) == announced[i].typeName
    ensures FirstType(announced, key) == "" <==> forall i :: !FirstTyped(announced, key, i)
  {
    if announced != [] {
      var n := |announced| - 1;
      var before := announced[..n];
      FirstTypeExactly(before, key);
      forall i | 0 <= i < n ensures FirstTyped(announced, key, i) <==> FirstTyped(before, key, i) {
      }
      FirstTypeIs(before, key);
      if FirstType(before, key) != "" {
        var i :| FirstTyped(before, key, i);
        assert !FirstTyped(announced, key, n);
      } else {
        assert forall j :: 0 <= j < n && announced[j].key == key ==> announced[j] in before;
        assert FirstTyped(announced, key, n) <==> announced[n].key == key && announced[n].typeName != "";
      }
    }
  }

  /** The registry does not depend on the order or the repetition of replies as far
      as keys and nodes go, and not at all when the announced types agree; when they
      do not, the first non-empty one wins. */
  lemma OrderIndependent(xs: seq<Announcement>, ys: seq<Announcement>)
    requires forall a :: a in xs <==> a in ys
    ensures Build(xs).Keys == Build(ys).Keys
    ensures forall key | key in Build(xs) ::
              Build(xs)[key].nodes == Build(ys)[key].nodes && Build(xs)[key].typeName == FirstType(xs, key)
    ensures TypesAgree(xs) ==> Build(xs) == Build(ys)
  {
    forall key ensures key in Build(xs) <==> key in Build(ys)
               ensures EntryAt(Build(xs), key).nodes == EntryAt(Build(ys), key).nodes
               ensures EntryAt(Build(xs), key).typeName == FirstType(xs, key)
               ensures TypesAgree(xs) ==> EntryAt(Build(xs), key) == EntryAt(Build(ys), key)
    {
      BuildIs(xs, key);
      BuildIs(ys, key);
      FirstTypeIs(xs, key);
      FirstTypeIs(ys, key);
    }
    assert forall key | key in Build(xs) :: Build(xs)[key] == EntryAt(Build(xs), key);
    assert forall key | key in Build(ys) :: Build(ys)[key] == EntryAt(Build(ys), key);
  }

  lemma {:induction false} ParsedMembers(replies: seq<string>)
    ensures forall a :: a in Parsed(replies) <==> exists r :: r in replies && Parse(r) == Some(a)
  {
    if replies != [] {
      var before, last := replies[..|replies| - 1], replies[|replies| - 1];
      assert replies == before + [last];
      ParsedMembers(before);
    }
  }

  /** ... and so for the replies themselves, whatever they hold. */
  lemma RepliesIndependent(xs: seq<string>, ys: seq<string>)
    requires forall r :: r in xs <==> r in ys
    ensures var a, b := Build(Parsed(xs)), Build(Parsed(ys));
            && a.Keys == b.Keys && (forall key | key in a :: a[key].nodes == b[key].nodes)
            && (TypesAgree(Parsed(xs)) ==> a == b)
  {
    ParsedMembers(xs);
    ParsedMembers(ys);
    OrderIndependent(Parsed(xs), Parsed(ys));
  }

  // ---- Printing and reading ----

  /** One line of the list: what is printed and what Python makes of it. */
  datatype Row = Row(key: string, typeName: string, nodes: seq<string>)

  /** What %s prints of c_str(): everything up to the first NUL. */
  function CStr(s: string): (t: string)
    ensures t <= s && '\0' !in t
    ensures t == s <==> '\0' !in s
  {
    if s == "" || s[0] == '\0' then "" else [s[0]] + CStr(s[1..])
  }

  /** printf("%s\t%s\t%s\n"), without the line feed. */
  function PrintRow(r: Row): string {
    CStr(r.key) + "\t" + CStr(r.typeName) + "\t" + CStr(Join(',', r.nodes))
  }

  function AsTopicName(key: string): string { if LeadsWithSlash(key) then key else "/" + key }

  function ReadNodes(f: string): seq<string> { if f != "" then Split(',', f) else [] }

  /** The body of the loop in _collect_list. */
  function ReadRow(line: string): Row {
    var parts := Split('\t', line);
    if |parts| >= 3 then Row(AsTopicName(parts[0]), parts[1], ReadNodes(parts[2]))
    else if |parts| == 2 then Row(AsTopicName(parts[0]), "", ReadNodes(parts[1]))
    else Row(AsTopicName(parts[0]), "", [])
  }

  /** One column is a key, two are a key and nodes, three or more are a key, a type and
      nodes; a key is shown behind a slash, and nodes are what lies between commas. */
  lemma FieldsRead(fields: seq<string>)
    requires fields != [] && forall f | f in fields :: '\t' !in f
    ensures var row, n := ReadRow(Join('\t', fields)), |fields|;
            && LeadsWithSlash(row.key)
            && row.key == (if LeadsWithSlash(fields[0]) then fields[0] else "/" + fields[0])
            && row.typeName == (if n >= 3 then fields[1] else "")
            && NodesRead(if n >= 3 then fields[2] else if n == 2 then fields[1] else "", row.nodes)
  {
    SplitJoin('\t', fields);
    JoinSplit(',', if |fields| >= 3 then fields[2] else if |fields| == 2 then fields[1] else "");
  }

  predicate NodesRead(f: string, nodes: seq<string>) {
    Join(',', nodes) == f && (f == "" ==> nodes == []) && forall n | n in nodes :: ',' !in n
  }

  /** str.isspace, as strip() uses it. */
  predicate IsSpace(c: char) {
    var n := c as int;
    9 <= n <= 13 || 28 <= n <= 32 || n == 0x85 || n == 0xA0 || n == 0x1680 || 0x2000 <= n <= 0x200A
    || n == 0x2028 || n == 0x2029 || n == 0x202F || n == 0x205F || n == 0x3000
  }

  /** The characters at which splitlines() ends a line. */
  predicate IsBreak(c: char) {
    var n := c as int;
    10 <= n <= 13 || 28 <= n <= 30 || n == 0x85 || n == 0x2028 || n == 0x2029
  }

  predicate Blank(line: string) { forall c | c in line :: IsSpace(c) }

  /** Up to the first line break, and after it; "\r\n" is one break. */
  function TakeLine(s: string): (r: (string, string))
    requires s != ""
    ensures |r.1| < |s|
  {
    if IsBreak(s[0]) then ("", if s[0] == '\r' && |s| > 1 && s[1] == '\n' then s[2..] else s[1..])
    else if |s| == 1 then (s, "")
    else
      var (l, rest) := TakeLine(s[1..]);
      ([s[0]] + l, rest)
  }

  /** str.splitlines() */
  function SplitLines(s: string): seq<string>
    decreases |s|
  {
    if s == "" then [] else var (l, rest) := TakeLine(s); [l] + SplitLines(rest)
  }

  /** A line ends with the text, with "\r\n", or with a break that is not the first half
      of one. */
  predicate Ends(b: string, rest: string) {
    || (b == "" && rest == "")
    || b == "\r\n"
    || (|b| == 1 && IsBreak(b[0]) && !(b == "\r" && rest != "" && rest[0] == '\n'))
  }

  lemma {:induction false} TakeLineIs(s: string) returns (b: string)
    requires s != ""
    ensures s == TakeLine(s).0 + b + TakeLine(s).1 && Ends(b, TakeLine(s).1)
  {
    if IsBreak(s[0]) {
      b := if s[0] == '\r' && |s| > 1 && s[1] == '\n' then "\r\n" else [s[0]];
    } else if |s| == 1 {
      b := "";
    } else {
      b := TakeLineIs(s[1..]);
      hide IsBreak, Ends;
      var (l, rest) := TakeLine(s[1..]);
      assert s == [s[0]] + (l + b + rest);
      Regroup([s[0]], l, b, rest, "", "", "");
    }
  }

  function Print(rows: seq<Row>): string {
    if rows == [] then "" else PrintRow(rows[0]) + "\n" + Print(rows[1..])
  }

  function ReadLines(lines: seq<string>): seq<Row> {
    if lines == [] then []
    else (if Blank(lines[0]) then [] else [ReadRow(lines[0])]) + ReadLines(lines[1..])
  }

  /** _collect_list on the tool's output. */
  method CollectList(output: string) returns (out: seq<Row>)
    ensures out == ReadLines(SplitLines(output))
  {
    out := [];
    var lines := SplitLines(output);
    assert lines[0..] == lines;
    for i := 0 to |lines|
      invariant out + ReadLines(lines[i..]) == ReadLines(lines)
    {
      NextRow(out, lines, i);
      if !Blank(lines[i]) {
        var row := ReadLine(lines[i]);
        out := out + [row];
      }
    }
    assert out + [] == out;
  }

  lemma NextRow(out: seq<Row>, lines: seq<string>, i: nat)
    requires i < |lines|
    ensures out + ReadLines(lines[i..])
         == (if Blank(lines[i]) then out else out + [ReadRow(lines[i])]) + ReadLines(lines[i + 1..])
  {
    assert lines[i..][0] == lines[i] && lines[i..][1..] == lines[i + 1..];
    var row, rest := ReadRow(lines[i]), ReadLines(lines[i + 1..]);
    assert out + ([row] + rest) == (out + [row]) + rest;
    assert [] + rest == rest;
  }

  method ReadLine(line: string) returns (row: Row)
    ensures row == ReadRow(line)
  {
    var parts := SplitOn('\t', line);
    if |parts| >= 3 {
      var nodes := [];
      if parts[2] != "" {
        nodes := SplitOn(',', parts[2]);
      }
      row := Row(AsTopicName(parts[0]), parts[1], nodes);
    } else if |parts| == 2 {
      var nodes := [];
      if parts[1] != "" {
        nodes := SplitOn(',', parts[1]);
      }
      row := Row(AsTopicName(parts[0]), "", nodes);
    } else {
      row := Row(AsTopicName(parts[0]), "", []);
    }
  }

  /** What the columns of one line can hold. */
  predicate Separable(r: Row) {
    && Columned(r.key) && Columned(r.typeName) && r.nodes != [""]
    && forall n | n in r.nodes :: Columned(n) && ',' !in n
  }

  predicate Columned(s: string) { '\t' !in s && '\0' !in s }

  predicate Unbroken(s: string) { forall c | c in s :: !IsBreak(c) }

  /** A row that survives printing: separable, no line break anywhere, and something to
      see on its line. */
  predicate Printable(r: Row) {
    Separable(r) && UnbrokenRow(r) && !Blank(PrintRow(r))
  }

  predicate UnbrokenRow(r: Row) {
    Unbroken(r.key) && Unbroken(r.typeName) && forall n | n in r.nodes :: Unbroken(n)
  }

  /** The condition on one name. */
  predicate Plain(s: string) { Columned(s) && Unbroken(s) }

  lemma {:induction false} JoinHolds(nodes: seq<string>, c: char)
    requires c != ','
    ensures c in Join(',', nodes) <==> exists n :: n in nodes && c in n
  {
    if nodes != [] {
      assert nodes == [nodes[0]] + nodes[1..];
      JoinHolds(nodes[1..], c);
      if |nodes| > 1 {
        assert Join(',', nodes) == nodes[0] + [','] + Join(',', nodes[1..]);
      }
    }
  }

  lemma JoinEmpty(nodes: seq<string>)
    ensures Join(',', nodes) == "" <==> nodes == [] || nodes == [""]
  {
  }

  /** The fields of a printed row start with those of its columns. */
  lemma PrintedFields(k: string, t: string, j: string)
    ensures Split('\t', k + "\t" + t + "\t" + j) == Split('\t', k) + (Split('\t', t) + Split('\t', j))
  {
    assert k + "\t" + t + "\t" + j == k + ['\t'] + (t + ['\t'] + j);
    SplitAppend('\t', k, t + ['\t'] + j);
    SplitAppend('\t', t, j);
  }

  /** The first field of a column is the column exactly when it holds no tab. */
  lemma FirstField(s: string)
    ensures Split('\t', s)[0] == s <==> '\t' !in s
    ensures '\t' !in Split('\t', s)[0] && forall c | c in Split('\t', s)[0] :: c in s
  {
    JoinSplit('\t', s);
    assert Split('\t', s)[0] in Split('\t', s);
    PartOf('\t', s, 0);
    if '\t' !in s {
      SplitNone('\t', s);
    }
  }

  /** Segments hold nothing that the text does not. */
  lemma {:induction false} PartOf(sep: char, s: string, i: nat)
    requires i < |Split(sep, s)|
    ensures forall c | c in Split(sep, s)[i] :: c in s
  {
    if s != "" {
      var r := Split(sep, s[1..]);
      assert s == [s[0]] + s[1..];
      if s[0] == sep {
        if i > 0 {
          PartOf(sep, s[1..], i - 1);
        }
      } else {
        PartOf(sep, s[1..], i);
        assert Split(sep, s)[i] == if i == 0 then [s[0]] + r[0] else r[i];
      }
    }
  }

  /** What is read of a column that printf may have cut. */
  lemma ColumnExactly(s: string)
    ensures Split('\t', CStr(s))[0] == s <==> Columned(s)
    ensures Columned(Split('\t', CStr(s))[0])
  {
    FirstField(CStr(s));
  }

  /** The columns of a printed row, read back. */
  lemma ReadColumns(r: Row)
    ensures ReadRow(PrintRow(r)).key == AsTopicName(Split('\t', CStr(r.key))[0])
    ensures '\t' !in CStr(r.key) ==> ReadRow(PrintRow(r)).typeName == Split('\t', CStr(r.typeName))[0]
    ensures '\t' !in CStr(r.key) && '\t' !in CStr(r.typeName) ==>
              ReadRow(PrintRow(r)).nodes == ReadNodes(Split('\t', CStr(Join(',', r.nodes)))[0])
  {
    var k, t, j := CStr(r.key), CStr(r.typeName), CStr(Join(',', r.nodes));
    PrintedFields(k, t, j);
    if '\t' !in k {
      SplitNone('\t', k);
      if '\t' !in t {
        SplitNone('\t', t);
      }
    }
  }

  /** A row reads back from its line if and only if no column holds a tab, a NUL or,
      in a node, a comma, and the nodes are not one empty name. */
  lemma ReadRowExactly(r: Row)
    ensures ReadRow(PrintRow(r)) == r.(key := AsTopicName(r.key)) <==> Separable(r)
  {
    hide ReadRow, PrintRow, ReadNodes;
    var k := Split('\t', CStr(r.key))[0];
    ReadColumns(r);
    ColumnExactly(r.key);
    ColumnExactly(r.typeName);
    ReadNodesExactly(r.nodes);
    assert Columned(AsTopicName(k)) && (Columned(AsTopicName(r.key)) <==> Columned(r.key));
  }

  lemma ReadNodesExactly(nodes: seq<string>)
    ensures ReadNodes(Split('\t', CStr(Join(',', nodes)))[0]) == nodes
            <==> nodes != [""] && forall n | n in nodes :: Columned(n) && ',' !in n
  {
    var joined := Join(',', nodes);
    var f := Split('\t', CStr(joined))[0];
    ColumnExactly(joined);
    ReadNodesClean(f);
    JoinHolds(nodes, '\t');
    JoinHolds(nodes, '\0');
    JoinEmpty(nodes);
    if nodes != [""] && forall n | n in nodes :: Columned(n) && ',' !in n {
      if nodes != [] {
        SplitJoin(',', nodes);
      }
    }
  }

  lemma ReadNodesClean(f: string)
    requires Columned(f)
    ensures forall n | n in ReadNodes(f) :: Columned(n) && ',' !in n
    ensures ReadNodes(f) != [""]
  {
    JoinSplit(',', f);
    forall n | n in ReadNodes(f) ensures Columned(n) && ',' !in n {
      JoinHolds(Split(',', f), '\t');
      JoinHolds(Split(',', f), '\0');
    }
  }

  /** A topic whose key holds a NUL is listed under the part before it. */
  lemma NulKeyIsCut()
    ensures ReadRow(PrintRow(Row("a\0b", "T", ["n"]))) == Row("/a", "T", ["n"])
  {
    var cut := Row("a", "T", ["n"]);
    var s := "a\0b";
    assert s[1..][0] == '\0' && CStr(s[1..]) == "" && CStr(s) == ['a'] + CStr(s[1..]);
    assert CStr(s) == "a" == CStr("a");
    assert PrintRow(Row(s, "T", ["n"])) == PrintRow(cut);
    assert '\t' !in cut.key && '\0' !in cut.key && cut.nodes[0] == "n";
    assert Separable(cut);
    ReadRowExactly(cut);
  }

  lemma PrintedUnbroken(r: Row)
    requires UnbrokenRow(r)
    ensures Unbroken(PrintRow(r))
  {
    var joined := Join(',', r.nodes);
    forall c | c in joined ensures !IsBreak(c) {
      if c != ',' {
        JoinHolds(r.nodes, c);
      }
    }
    assert forall c | c in CStr(r.key) :: c in r.key;
    assert forall c | c in CStr(r.typeName) :: c in r.typeName;
    assert forall c | c in CStr(joined) :: c in joined;
  }

  lemma {:induction false} TakePrinted(line: string, rest: string)
    requires Unbroken(line)
    ensures TakeLine(line + "\n" + rest) == (line, rest)
  {
    var s := line + "\n" + rest;
    if line == "" {
      assert s[1..] == rest;
    } else {
      assert s[1..] == line[1..] + "\n" + rest;
      TakePrinted(line[1..], rest);
      assert [line[0]] + line[1..] == line;
    }
  }

  function Displayed(rows: seq<Row>): seq<Row> {
    if rows == [] then [] else [rows[0].(key := AsTopicName(rows[0].key))] + Displayed(rows[1..])
  }

  /** A line that splitlines() returns holds no line break. */
  lemma {:induction false} LinesUnbroken(s: string)
    ensures forall l | l in SplitLines(s) :: Unbroken(l)
    decreases |s|
  {
    if s != "" {
      TakeUnbroken(s);
      LinesUnbroken(TakeLine(s).1);
    }
  }

  lemma {:induction false} TakeUnbroken(s: string)
    requires s != ""
    ensures Unbroken(TakeLine(s).0)
  {
    if !IsBreak(s[0]) && |s| > 1 {
      TakeUnbroken(s[1..]);
    }
  }

  lemma ReadUnbroken(line: string)
    requires Unbroken(line)
    ensures UnbrokenRow(ReadRow(line))
  {
    var parts := Split('\t', line);
    forall i | 0 <= i < |parts| ensures Unbroken(parts[i]) {
      PartOf('\t', line, i);
    }
    var f := if |parts| >= 3 then parts[2] else if |parts| == 2 then parts[1] else "";
    forall n | n in ReadNodes(f) ensures Unbroken(n) {
      var i :| 0 <= i < |Split(',', f)| && Split(',', f)[i] == n;
      PartOf(',', f, i);
    }
  }

  lemma {:induction false} AllReadUnbroken(lines: seq<string>)
    requires forall l | l in lines :: Unbroken(l)
    ensures forall r | r in ReadLines(lines) :: UnbrokenRow(r)
  {
    if lines != [] {
      assert lines[0] in lines;
      ReadUnbroken(lines[0]);
      AllReadUnbroken(lines[1..]);
    }
  }

  lemma {:induction false} DisplayedUnbroken(rows: seq<Row>)
    requires forall r | r in Displayed(rows) :: UnbrokenRow(r)
    ensures forall r | r in rows :: UnbrokenRow(r)
  {
    if rows != [] {
      var d := Displayed(rows);
      assert d[0] in d && d[1..] == Displayed(rows[1..]);
      assert forall c | c in rows[0].key :: c in d[0].key;
      assert forall r | r in d[1..] :: r in d;
      DisplayedUnbroken(rows[1..]);
      assert rows == [rows[0]] + rows[1..];
    }
  }

  function PrintedLines(rows: seq<Row>): seq<string> {
    if rows == [] then [] else [PrintRow(rows[0])] + PrintedLines(rows[1..])
  }

  lemma {:induction false} SplitPrinted(rows: seq<Row>)
    requires forall r | r in rows :: UnbrokenRow(r)
    ensures SplitLines(Print(rows)) == PrintedLines(rows)
  {
    if rows != [] {
      PrintedUnbroken(rows[0]);
      TakePrinted(PrintRow(rows[0]), Print(rows[1..]));
      SplitPrinted(rows[1..]);
    }
  }

  lemma {:induction false} ReadPrinted(rows: seq<Row>)
    ensures |ReadLines(PrintedLines(rows))| <= |rows| == |Displayed(rows)|
    ensures ReadLines(PrintedLines(rows)) == Displayed(rows)
            <==> forall r | r in rows :: Separable(r) && !Blank(PrintRow(r))
  {
    if rows != [] {
      var r, rest := rows[0], rows[1..];
      var more, d := ReadLines(PrintedLines(rest)), Displayed(rest);
      var head := r.(key := AsTopicName(r.key));
      assert rows == [r] + rest;
      ReadPrinted(rest);
      ReadRowExactly(r);
      assert PrintedLines(rows)[1..] == PrintedLines(rest);
      if !Blank(PrintRow(r)) {
        OneAhead(ReadRow(PrintRow(r)), more, head, d);
      }
    }
  }

  lemma OneAhead(x: Row, xs: seq<Row>, y: Row, ys: seq<Row>)
    ensures [x] + xs == [y] + ys <==> x == y && xs == ys
  {
    if [x] + xs == [y] + ys {
      assert ([x] + xs)[0] == ([y] + ys)[0] && ([x] + xs)[1..] == ([y] + ys)[1..];
    }
  }

  /** Reading the printed list gives back every row under its displayed name, and no
      other, if and only if every row is printable. */
  lemma ListRoundTrip(rows: seq<Row>)
    ensures ReadLines(SplitLines(Print(rows))) == Displayed(rows) <==> forall r | r in rows :: Printable(r)
  {
    if ReadLines(SplitLines(Print(rows))) == Displayed(rows) {
      LinesUnbroken(Print(rows));
      AllReadUnbroken(SplitLines(Print(rows)));
      DisplayedUnbroken(rows);
    }
    if forall r | r in rows :: UnbrokenRow(r) {
      SplitPrinted(rows);
      ReadPrinted(rows);
    }
  }

  /** rows lists a registry: one row per key, each with its type and its nodes. */
  ghost predicate Lists(rows: seq<Row>, reg: Registry) {
    && (forall i, j :: 0 <= i < j < |rows| ==> rows[i].key != rows[j].key)
    && (forall k :: k in reg <==> Listed(rows, k))
    && forall r | r in rows && r.key in reg ::
         r.typeName == reg[r.key].typeName && NodesAre(r.nodes, reg[r.key].nodes)
  }

  /** Each node once. */
  ghost predicate NodesAre(nodes: seq<string>, all: set<string>) {
    (forall n :: n in nodes <==> n in all) && forall i, j :: 0 <= i < j < |nodes| ==> nodes[i] != nodes[j]
  }

  /** Both std::map and std::set are walked in order. */
  predicate InOrder(rows: seq<Row>) {
    && (forall i, j :: 0 <= i < j < |rows| ==> Leq(rows[i].key, rows[j].key))
    && forall r | r in rows :: Sorted(r.nodes)
  }

  predicate Listed(rows: seq<Row>, key: string) { exists r :: r in rows && r.key == key }

  lemma {:induction false} PrintNext(rows: seq<Row>, r: Row)
    ensures Print(rows + [r]) == Print(rows) + PrintRow(r) + "\n"
  {
    hide PrintRow;
    if rows == [] {
      assert rows + [r] == [r] && [r][1..] == [];
    } else {
      PrintNext(rows[1..], r);
      assert (rows + [r])[1..] == rows[1..] + [r];
    }
  }

  /** The row a registry prints for its i-th key. */
  ghost predicate RowFor(r: Row, key: string, reg: Registry) {
    && key in reg && r.key == key && r.typeName == reg[key].typeName
    && Sorted(r.nodes) && NodesAre(r.nodes, reg[key].nodes)
  }

  lemma PrintNothing()
    ensures Print([]) == ""
  {
  }

  lemma RowIs(r: Row, key: string, reg: Registry, joined: string)
    requires key in reg && r.key == key && r.typeName == reg[key].typeName && joined == Join(',', r.nodes)
    requires Sorted(r.nodes) && (forall n :: n in r.nodes <==> n in reg[key].nodes)
    requires forall i, j :: 0 <= i < j < |r.nodes| ==> r.nodes[i] != r.nodes[j]
    ensures RowFor(r, key, reg) && PrintRow(r) == CStr(key) + "\t" + CStr(r.typeName) + "\t" + CStr(joined)
  {
  }

  /** The output loop of RunListLiveliness. */
  method PrintRegistry(reg: Registry) returns (out: string)
    ensures exists rows :: out == Print(rows) && InOrder(rows) && Lists(rows, reg)
  {
    hide CStr, Join, PrintRow, Print, Sorted, NodesAre, Lists, InOrder, RowFor;
    var keys := SortedList(reg.Keys);
    out := "";
    ghost var rows := [];
    PrintNothing();
    for i := 0 to |keys|
      invariant |rows| == i && forall j :: 0 <= j < i ==> RowFor(rows[j], keys[j], reg)
      invariant out == Print(rows)
    {
      assert keys[i] in keys;
      var e := reg[keys[i]];
      var nodes := SortedList(e.nodes);
      var joined := JoinCommas(nodes);
      ghost var row := Row(keys[i], e.typeName, nodes);
      PrintNext(rows, row);
      RowIs(row, keys[i], reg, joined);
      out := out + (CStr(keys[i]) + "\t" + CStr(e.typeName) + "\t" + CStr(joined)) + "\n";
      rows := rows + [row];
    }
    RowsList(rows, keys, reg);
  }

  lemma RowsList(rows: seq<Row>, keys: seq<string>, reg: Registry)
    requires |rows| == |keys| && forall j :: 0 <= j < |keys| ==> RowFor(rows[j], keys[j], reg)
    requires Sorted(keys) && (forall k :: k in keys <==> k in reg)
    requires forall i, j :: 0 <= i < j < |keys| ==> keys[i] != keys[j]
    ensures InOrder(rows) && Lists(rows, reg)
  {
    forall k ensures k in reg <==> Listed(rows, k) {
      if k in reg {
        var j :| 0 <= j < |keys| && keys[j] == k;
        assert rows[j] in rows && rows[j].key == k;
      }
    }
  }

  method JoinCommas(nodes: seq<string>) returns (joined: string)
    ensures joined == Join(',', nodes)
  {
    joined := "";
    for i := 0 to |nodes|
      invariant joined == Join(',', nodes[..i])
    {
      JoinSnoc(',', nodes[..i], nodes[i]);
      assert nodes[..i + 1] == nodes[..i] + [nodes[i]];
      if i != 0 {
        joined := joined + ",";
      }
      joined := joined + nodes[i];
    }
    assert nodes[..|nodes|] == nodes;
  }

  // ---- The whole pipeline ----

  /** What a node announces for a publisher or service of its own. */
  datatype Offer = Offer(kind: string, node: Node, topic: string, typeName: string) {
    function Key(): string { node.ResolveTopic(topic) }
    function Fqn(): string { node.FullyQualifiedName() }
    function Token(): string { LiveKey(kind, Key(), typeName, Fqn()) }
    function Announced(): Announcement { Announcement(Key(), SafeType(typeName), Fqn()) }

    /** The parser takes no part of the token for a marker. */
    predicate Clean() { '/' !in kind && Unmarked(Key()) && SafeType(typeName) != "_n" }

    /** The node has a name, and nothing printed holds a NUL, tab, comma or line break. */
    predicate Visible() {
      && node.name != "" && !LeadsWithSlash(node.name)
      && Plain(Key()) && !Blank(Key()) && Plain(typeName)
      && Plain(Fqn()) && ',' !in Fqn()
    }
  }

  function Tokens(os: seq<Offer>): (r: seq<string>)
    ensures |r| == |os|
  {
    if os == [] then [] else Tokens(os[..|os| - 1]) + [os[|os| - 1].Token()]
  }

  function AllAnnounced(os: seq<Offer>): (r: seq<Announcement>)
    ensures |r| == |os|
  {
    if os == [] then [] else AllAnnounced(os[..|os| - 1]) + [os[|os| - 1].Announced()]
  }

  lemma {:induction false} TokensParse(os: seq<Offer>)
    requires forall o | o in os :: o.Clean()
    ensures Parsed(Tokens(os)) == AllAnnounced(os)
  {
    if os != [] {
      var o := os[|os| - 1];
      assert o in os;
      TokensParse(os[..|os| - 1]);
      ParseExactly(o.kind, o.Key(), o.typeName, o.Fqn());
      assert Tokens(os)[..|os| - 1] == Tokens(os[..|os| - 1]);
    }
  }

  predicate Offered(os: seq<Offer>, key: string) { exists o :: o in os && o.Key() == key }

  predicate OfferedBy(os: seq<Offer>, key: string, node: string) {
    exists o :: o in os && o.Key() == key && o.Fqn() == node
  }

  lemma {:induction false} Members(os: seq<Offer>)
    ensures forall o | o in os :: o.Announced() in AllAnnounced(os)
    ensures forall a | a in AllAnnounced(os) :: exists o :: o in os && o.Announced() == a
  {
    if os != [] {
      var before, o := os[..|os| - 1], os[|os| - 1];
      assert os == before + [o];
      Members(before);
    }
  }

  lemma RegistryIs(os: seq<Offer>, key: string)
    ensures var reg := Build(AllAnnounced(os));
            && (key in reg <==> Offered(os, key))
            && (key in reg ==> reg[key].typeName == FirstType(AllAnnounced(os), key))
            && (key in reg ==> forall n :: n in reg[key].nodes <==> OfferedBy(os, key, n))
  {
    hide LiveKey, SafeType, FirstType;
    Members(os);
    var xs := AllAnnounced(os);
    BuildIs(xs, key);
    assert Offered(os, key) <==> exists a :: a in xs && a.key == key;
    forall n ensures OfferedBy(os, key, n) <==> exists a :: a in xs && a.key == key && a.node == n {
    }
  }

  lemma {:induction false} SafePlain(t: string)
    requires Plain(t)
    ensures Plain(SafeType(t))
  {
    if t != "" {
      assert t[0] in t && forall c | c in t[1..] :: c in t;
      SafePlain(t[1..]);
    }
  }

  /** Rows that list offers with visible names survive printing, and their topic keys
      have no leading slash. */
  lemma RowsPrintable(os: seq<Offer>, rows: seq<Row>, r: Row)
    requires (forall o | o in os :: o.Visible()) && Lists(rows, Build(AllAnnounced(os))) && r in rows
    ensures Printable(r) && !LeadsWithSlash(r.key)
  {
    Members(os);
    assert Listed(rows, r.key);
    RegistryIs(os, r.key);
    var o :| o in os && o.Key() == r.key;
    ResolvedKey(o.node, o.topic);
    assert OfferedBy(os, r.key, o.Fqn());
    forall n | n in r.nodes ensures n != "" && Plain(n) && ',' !in n {
      var p :| p in os && p.Key() == r.key && p.Fqn() == n;
      ResolvedKey(p.node, p.topic);
    }
    TypePlain(os, r.key);
    var c :| c in r.key && !IsSpace(c);
    assert CStr(r.key) == r.key && c in PrintRow(r);
    assert |r.nodes| == 1 ==> r.nodes[0] in r.nodes && r.nodes[0] != "";
  }

  lemma TypePlain(os: seq<Offer>, key: string)
    requires forall o | o in os :: o.Visible()
    ensures Plain(FirstType(AllAnnounced(os), key))
  {
    Members(os);
    FirstTypeIs(AllAnnounced(os), key);
    if FirstType(AllAnnounced(os), key) != "" {
      var a :| a in AllAnnounced(os) && a.typeName == FirstType(AllAnnounced(os), key);
      var p :| p in os && p.Announced() == a;
      SafePlain(p.typeName);
    }
  }

  /** The rows of topic.py: a resolved topic key behind a slash. */
  lemma {:induction false} DisplayedAt(rows: seq<Row>, i: nat)
    requires i < |rows|
    ensures |Displayed(rows)| == |rows| && Displayed(rows)[i] == rows[i].(key := AsTopicName(rows[i].key))
    decreases rows
  {
    if i > 0 {
      DisplayedAt(rows[1..], i - 1);
    } else if |rows| > 1 {
      DisplayedAt(rows[1..], 0);
    }
  }

  /** What topic.py must show for the offers: one row for every topic offered and no
      other, under its key behind a slash, with the first type offered and every node
      that offers it, once. */
  ghost predicate Shows(out: seq<Row>, os: seq<Offer>) {
    && (forall k :: Listed(out, "/" + k) <==> Offered(os, k))
    && (forall i, j :: 0 <= i < j < |out| ==> out[i].key != out[j].key)
    && (forall i | 0 <= i < |out| :: ShowsRow(out[i], os))
  }

  ghost predicate ShowsRow(r: Row, os: seq<Offer>) {
    && LeadsWithSlash(r.key)
    && r.typeName == FirstType(AllAnnounced(os), r.key[1..])
    && (forall n :: n in r.nodes <==> OfferedBy(os, r.key[1..], n))
    && forall i, j :: 0 <= i < j < |r.nodes| ==> r.nodes[i] != r.nodes[j]
  }

  /** out shows rows behind slashes. */
  ghost predicate BehindSlashes(out: seq<Row>, rows: seq<Row>) {
    |out| == |rows| && forall i | 0 <= i < |rows| :: out[i] == rows[i].(key := "/" + rows[i].key)
  }

  lemma DisplayedBehindSlashes(os: seq<Offer>, rows: seq<Row>)
    requires (forall o | o in os :: o.Visible()) && Lists(rows, Build(AllAnnounced(os)))
    ensures BehindSlashes(Displayed(rows), rows)
  {
    hide Lists, Offer.Visible, Build;
    if rows != [] {
      DisplayedAt(rows, 0);
    }
    forall i | 0 <= i < |rows| ensures Displayed(rows)[i] == rows[i].(key := "/" + rows[i].key) {
      DisplayedAt(rows, i);
      RowsPrintable(os, rows, rows[i]);
    }
  }

  lemma RowShows(os: seq<Offer>, rows: seq<Row>, r: Row)
    requires Lists(rows, Build(AllAnnounced(os))) && r in rows
    ensures ShowsRow(r.(key := "/" + r.key), os)
  {
    RegistryIs(os, r.key);
    hide Build, AllAnnounced, FirstType, OfferedBy;
    assert Listed(rows, r.key);
    assert ("/" + r.key)[1..] == r.key;
  }

  lemma KeysApart(os: seq<Offer>, out: seq<Row>, rows: seq<Row>)
    requires Lists(rows, Build(AllAnnounced(os))) && BehindSlashes(out, rows)
    ensures forall i, j :: 0 <= i < j < |out| ==> out[i].key != out[j].key
  {
    hide Build, AllAnnounced;
    forall i, j | 0 <= i < j < |out| ensures out[i].key != out[j].key {
      assert out[i].key[1..] == rows[i].key && out[j].key[1..] == rows[j].key;
    }
  }

  lemma KeysListed(os: seq<Offer>, out: seq<Row>, rows: seq<Row>)
    requires Lists(rows, Build(AllAnnounced(os))) && BehindSlashes(out, rows)
    ensures forall k :: Listed(out, "/" + k) <==> Offered(os, k)
  {
    forall k ensures Listed(out, "/" + k) <==> Offered(os, k) {
      RegistryIs(os, k);
      ListedBehindSlash(rows, out, k);
    }
  }

  lemma DisplayedShows(os: seq<Offer>, rows: seq<Row>)
    requires (forall o | o in os :: o.Visible()) && Lists(rows, Build(AllAnnounced(os)))
    ensures Shows(Displayed(rows), os)
  {
    var out := Displayed(rows);
    DisplayedBehindSlashes(os, rows);
    KeysApart(os, out, rows);
    KeysListed(os, out, rows);
    hide Lists, ShowsRow, Displayed, Build;
    forall i | 0 <= i < |out| ensures ShowsRow(out[i], os) {
      RowShows(os, rows, rows[i]);
    }
  }

  lemma ListedBehindSlash(rows: seq<Row>, out: seq<Row>, k: string)
    requires |out| == |rows| && forall i | 0 <= i < |rows| :: out[i].key == "/" + rows[i].key
    ensures Listed(out, "/" + k) <==> Listed(rows, k)
  {
    if Listed(out, "/" + k) {
      var r :| r in out && r.key == "/" + k;
      var i :| 0 <= i < |out| && out[i] == r;
      assert rows[i].key == ("/" + rows[i].key)[1..] == ("/" + k)[1..] == k;
      assert rows[i] in rows;
    }
    if Listed(rows, k) {
      var r :| r in rows && r.key == k;
      var i :| 0 <= i < |rows| && rows[i] == r;
      assert out[i] in out;
    }
  }

  /** Offers made with clean and visible names, in whatever order and however often
      their tokens come back, are shown by topic.py exactly as they were made. */
  lemma PipelineRoundTrip(os: seq<Offer>, rows: seq<Row>)
    requires forall o | o in os :: o.Clean() && o.Visible()
    requires Lists(rows, Build(Parsed(Tokens(os))))
    ensures ReadLines(SplitLines(Print(rows))) == Displayed(rows) && Shows(Displayed(rows), os)
  {
    TokensParse(os);
    forall r | r in rows ensures Printable(r) {
      RowsPrintable(os, rows, r);
    }
    ListRoundTrip(rows);
    DisplayedShows(os, rows);
  }

  /** topic list from end to end: collect the replies, print the registry, read the
      lines. */
  method TopicList(replies: seq<string>, ghost os: seq<Offer>) returns (out: seq<Row>)
    requires replies == Tokens(os) && forall o | o in os :: o.Clean() && o.Visible()
    ensures Shows(out, os)
  {
    hide Shows, Tokens, Print, SplitLines, ReadLines, Lists;
    var lister := new Lister();
    for i := 0 to |replies|
      invariant lister.registry == Build(Parsed(replies[..i]))
    {
      ParsedNext(replies, i);
      lister.OnReply(replies[i]);
    }
    assert replies[..|replies|] == replies;
    var text := PrintRegistry(lister.registry);
    ghost var rows :| text == Print(rows) && InOrder(rows) && Lists(rows, lister.registry);
    PipelineRoundTrip(os, rows);
    out := CollectList(text);
  }

  lemma ParsedNext(replies: seq<string>, i: nat)
    requires i < |replies|
    ensures Build(Parsed(replies[..i + 1])) ==
              match Parse(replies[i])
              case None => Build(Parsed(replies[..i]))
              case Some(a) => Register(Build(Parsed(replies[..i])), a)
  {
    assert replies[..i + 1][..i] == replies[..i];
    match Parse(replies[i])
    case None =>
    case Some(a) =>
      var xs := Parsed(replies[..i]);
      assert Parsed(replies[..i + 1]) == xs + [a] && (xs + [a])[..|xs|] == xs;
  }
}
