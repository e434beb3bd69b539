/** process_feature_defines of zenoh-c's cbindgen_generator.rs: one pass over lines
    with a skip flag and a nesting counter, against its meaning on trees. */
module FeatureScanner {
  import opened Splitting

  type Line = string

  /** evaluate_c_defines_line on a `#if ` line: the expression is the value false, is
      anything else, or the evaluator panics. */
  datatype Verdict = IsFalse | NotFalse | Panics

  datatype Option<+T> = None | Some(value: T)

  predicate Starts(line: Line, prefix: string) { prefix <= line }

  predicate IsIf(line: Line) { Starts(line, "#if ") }
  predicate IsIfdef(line: Line) { Starts(line, "#ifdef") }
  predicate IsEndif(line: Line) { Starts(line, "#endif") }

  /** nest_level after a line skipped at level nest. */
  function Deeper(nest: nat, line: Line): nat
    requires nest > 0
  {
    if IsIfdef(line) || IsIf(line) then nest + 1 else if IsEndif(line) then nest - 1 else nest
  }

  /** One line read at a nesting level: whether it is kept and the level after it,
      or None when the evaluator panics. */
  function ScanLine(eval: Line -> Verdict, nest: nat, line: Line): Option<(bool, nat)> {
    if nest > 0 then
      Some((false, Deeper(nest, line)))
    else if IsIf(line) then
      match eval(line)
      case Panics => None
      case IsFalse => Some((false, 1))
      case NotFalse => Some((true, 0))
    else Some((true, 0))
  }

  /** The output and the final nest_level, or None when the evaluator panics.  skip
      is nest_level > 0 throughout. */
  function Scan(eval: Line -> Verdict, nest: nat, lines: seq<Line>): (r: Option<(seq<Line>, nat)>)
    decreases lines
  {
    if lines == [] then Some(([], nest))
    else
      match ScanLine(eval, nest, lines[0])
      case None => None
      case Some((keep, n)) => if keep then Emit(lines[0], Scan(eval, n, lines[1..])) else Scan(eval, n, lines[1..])
  }

  function Emit(line: Line, r: Option<(seq<Line>, nat)>): Option<(seq<Line>, nat)> {
    match r
    case None => None
    case Some((out, n)) => Some(([line] + out, n))
  }

  /** The lines as they stand in the output file. */
  function Text(lines: seq<Line>): string {
    if lines == [] then "" else Text(lines[..|lines| - 1]) + lines[|lines| - 1] + "\n"
  }

  lemma {:induction false} TextJoins(lines: seq<Line>)
    ensures Text(lines) == if lines == [] then "" else Join('\n', lines) + "\n"
  {
    if lines != [] {
      var before, last := lines[..|lines| - 1], lines[|lines| - 1];
      TextJoins(before);
      JoinSnoc('\n', before, last);
      hide Join;
      assert lines == before + [last];
      assert ['\n'] == "\n" && "" + last == last;
    }
  }

  /** The output splits at its line feeds into exactly the lines kept, with nothing
      behind the last line feed. */
  lemma TextLines(lines: seq<Line>)
    requires forall l | l in lines :: '\n' !in l
    ensures Split('\n', Text(lines)) == lines + [""]
  {
    TextJoins(lines);
    JoinSnoc('\n', lines, "");
    SplitJoin('\n', lines + [""]);
    hide Join, Split;
    assert Text(lines) == Join('\n', lines + [""]);
  }

  lemma PrefixesDiffer(line: Line)
    ensures !(IsIf(line) && IsIfdef(line)) && !(IsIf(line) && IsEndif(line)) && !(IsIfdef(line) && IsEndif(line))
  {
    if IsIf(line) { assert line[3] == ' '; }
    if IsIfdef(line) { assert line[3] == 'd'; }
    if IsEndif(line) { assert line[1] == 'e'; }
    if IsIf(line) || IsIfdef(line) { assert line[1] == 'i'; }
  }

  /** What is already emitted in front of what is still to come. */
  function After(done: seq<Line>, r: Option<(seq<Line>, nat)>): Option<(seq<Line>, nat)> {
    match r
    case None => None
    case Some((out, n)) => Some((done + out, n))
  }

  lemma AfterEmit(done: seq<Line>, line: Line, r: Option<(seq<Line>, nat)>)
    ensures After(done, Emit(line, r)) == After(done + [line], r)
  {
    if r.Some? {
      assert done + ([line] + r.value.0) == (done + [line]) + r.value.0;
    }
  }

  /** Nothing is kept that was not read. */
  lemma {:induction false} OnlyLines(eval: Line -> Verdict, nest: nat, lines: seq<Line>)
    ensures var r := Scan(eval, nest, lines); r.Some? ==> forall l | l in r.value.0 :: l in lines
    decreases lines
  {
    if lines != [] && ScanLine(eval, nest, lines[0]).Some? {
      OnlyLines(eval, ScanLine(eval, nest, lines[0]).value.1, lines[1..]);
      assert lines == [lines[0]] + lines[1..];
    }
  }

  /** A line is classed by how it begins, whatever follows. */
  lemma LineClasses(rest: string)
    ensures IsIf("#if " + rest) && IsIfdef("#ifdef" + rest) && IsEndif("#endif" + rest)
    ensures Opens("#if " + rest) && Opens("#ifdef" + rest) && Opens("#ifndef" + rest) && Opens("#if(" + rest)
    ensures !IsIf("#ifndef" + rest) && !IsIfdef("#ifndef" + rest) && !IsIf("#if(" + rest) && !IsIfdef("#if(" + rest)
    ensures !Opens("#endif" + rest) && !Opens("#else" + rest) && !IsEndif("#else" + rest)
  {
    assert ("#ifndef" + rest)[3] == 'n' && ("#if(" + rest)[3] == '(';
    assert ("#endif" + rest)[1] == 'e' && ("#else" + rest)[1] == 'e' && ("#else" + rest)[2] == 'l';
    assert ("#ifdef" + rest)[..3] == "#if" && ("#ifndef" + rest)[..3] == "#if" && ("#if(" + rest)[..3] == "#if";
    assert ("#if " + rest)[..3] == "#if";
  }

  /** process_feature_defines: the decrement never underflows, skip and nest_level
      agree, and the text is that of the lines the pass keeps. */
  method ProcessFeatureDefines(eval: Line -> Verdict, lines: seq<Line>) returns (r: Option<string>)
    ensures match Scan(eval, 0, lines)
            case None => r.None?
            case Some((out, _)) =>
              && r == Some(Text(out))
              && ((forall l | l in lines :: '\n' !in l) ==> Split('\n', r.value) == out + [""])
  {
    var out := "";
    ghost var kept: seq<Line> := [];
    var skip := false;
    var nestLevel: nat := 0;
    var i := 0;
    assert lines[0..] == lines;
    AfterNothing(Scan(eval, 0, lines));
    while i < |lines|
      invariant i <= |lines| && skip == (nestLevel > 0) && out == Text(kept)
      invariant Scan(eval, 0, lines) == After(kept, Scan(eval, nestLevel, lines[i..]))
    {
      var line := lines[i];
      assert lines[i..][0] == line && lines[i..][1..] == lines[i + 1..];
      ghost var step := ScanLine(eval, nestLevel, line);
      PrefixesDiffer(line);
      i := i + 1;
      if IsIfdef(line) && skip {
        nestLevel := nestLevel + 1;
      } else if IsEndif(line) && skip {
        nestLevel := nestLevel - 1;
        skip := nestLevel != 0;
        assert step == Some((false, nestLevel));
        continue;
      } else if IsIf(line) {
        if !skip {
          var v := eval(line);
          if v == Panics {
            return None;
          }
          skip := v == IsFalse;
        }
        if skip {
          nestLevel := nestLevel + 1;
        }
      }
      assert step == Some((!skip, nestLevel));
      if !skip {
        AfterEmit(kept, line, Scan(eval, 0, lines[i..]));
        assert (kept + [line])[..|kept|] == kept;
        out := out + line;
        out := out + "\n";
        kept := kept + [line];
      }
    }
    assert kept + [] == kept;
    r := Some(out);
    OnlyLines(eval, 0, lines);
    if forall l | l in lines :: '\n' !in l {
      TextLines(kept);
    }
  }

  // ---- Meaning ----

  /** A line that opens or closes nothing, or a conditional with its body. */
  datatype Node = Leaf(line: Line) | Cond(open: Line, body: seq<Node>, close: Line)

  predicate Opens(line: Line) { Starts(line, "#if") }

  predicate WellFormed(ns: seq<Node>) {
    ns != [] ==>
      && WellFormed(ns[1..])
      && match ns[0]
         case Leaf(line) => !Opens(line) && !IsEndif(line)
         case Cond(open, body, close) => Opens(open) && IsEndif(close) && WellFormed(body)
  }

  function Flatten(ns: seq<Node>): seq<Line> {
    if ns == [] then []
    else
      (match ns[0]
       case Leaf(line) => [line]
       case Cond(open, body, close) => [open] + Flatten(body) + [close])
      + Flatten(ns[1..])
  }

  /** Remove every `#if ` subtree, its branches and #endif included, whose condition
      is false; conditions inside a removed subtree are not evaluated. */
  function Prune(eval: Line -> Verdict, ns: seq<Node>): Option<seq<Node>> {
    if ns == [] then Some([])
    else
      match ns[0]
      case Leaf(_) => Prepend(ns[..1], Prune(eval, ns[1..]))
      case Cond(open, body, close) =>
        if IsIf(open) && eval(open) == Panics then None
        else if IsIf(open) && eval(open) == IsFalse then Prune(eval, ns[1..])
        else
          match Prune(eval, body)
          case None => None
          case Some(b) => Prepend([Cond(open, b, close)], Prune(eval, ns[1..]))
  }

  function Prepend(ns: seq<Node>, r: Option<seq<Node>>): Option<seq<Node>> {
    match r
    case None => None
    case Some(ms) => Some(ns + ms)
  }

  /** Every conditional below opens with `#if ` or `#ifdef`, as the counter expects. */
  predicate Counted(ns: seq<Node>) {
    ns != [] ==> Counted(ns[1..]) && (ns[0].Cond? ==> (IsIf(ns[0].open) || IsIfdef(ns[0].open)) && Counted(ns[0].body))
  }

  /** ... in every subtree that is removed. */
  predicate Clean(eval: Line -> Verdict, ns: seq<Node>) {
    ns != [] ==>
      && Clean(eval, ns[1..])
      && (ns[0].Cond? ==>
            if IsIf(ns[0].open) && eval(ns[0].open) != NotFalse then Counted(ns[0].body) else Clean(eval, ns[0].body))
  }

  function Then(eval: Line -> Verdict, r: Option<(seq<Line>, nat)>, lines: seq<Line>): Option<(seq<Line>, nat)> {
    match r
    case None => None
    case Some((out, n)) => After(out, Scan(eval, n, lines))
  }

  lemma {:induction false} ScanAppend(eval: Line -> Verdict, nest: nat, a: seq<Line>, b: seq<Line>)
    ensures Scan(eval, nest, a + b) == Then(eval, Scan(eval, nest, a), b)
    decreases |a|
  {
    if a == [] {
      assert a + b == b;
      AfterNothing(Scan(eval, nest, b));
    } else {
      assert (a + b)[1..] == a[1..] + b;
      var line := a[0];
      if nest > 0 {
        ScanAppend(eval, Deeper(nest, line), a[1..], b);
      } else if IsIf(line) && eval(line) == Panics {
      } else if IsIf(line) && eval(line) == IsFalse {
        ScanAppend(eval, 1, a[1..], b);
      } else {
        ScanAppend(eval, 0, a[1..], b);
        EmitThen(eval, line, Scan(eval, 0, a[1..]), b);
      }
    }
  }

  lemma AfterNothing(r: Option<(seq<Line>, nat)>)
    ensures After([], r) == r
  {
    if r.Some? {
      assert [] + r.value.0 == r.value.0;
    }
  }

  lemma EmitThen(eval: Line -> Verdict, line: Line, r: Option<(seq<Line>, nat)>, b: seq<Line>)
    ensures Emit(line, Then(eval, r, b)) == Then(eval, Emit(line, r), b)
  {
    if r.Some? && Scan(eval, r.value.1, b).Some? {
      var out := Scan(eval, r.value.1, b).value.0;
      assert [line] + (r.value.0 + out) == ([line] + r.value.0) + out;
    }
  }

  lemma OpensClass(line: Line)
    ensures IsIf(line) || IsIfdef(line) ==> Opens(line)
    ensures Opens(line) ==> !IsEndif(line)
  {
    if Opens(line) { assert line[1] == 'i'; }
    if IsEndif(line) { assert line[1] == 'e'; }
    if IsIf(line) || IsIfdef(line) {
      assert line[..3] == "#if";
    }
  }

  lemma FlattenNothing()
    ensures Flatten([]) == []
  {
  }

  lemma FlattenCond(c: Node, ns: seq<Node>)
    requires c.Cond?
    ensures Flatten([c] + ns) == [c.open] + (Flatten(c.body) + ([c.close] + Flatten(ns)))
  {
    assert ([c] + ns)[1..] == ns;
    var b := Flatten(c.body);
    assert ([c.open] + b + [c.close]) + Flatten(ns) == [c.open] + (b + ([c.close] + Flatten(ns)));
  }

  /** From the body of a conditional on, entered at level k. */
  function CondFrom(eval: Line -> Verdict, k: nat, c: Node, ns: seq<Node>): Option<(seq<Line>, nat)>
    requires c.Cond?
  {
    match Scan(eval, k, Flatten(c.body))
    case None => None
    case Some((out, m)) =>
      After(out, if m > 0 then Scan(eval, m - 1, Flatten(ns)) else Emit(c.close, Scan(eval, 0, Flatten(ns))))
  }

  /** Scanning a conditional: its opening line, its body, its closing line, the rest. */
  lemma ScanCond(eval: Line -> Verdict, nest: nat, c: Node, ns: seq<Node>)
    requires c.Cond? && WellFormed([c])
    ensures Scan(eval, nest, Flatten([c] + ns))
         == if nest > 0 then CondFrom(eval, if IsIf(c.open) || IsIfdef(c.open) then nest + 1 else nest, c, ns)
            else if IsIf(c.open) && eval(c.open) == Panics then None
            else if IsIf(c.open) && eval(c.open) == IsFalse then CondFrom(eval, 1, c, ns)
            else Emit(c.open, CondFrom(eval, 0, c, ns))
  {
    FlattenCond(c, ns);
    OpensClass(c.open);
    PrefixesDiffer(c.close);
    var body := Flatten(c.body);
    var tail := Flatten(ns);
    var rest := [c.close] + tail;
    assert rest[1..] == tail;
    assert ([c.open] + (body + rest))[1..] == body + rest;
    forall k: nat ensures Scan(eval, k, body + rest) == CondFrom(eval, k, c, ns) {
      ScanAppend(eval, k, body, rest);
    }
  }

  lemma FlattenLeaf(line: Line, ns: seq<Node>)
    ensures Flatten([Leaf(line)] + ns) == [line] + Flatten(ns) && Flatten([Leaf(line)] + ns)[1..] == Flatten(ns)
  {
    assert ([Leaf(line)] + ns)[1..] == ns;
  }

  lemma SplitForest(ns: seq<Node>)
    requires ns != []
    ensures ns == [ns[0]] + ns[1..]
    ensures WellFormed(ns) ==> WellFormed([ns[0]]) && WellFormed(ns[1..])
  {
  }

  /** The counter never ends up higher than it started.  In a removed region, one
      that it counts in full comes back to its level with nothing emitted, and any
      other ends at a lower level: skipping stops too early. */
  lemma {:induction false} ScanBound(eval: Line -> Verdict, nest: nat, ns: seq<Node>)
    requires WellFormed(ns)
    ensures nest > 0 && Counted(ns) ==> Scan(eval, nest, Flatten(ns)) == Some(([], nest))
    ensures var r := Scan(eval, nest, Flatten(ns));
            r.Some? ==> r.value.1 <= nest && (nest > 0 && !Counted(ns) ==> r.value.1 < nest)
    decreases ns
  {
    hide IsIf, IsIfdef, IsEndif, Opens, Flatten;
    if ns == [] {
      assert Flatten([]) == [] by { FlattenNothing(); }
    } else {
      var rest := ns[1..];
      SplitForest(ns);
      match ns[0]
      case Leaf(line) =>
        OpensClass(line);
        FlattenLeaf(line, rest);
        ScanBound(eval, nest, rest);
      case Cond(open, body, close) =>
        ScanCond(eval, nest, ns[0], rest);
        var k := if nest > 0 then (if IsIf(open) || IsIfdef(open) then nest + 1 else nest)
                 else if IsIf(open) && eval(open) == IsFalse then 1 else 0;
        ScanBound(eval, k, body);
        if Scan(eval, k, Flatten(body)).Some? {
          var m := Scan(eval, k, Flatten(body)).value.1;
          ScanBound(eval, if m > 0 then m - 1 else 0, rest);
          AfterNothing(Scan(eval, if m > 0 then m - 1 else 0, Flatten(rest)));
        }
    }
  }

  /** For input whose removed regions are counted in full, the pass is pruning. */
  lemma {:induction false} CleanScan(eval: Line -> Verdict, ns: seq<Node>)
    requires WellFormed(ns) && Clean(eval, ns)
    ensures match Prune(eval, ns)
            case None => Scan(eval, 0, Flatten(ns)) == None
            case Some(kept) => Scan(eval, 0, Flatten(ns)) == Some((Flatten(kept), 0))
    decreases ns
  {
    if ns != [] {
      var rest := ns[1..];
      SplitForest(ns);
      CleanScan(eval, rest);
      match ns[0]
      case Leaf(line) =>
        OpensClass(line);
        FlattenLeaf(line, rest);
        assert ns[..1] == [Leaf(line)];
        if Prune(eval, rest).Some? {
          FlattenLeaf(line, Prune(eval, rest).value);
        }
      case Cond(open, body, close) =>
        ScanCond(eval, 0, ns[0], rest);
        if IsIf(open) && eval(open) == Panics {
        } else if IsIf(open) && eval(open) == IsFalse {
          ScanBound(eval, 1, body);
          AfterNothing(Scan(eval, 0, Flatten(rest)));
        } else {
          CleanScan(eval, body);
          if Prune(eval, body).Some? && Prune(eval, rest).Some? {
            FlattenCond(Cond(open, Prune(eval, body).value, close), Prune(eval, rest).value);
          }
        }
    }
  }

  /** Where pruning evaluates a condition that panics, so does the pass, on any input. */
  lemma {:induction false} PanicScan(eval: Line -> Verdict, ns: seq<Node>)
    requires WellFormed(ns) && Prune(eval, ns).None?
    ensures Scan(eval, 0, Flatten(ns)).None?
    decreases ns
  {
    if ns != [] {
      var rest := ns[1..];
      SplitForest(ns);
      if Prune(eval, rest).None? {
        PanicScan(eval, rest);
      }
      match ns[0]
      case Leaf(line) =>
        OpensClass(line);
        FlattenLeaf(line, rest);
      case Cond(open, body, close) =>
        ScanCond(eval, 0, ns[0], rest);
        if IsIf(open) && eval(open) != NotFalse {
          ScanBound(eval, 1, body);
        } else if Prune(eval, body).None? {
          PanicScan(eval, body);
        } else {
          ScanBound(eval, 0, body);
        }
    }
  }

  /** ... and where pruning finishes on any other input, the pass panics or keeps lines
      it should have removed. */
  lemma {:induction false} UncleanScan(eval: Line -> Verdict, ns: seq<Node>)
    requires WellFormed(ns) && Prune(eval, ns).Some?
    ensures var r := Scan(eval, 0, Flatten(ns)); var kept := Flatten(Prune(eval, ns).value);
            r.Some? ==> r.value.1 == 0 && |kept| <= |r.value.0| && (!Clean(eval, ns) ==> |kept| < |r.value.0|)
    decreases ns
  {
    if ns != [] {
      var rest := ns[1..];
      SplitForest(ns);
      UncleanScan(eval, rest);
      match ns[0]
      case Leaf(line) =>
        OpensClass(line);
        FlattenLeaf(line, rest);
        assert ns[..1] == [Leaf(line)];
        FlattenLeaf(line, Prune(eval, rest).value);
      case Cond(open, body, close) =>
        ScanCond(eval, 0, ns[0], rest);
        if IsIf(open) && eval(open) == IsFalse {
          ScanBound(eval, 1, body);
        } else {
          UncleanScan(eval, body);
          FlattenCond(Cond(open, Prune(eval, body).value, close), Prune(eval, rest).value);
        }
    }
  }

  // ---- Every well-nested input is a forest ----

  /** Read from depth d, every conditional is closed and nothing else is. */
  predicate Nested(lines: seq<Line>, d: nat) {
    if lines == [] then d == 0
    else if Opens(lines[0]) then Nested(lines[1..], d + 1)
    else if IsEndif(lines[0]) then d > 0 && Nested(lines[1..], d - 1)
    else Nested(lines[1..], d)
  }

  /** The forest up to the first #endif that closes nothing in it, and what follows. */
  function Parse(lines: seq<Line>): (r: (seq<Node>, seq<Line>))
    ensures |r.1| <= |lines|
    decreases |lines|
  {
    if lines == [] || IsEndif(lines[0]) then ([], lines)
    else if Opens(lines[0]) then
      var (body, after) := Parse(lines[1..]);
      if after == [] then ([], [])
      else
        var (more, rest) := Parse(after[1..]);
        ([Cond(lines[0], body, after[0])] + more, rest)
    else
      var (more, rest) := Parse(lines[1..]);
      ([Leaf(lines[0])] + more, rest)
  }

  lemma JoinCond(lines: seq<Line>, body: seq<Node>, after: seq<Line>, more: seq<Node>, rest: seq<Line>)
    requires lines != [] && after != []
    requires Flatten(body) + after == lines[1..] && Flatten(more) + rest == after[1..]
    ensures Flatten([Cond(lines[0], body, after[0])] + more) + rest == lines
  {
    FlattenCond(Cond(lines[0], body, after[0]), more);
    var b, m := Flatten(body), Flatten(more);
    assert ([lines[0]] + (b + ([after[0]] + m))) + rest == [lines[0]] + (b + ([after[0]] + (m + rest)));
    assert after == [after[0]] + after[1..];
  }

  lemma JoinLeaf(lines: seq<Line>, more: seq<Node>, rest: seq<Line>)
    requires lines != [] && Flatten(more) + rest == lines[1..]
    ensures Flatten([Leaf(lines[0])] + more) + rest == lines
  {
    FlattenLeaf(lines[0], more);
    assert ([lines[0]] + Flatten(more)) + rest == [lines[0]] + (Flatten(more) + rest);
  }

  lemma {:induction false} ParseNested(lines: seq<Line>, d: nat)
    requires Nested(lines, d)
    ensures var (ns, rest) := Parse(lines);
            && WellFormed(ns) && Flatten(ns) + rest == lines && Nested(rest, d)
            && (rest != [] ==> IsEndif(rest[0]))
    decreases |lines|
  {
    if lines != [] {
      OpensClass(lines[0]);
    }
    if lines == [] || IsEndif(lines[0]) {
    } else if Opens(lines[0]) {
      ParseNested(lines[1..], d + 1);
      var (body, after) := Parse(lines[1..]);
      OpensClass(after[0]);
      ParseNested(after[1..], d);
      var (more, rest) := Parse(after[1..]);
      var c := Cond(lines[0], body, after[0]);
      assert ([c] + more)[1..] == more;
      JoinCond(lines, body, after, more, rest);
    } else {
      ParseNested(lines[1..], d);
      var (more, rest) := Parse(lines[1..]);
      JoinLeaf(lines, more, rest);
      assert ([Leaf(lines[0])] + more)[1..] == more;
    }
  }

  /** What pruning leaves, as lines. */
  function Pruned(eval: Line -> Verdict, ns: seq<Node>): Option<(seq<Line>, nat)> {
    match Prune(eval, ns)
    case None => None
    case Some(kept) => Some((Flatten(kept), 0))
  }

  /** The pass over well-nested lines, exactly: it is pruning the tree of conditionals
      if and only if evaluating the tree panics, as the pass then does too, or every
      conditional inside a removed subtree opens with `#if ` or `#ifdef`.  Otherwise it
      panics where pruning does not or keeps lines it should remove. */
  lemma ScanIsPruneExactly(eval: Line -> Verdict, lines: seq<Line>)
    requires Nested(lines, 0)
    ensures var ns := Parse(lines).0; var r := Scan(eval, 0, lines);
            && WellFormed(ns) && Flatten(ns) == lines
            && (r == Pruned(eval, ns) <==> Prune(eval, ns).None? || Clean(eval, ns))
            && (r != Pruned(eval, ns) ==> r.None? || |r.value.0| > |Pruned(eval, ns).value.0|)
  {
    ParseNested(lines, 0);
    var (ns, rest) := Parse(lines);
    if rest != [] {
      OpensClass(rest[0]);
    }
    assert Flatten(ns) + [] == Flatten(ns);
    if Clean(eval, ns) {
      CleanScan(eval, ns);
    } else if Prune(eval, ns).Some? {
      UncleanScan(eval, ns);
    } else {
      PanicScan(eval, ns);
    }
  }

  /** A removed `#ifndef` ends the removal early. */
  const UNCOUNTED: seq<Line> := ["#if X", "#ifndef Y", "#endif", "kept", "#endif"]

  lemma Unlike(line: Line, prefix: string, i: nat)
    requires i < |prefix| && i < |line| && line[i] != prefix[i]
    ensures !Starts(line, prefix)
  {
  }

  lemma UncountedClasses()
    ensures var l := UNCOUNTED;
            && IsIf(l[0]) && Opens(l[1]) && IsEndif(l[2]) && IsEndif(l[4])
            && !IsIf(l[1]) && !IsIfdef(l[1]) && !IsIf(l[2]) && !IsIf(l[3]) && !IsIf(l[4])
            && !Opens(l[3]) && !IsEndif(l[3])
  {
    var l := UNCOUNTED;
    Unlike(l[1], "#if ", 3);
    Unlike(l[1], "#ifdef", 3);
    Unlike(l[2], "#if ", 1);
    Unlike(l[4], "#if ", 1);
    Unlike(l[3], "#if ", 0);
    Unlike(l[3], "#if", 0);
    Unlike(l[3], "#endif", 0);
  }

  lemma UncountedIsKept(eval: Line -> Verdict)
    requires eval("#if X") == IsFalse
    ensures Nested(UNCOUNTED, 0) && Pruned(eval, Parse(UNCOUNTED).0) == Some(([], 0))
    ensures Scan(eval, 0, UNCOUNTED) == Some((["kept", "#endif"], 0))
  {
    var l := UNCOUNTED;
    UncountedClasses();
    forall i | 0 <= i < 5 {
      OpensClass(l[i]);
    }
    var l1, l2, l3, l4 := l[1..], l[2..], l[3..], l[4..];
    assert l1[1..] == l2 && l2[1..] == l3 && l3[1..] == l4 && l4[1..] == [];
    assert l1[0] == l[1] && l2[0] == l[2] && l3[0] == l[3] && l4[0] == l[4];
    hide Starts, IsIf, IsIfdef, IsEndif, Opens;
    assert [l[4]] + [] == [l[4]];
    assert Scan(eval, 0, l4) == Some(([l[4]], 0));
    assert [l[3]] + [l[4]] == ["kept", "#endif"];
    assert Scan(eval, 0, l3) == Some((["kept", "#endif"], 0));
    assert Scan(eval, 1, l1) == Scan(eval, 1, l2) == Scan(eval, 0, l3);
    assert [Leaf(l[3])] + [] == [Leaf(l[3])];
    assert Parse(l4) == ([], l4) && Parse(l3) == ([Leaf(l[3])], l4) && Parse(l2) == ([], l2);
    assert Parse(l1) == ([Cond(l[1], [], l[2])] + [Leaf(l[3])], l4);
    var ns := [Cond(l[0], [Cond(l[1], [], l[2])] + [Leaf(l[3])], l[4])];
    assert ns + [] == ns && ns[1..] == [];
    assert Parse(l) == (ns, []);
    assert ns[0].open == l[0] && l[0] == "#if X" && Prune(eval, ns[1..]) == Some([]);
    assert Prune(eval, ns) == Some([]);
    assert Nested(l4, 1) && Nested(l3, 1) && Nested(l2, 2) && Nested(l1, 1) && Nested(l, 0);
    assert Scan(eval, 0, l) == Scan(eval, 1, l1);
  }

  /** The pass is idempotent on every input, well nested or not. */
  lemma {:induction false} Idempotent(eval: Line -> Verdict, nest: nat, lines: seq<Line>)
    requires Scan(eval, nest, lines).Some?
    ensures var out := Scan(eval, nest, lines).value.0; Scan(eval, 0, out) == Some((out, 0))
    decreases |lines|
  {
    if lines != [] {
      var line, rest := lines[0], lines[1..];
      if nest > 0 {
        Idempotent(eval, Deeper(nest, line), rest);
      } else if IsIf(line) && eval(line) == IsFalse {
        Idempotent(eval, 1, rest);
      } else {
        Idempotent(eval, 0, rest);
        var out := Scan(eval, 0, rest).value.0;
        assert ([line] + out)[1..] == out;
      }
    }
  }
}
