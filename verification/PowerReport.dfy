/** Reading back the component tree that McPAT prints by indentation. A line is abstracted to a header
    (indent and name), a value (name and reading) or a blank. */
module PowerReport {
  import opened Common

  datatype Reading = Number(v: real) | NotANumber | Unreadable

  datatype Line = Blank | Value(name: string, reading: Reading) | Header(indent: nat, name: string)

  /** The parser's variables: two stacks and the dictionary built so far. */
  datatype Parser = Parser(spaces: seq<nat>, prefix: seq<string>, values: map<string, real>)

  const START := Parser([], [], map[])

  /** '/'.join */
  function Join(path: seq<string>): string {
    if |path| == 0 then "" else if |path| == 1 then path[0] else path[0] + "/" + Join(path[1..])
  }

  /** How much of the stack survives a header of indent j: entries at j or deeper go. */
  function Kept(spaces: seq<nat>, j: nat): (n: nat)
    ensures n <= |spaces|
    ensures n > 0 ==> spaces[n - 1] < j
  {
    if |spaces| > 0 && j <= spaces[|spaces| - 1] then Kept(spaces[..|spaces| - 1], j) else |spaces|
  }

  /** nan reads as 0; a value that does not match the pattern is skipped. */
  function Stored(m: map<string, real>, key: string, r: Reading): map<string, real> {
    match r case Number(v) => m[key := v] case NotANumber => m[key := 0.0] case Unreadable => m
  }

  function Read(p: Parser, line: Line): Parser
    requires |p.spaces| == |p.prefix|
  {
    match line
    case Blank => p
    case Value(name, r) => p.(values := Stored(p.values, Join(p.prefix + [name]), r))
    case Header(j, name) =>
      var n := Kept(p.spaces, j);
      Parser(p.spaces[..n] + [j], p.prefix[..n] + [name], p.values)
  }

  predicate StackShape(p: Parser) {
    |p.spaces| == |p.prefix| && forall i, j :: 0 <= i < j < |p.spaces| ==> p.spaces[i] < p.spaces[j]
  }

  function ReadAll(p: Parser, lines: seq<Line>): (q: Parser)
    requires StackShape(p)
    ensures StackShape(q)
  {
    if |lines| == 0 then p
    else
      var q := ReadAll(p, lines[..|lines| - 1]);
      ReadKeepsShape(q, lines[|lines| - 1]);
      Read(q, lines[|lines| - 1])
  }

  /** The two stacks stay the same height, indents strictly increasing, whatever is read. */
  lemma ReadKeepsShape(p: Parser, line: Line)
    requires StackShape(p)
    ensures StackShape(Read(p, line))
  {
    if line.Header? {
      var n := Kept(p.spaces, line.indent);
      assert n > 0 ==> forall i :: 0 <= i < n ==> p.spaces[i] <= p.spaces[n - 1];
    }
  }

  method Parse(lines: seq<Line>) returns (values: map<string, real>)
    ensures values == ReadAll(START, lines).values
  {
    values := map[];
    var prefix: seq<string>, spaces: seq<nat> := [], [];
    for i := 0 to |lines|
      invariant ReadAll(START, lines[..i]) == Parser(spaces, prefix, values)
    {
      assert lines[..i + 1][..i] == lines[..i];
      match lines[i]
      case Blank =>
      case Value(name, r) =>
        var key := Join(prefix + [name]);
        match r {
          case Number(v) => values := values[key := v];
          case NotANumber => values := values[key := 0.0];
          case Unreadable =>
        }
      case Header(j, name) =>
        ghost var height := |spaces|;
        ghost var spaces0, prefix0 := spaces, prefix;
        while |spaces| > 0 && j <= spaces[|spaces| - 1]
          invariant |spaces| == |prefix| <= height
          invariant spaces == spaces0[..|spaces|] && prefix == prefix0[..|prefix|]
          invariant Kept(spaces, j) == Kept(spaces0, j)
        {
          spaces := spaces[..|spaces| - 1];
          prefix := prefix[..|prefix| - 1];
        }
        spaces := spaces + [j];
        prefix := prefix + [name];
    }
    assert lines[..|lines|] == lines;
  }

  // ---------------------------------------------------------------- the printed tree

  /** Sibling components: the first one, its readings and parts, and the siblings after it. */
  datatype Forest =
    | Nothing
    | Unit(indent: nat, name: string, readings: seq<(string, Reading)>, parts: Forest, next: Forest)

  function PrintReadings(rs: seq<(string, Reading)>): seq<Line> {
    seq(|rs|, i requires 0 <= i < |rs| => Value(rs[i].0, rs[i].1))
  }

  /** Header, readings, parts, then the next sibling. */
  function Print(f: Forest): seq<Line> {
    match f
    case Nothing => []
    case Unit(j, name, rs, parts, next) =>
      [Header(j, name)] + PrintReadings(rs) + Print(parts) + Print(next)
  }

  /** Parts are indented deeper than their component (lo), siblings never deeper than the one before (hi). */
  predicate WellIndented(f: Forest, lo: int, hi: Option<nat>) {
    f.Nothing? ||
    (lo < f.indent && (hi.Some? ==> f.indent <= hi.value)
     && WellIndented(f.parts, f.indent, None) && WellIndented(f.next, lo, Some(f.indent)))
  }

  /** All readings of a forest with their full paths, in printing order. */
  function Entries(f: Forest, path: seq<string>): seq<(string, Reading)> {
    match f
    case Nothing => []
    case Unit(j, name, rs, parts, next) =>
      Labelled(rs, path + [name]) + Entries(parts, path + [name]) + Entries(next, path)
  }

  function Labelled(rs: seq<(string, Reading)>, path: seq<string>): seq<(string, Reading)> {
    seq(|rs|, i requires 0 <= i < |rs| => (Join(path + [rs[i].0]), rs[i].1))
  }

  function StoreAll(m: map<string, real>, es: seq<(string, Reading)>): map<string, real> {
    if |es| == 0 then m else Stored(StoreAll(m, es[..|es| - 1]), es[|es| - 1].0, es[|es| - 1].1)
  }

  /** Indent of the innermost open component, -1 at top level. */
  function Top(base: seq<nat>): int { if |base| == 0 then -1 else base[|base| - 1] }

  /** The parser stands below the components of `path`, indented by `base`; hi is the indent of the last
      sibling read at this level, if any. */
  predicate Standing(p: Parser, path: seq<string>, base: seq<nat>, hi: Option<nat>) {
    && StackShape(p) && |path| == |base| <= |p.prefix|
    && p.prefix[..|path|] == path && p.spaces[..|path|] == base
    && hi == (if |path| == |p.spaces| then None else Some(p.spaces[|path|]))
  }

  lemma {:induction false} ReadAllConcat(p: Parser, xs: seq<Line>, ys: seq<Line>)
    requires StackShape(p)
    ensures ReadAll(p, xs + ys) == ReadAll(ReadAll(p, xs), ys)
  {
    if |ys| == 0 {
      assert xs + ys == xs;
    } else {
      assert (xs + ys)[..|xs + ys| - 1] == xs + ys[..|ys| - 1];
      ReadAllConcat(p, xs, ys[..|ys| - 1]);
    }
  }

  lemma {:induction false} StoreAllConcat(m: map<string, real>, xs: seq<(string, Reading)>, ys: seq<(string, Reading)>)
    ensures StoreAll(m, xs + ys) == StoreAll(StoreAll(m, xs), ys)
  {
    if |ys| == 0 {
      assert xs + ys == xs;
    } else {
      assert (xs + ys)[..|xs + ys| - 1] == xs + ys[..|ys| - 1];
      StoreAllConcat(m, xs, ys[..|ys| - 1]);
    }
  }

  lemma {:induction false} ReadReadings(p: Parser, rs: seq<(string, Reading)>)
    requires StackShape(p)
    ensures ReadAll(p, PrintReadings(rs)) == p.(values := StoreAll(p.values, Labelled(rs, p.prefix)))
  {
    var n := |rs| - 1;
    if n >= 0 {
      ReadReadings(p, rs[..n]);
      assert PrintReadings(rs)[..n] == PrintReadings(rs[..n]);
      assert Labelled(rs, p.prefix)[..n] == Labelled(rs[..n], p.prefix);
    }
  }

  lemma {:induction false} KeptCounts(spaces: seq<nat>, j: nat)
    requires forall a, b :: 0 <= a < b < |spaces| ==> spaces[a] < spaces[b]
    ensures forall i :: 0 <= i < |spaces| ==> (i < Kept(spaces, j) <==> spaces[i] < j)
  {
    if |spaces| > 0 && j <= spaces[|spaces| - 1] { KeptCounts(spaces[..|spaces| - 1], j); }
  }

  /** A header is put at its place under `path` exactly when it is deeper than the parent and not deeper
      than the previous sibling. */
  lemma HeaderPlaced(p: Parser, path: seq<string>, base: seq<nat>, hi: Option<nat>, j: nat, name: string)
    requires Standing(p, path, base, hi)
    ensures Read(p, Header(j, name)).prefix == path + [name] <==> Top(base) < j && (hi.Some? ==> j <= hi.value)
    ensures Top(base) < j && (hi.Some? ==> j <= hi.value) ==>
              Standing(Read(p, Header(j, name)), path + [name], base + [j], None)
  {
    KeptCounts(p.spaces, j);
    ReadKeepsShape(p, Header(j, name));
    var n, d := Kept(p.spaces, j), |path|;
    assert Top(base) == if d == 0 then -1 else p.spaces[d - 1];
    assert Top(base) < j && (hi.Some? ==> j <= hi.value) <==> n == d;
    assert |Read(p, Header(j, name)).prefix| == n + 1;
  }

  /** Leaving a component: its own header is the last sibling of its level. */
  lemma StepOut(p: Parser, path: seq<string>, name: string, base: seq<nat>, j: nat, hi: Option<nat>)
    requires Standing(p, path + [name], base + [j], hi)
    ensures Standing(p, path, base, Some(j))
  {
    var d := |path|;
    assert p.prefix[..d] == p.prefix[..d + 1][..d] == path;
    assert p.spaces[..d] == p.spaces[..d + 1][..d] == base;
    assert p.spaces[d] == p.spaces[..d + 1][d] == j;
  }

  function LastIndent(f: Forest, hi: Option<nat>): Option<nat> {
    if f.Nothing? then hi else LastIndent(f.next, Some(f.indent))
  }

  /** After the lines of a well-indented forest the parser stands where it stood, past the last sibling,
      and has stored every reading under its full path. */
  lemma {:induction false} ReadForest(p: Parser, f: Forest, path: seq<string>, base: seq<nat>, hi: Option<nat>)
    requires Standing(p, path, base, hi) && WellIndented(f, Top(base), hi)
    ensures Standing(ReadAll(p, Print(f)), path, base, LastIndent(f, hi))
    ensures ReadAll(p, Print(f)).values == StoreAll(p.values, Entries(f, path))
    decreases f
  {
    match f
    case Nothing =>
    case Unit(j, name, rs, parts, next) =>
      var p1 := Read(p, Header(j, name));
      var p2 := ReadAll(p1, PrintReadings(rs));
      var p3 := ReadAll(p2, Print(parts));
      HeaderPlaced(p, path, base, hi, j, name);
      ReadReadings(p1, rs);
      ReadForest(p2, parts, path + [name], base + [j], None);
      StepOut(p3, path, name, base, j, LastIndent(parts, None));
      ReadForest(p3, next, path, base, Some(j));
      PrintedUnit(p, f);
      StoreUnit(p.values, f, path);
  }

  lemma StoreUnit(m: map<string, real>, f: Forest, path: seq<string>)
    requires f.Unit?
    ensures StoreAll(m, Entries(f, path))
            == StoreAll(StoreAll(StoreAll(m, Labelled(f.readings, path + [f.name])), Entries(f.parts, path + [f.name])),
                        Entries(f.next, path))
  {
    var own, parts := Labelled(f.readings, path + [f.name]), Entries(f.parts, path + [f.name]);
    StoreAllConcat(m, own + parts, Entries(f.next, path));
    StoreAllConcat(m, own, parts);
  }

  /** Reading a component is reading its header, its readings, its parts and the siblings after it. */
  lemma PrintedUnit(p: Parser, f: Forest)
    requires StackShape(p) && f.Unit?
    ensures ReadAll(p, Print(f))
            == (ReadKeepsShape(p, Header(f.indent, f.name));
                ReadAll(ReadAll(ReadAll(Read(p, Header(f.indent, f.name)), PrintReadings(f.readings)), Print(f.parts)),
                        Print(f.next)))
  {
    var h := [Header(f.indent, f.name)];
    ReadKeepsShape(p, h[0]);
    assert h[..0] == [];
    assert ReadAll(p, h) == Read(p, h[0]);
    ReadAllConcat(p, h, PrintReadings(f.readings));
    ReadAllConcat(p, h + PrintReadings(f.readings), Print(f.parts));
    ReadAllConcat(p, h + PrintReadings(f.readings) + Print(f.parts), Print(f.next));
  }

  /** Round trip: a component's own readings and its well-indented parts come back as exactly the map from
      each full path to its reading (the last one if a path is printed twice). */
  lemma RoundTrip(own: seq<(string, Reading)>, f: Forest)
    requires WellIndented(f, -1, None)
    ensures ReadAll(START, PrintReadings(own) + Print(f)).values
            == StoreAll(map[], Labelled(own, []) + Entries(f, []))
  {
    ReadReadings(START, own);
    ReadAllConcat(START, PrintReadings(own), Print(f));
    ReadForest(ReadAll(START, PrintReadings(own)), f, [], [], None);
    StoreAllConcat(map[], Labelled(own, []), Entries(f, []));
  }

  /** Entry i is the last readable one of its key. */
  predicate IsLast(es: seq<(string, Reading)>, i: nat, key: string)
    requires i < |es|
  {
    es[i].0 == key && !es[i].1.Unreadable? && forall k :: i < k < |es| && es[k].0 == key ==> es[k].1.Unreadable?
  }

  /** What such a map holds: the keys printed with a readable value, each with its last one. */
  lemma {:induction false} StoredKeys(m: map<string, real>, es: seq<(string, Reading)>, key: string)
    ensures key in StoreAll(m, es) <==>
            key in m || exists i :: 0 <= i < |es| && es[i].0 == key && !es[i].1.Unreadable?
  {
    var n := |es| - 1;
    if n >= 0 {
      StoredKeys(m, es[..n], key);
      assert forall i :: 0 <= i < n ==> es[..n][i] == es[i];
    }
  }

  lemma {:induction false} StoredIsLast(m: map<string, real>, es: seq<(string, Reading)>, i: nat, key: string)
    requires i < |es| && IsLast(es, i, key)
    ensures key in StoreAll(m, es) && StoreAll(m, es)[key] == if es[i].1.Number? then es[i].1.v else 0.0
  {
    var n := |es| - 1;
    if i < n {
      assert IsLast(es[..n], i, key);
      StoredIsLast(m, es[..n], i, key);
      assert es[n].0 == key ==> es[n].1.Unreadable?;
    }
  }

  // ---------------------------------------------------------------- exactly the well-indented trees

  /** Every header of the forest is read as the last component of its full path. */
  predicate RightlyPlaced(p: Parser, f: Forest, path: seq<string>)
    requires StackShape(p)
    decreases f
  {
    f.Nothing? ||
    (ReadKeepsShape(p, Header(f.indent, f.name));
     var p1 := Read(p, Header(f.indent, f.name));
     var p2 := ReadAll(p1, PrintReadings(f.readings));
     p1.prefix == path + [f.name] && RightlyPlaced(p2, f.parts, path + [f.name])
     && RightlyPlaced(ReadAll(p2, Print(f.parts)), f.next, path))
  }

  lemma {:induction false} RightlyPlacedIff(p: Parser, f: Forest, path: seq<string>, base: seq<nat>, hi: Option<nat>)
    requires Standing(p, path, base, hi)
    ensures RightlyPlaced(p, f, path) <==> WellIndented(f, Top(base), hi)
    decreases f
  {
    match f
    case Nothing =>
    case Unit(j, name, rs, parts, next) =>
      HeaderPlaced(p, path, base, hi, j, name);
      if Top(base) < j && (hi.Some? ==> j <= hi.value) {
        var p1 := Read(p, Header(j, name));
        var p2 := ReadAll(p1, PrintReadings(rs));
        ReadReadings(p1, rs);
        RightlyPlacedIff(p2, parts, path + [name], base + [j], None);
        if WellIndented(parts, j, None) {
          var p3 := ReadAll(p2, Print(parts));
          ReadForest(p2, parts, path + [name], base + [j], None);
          StepOut(p3, path, name, base, j, LastIndent(parts, None));
          RightlyPlacedIff(p3, next, path, base, Some(j));
        }
      }
  }

  /** Blank lines change nothing, wherever they are. */
  lemma {:induction false} BlanksIgnored(lines: seq<Line>, i: nat)
    requires i <= |lines|
    ensures ReadAll(START, lines[..i] + [Blank] + lines[i..]) == ReadAll(START, lines)
  {
    var before := ReadAll(START, lines[..i]);
    assert (lines[..i] + [Blank])[..i] == lines[..i];
    ReadAllConcat(START, lines[..i] + [Blank], lines[i..]);
    ReadAllConcat(START, lines[..i], lines[i..]);
    assert lines[..i] + lines[i..] == lines;
    assert ReadAll(START, lines[..i] + [Blank]) == before;
  }

  // ---------------------------------------------------------------- keys

  predicate Plain(name: string) { '/' !in name }

  /** Paths of names without a slash are told apart by their joined keys. */
  lemma {:induction false} JoinInjective(x: seq<string>, y: seq<string>)
    requires |x| > 0 && |y| > 0 && Join(x) == Join(y)
    requires forall n :: n in x ==> Plain(n)
    requires forall n :: n in y ==> Plain(n)
    ensures x == y
  {
    if |x[0]| < |y[0]| {
      ShorterFirst(x, y);
    } else if |y[0]| < |x[0]| {
      ShorterFirst(y, x);
    } else {
      FirstName(x);
      FirstName(y);
      assert x[0] == Join(x)[..|x[0]|] == y[0];
      if |x| > 1 && |y| > 1 {
        assert Join(x[1..]) == Join(x)[|x[0]| + 1..] == Join(y[1..]);
        JoinInjective(x[1..], y[1..]);
        assert x == [x[0]] + x[1..] && y == [y[0]] + y[1..];
      }
    }
  }

  lemma ShorterFirst(x: seq<string>, y: seq<string>)
    requires |x| > 0 && |y| > 0 && |x[0]| < |y[0]| && Plain(y[0])
    ensures Join(x) != Join(y)
  {
    FirstName(x);
    FirstName(y);
    assert Join(y)[|x[0]|] == y[0][|x[0]|];
  }

  lemma FirstName(x: seq<string>)
    requires |x| > 0
    ensures |x[0]| <= |Join(x)| && Join(x)[..|x[0]|] == x[0]
    ensures |x| == 1 ==> Join(x) == x[0]
    ensures |x| > 1 ==> |Join(x)| > |x[0]| && Join(x)[|x[0]|] == '/' && Join(x)[|x[0]| + 1..] == Join(x[1..])
  {
  }
}
