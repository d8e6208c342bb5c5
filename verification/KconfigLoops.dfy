/**
 The Kconfig preprocessor's loops: `for x in range a b` and `for x in [a, b]` up to the matching
 `endfor` are unrolled textually, with {x} replaced by each value, outermost loop first.

 Text is a string with '\n' between lines; the characters of the patterns are ASCII.
 */
module KconfigLoops {
  import opened Options

  /** A line has no line break in it. */
  type Line = s: string | '\n' !in s

  // ---------------------------------------------------------------- what a line is

  predicate IsSpace(c: char) { c == ' ' || c == '\t' }

  predicate IsDigit(c: char) { '0' <= c <= '9' }

  predicate IsWord(c: char) { IsDigit(c) || 'a' <= c <= 'z' || 'A' <= c <= 'Z' || c == '_' }

  /** The character classes, spelled out: blanks, digits, and of the others at least these in or out of names. */
  lemma CharacterClasses(c: char)
    ensures IsSpace(c) <==> c in " \t"
    ensures IsDigit(c) <==> c in "0123456789"
    ensures c in "_09azAZ" ==> IsWord(c)
    ensures c in " \t{}[](),.-+*/:;=#$" ==> !IsWord(c)
  {
  }

  function StripLeft(s: Line): Line
  {
    if s != "" && IsSpace(s[0]) then StripLeft(s[1..]) else s
  }

  function StripRight(s: Line): Line
  {
    if s != "" && IsSpace(s[|s| - 1]) then StripRight(s[..|s| - 1]) else s
  }

  function Strip(s: Line): Line { StripRight(StripLeft(s)) }

  /** The longest prefix of characters that satisfy p. */
  function Span(s: Line, p: char -> bool): (r: Line)
    ensures r <= s
  {
    if s != "" && p(s[0]) then [s[0]] + Span(s[1..], p) else ""
  }

  function After(s: Line, head: Line): Line
    requires head <= s
  {
    s[|head|..]
  }

  /** One or more spaces, skipped. */
  function Spaces(s: Line): Option<Line>
  {
    var sp := Span(s, IsSpace);
    if sp == "" then None else Some(After(s, sp))
  }

  function Literal(s: Line, word: Line): Option<Line>
  {
    if word <= s then Some(After(s, word)) else None
  }

  function Number(digits: Line): nat
    requires forall i :: 0 <= i < |digits| ==> IsDigit(digits[i])
  {
    if digits == "" then 0
    else
      assert IsDigit(digits[|digits| - 1]);
      10 * Number(digits[..|digits| - 1]) + (digits[|digits| - 1] - '0') as nat
  }

  function Show(n: nat): Line
  {
    if n < 10 then ['0' + n as char] else Show(n / 10) + ['0' + (n % 10) as char]
  }

  function Range(a: nat, b: nat): seq<Line>
    decreases b - a
  {
    if a >= b then [] else [Show(a)] + Range(a + 1, b)
  }

  predicate NotComma(c: char) { c != ',' }

  /** Comma-separated items, each stripped. */
  function Items(s: Line): seq<Line>
    decreases |s|
  {
    var head := Span(s, NotComma);
    if head == s then [Strip(s)] else [Strip(head)] + Items(s[|head| + 1..])
  }

  /** Everything up to the last closing bracket. */
  function UpToLast(s: Line): Line
    decreases |s|
  {
    if s == "" then "" else if s[|s| - 1] == ']' then s[..|s| - 1] else UpToLast(s[..|s| - 1])
  }

  datatype Kind = For(name: Line, values: seq<Line>) | EndFor | Plain

  /** What follows the loop variable: a literal range or a bracketed list. */
  function Header(name: Line, s: Line): (k: Kind)
    ensures !k.EndFor?
  {
    match Ranged(s)
    case Some(values) => For(name, values)
    case None =>
      var t := After(s, Span(s, IsSpace));
      if t != "" && t[0] == '[' && UpToLast(t[1..]) != "" then For(name, Items(UpToLast(t[1..]))) else Plain
  }

  lemma SpanDigits(s: Line)
    ensures forall i :: 0 <= i < |Span(s, IsDigit)| ==> IsDigit(Span(s, IsDigit)[i])
  {
  }

  function Ranged(s: Line): Option<seq<Line>>
  {
    match Spaces(s)
    case None => None
    case Some(s1) =>
      match Literal(s1, "range")
      case None => None
      case Some(s2) =>
        match Spaces(s2)
        case None => None
        case Some(s3) =>
          var a := Span(s3, IsDigit);
          match Spaces(After(s3, a))
          case None => None
          case Some(s4) =>
            var b := Span(s4, IsDigit);
            SpanDigits(s3);
            SpanDigits(s4);
            if a == "" || b == "" then None else Some(Range(Number(a), Number(b)))
  }

  function Classify(line: Line): Kind
  {
    var s := Strip(line);
    if "endfor" <= s then EndFor
    else
      match Literal(s, "for")
      case None => Plain
      case Some(s1) =>
        match Spaces(s1)
        case None => Plain
        case Some(s2) =>
          var name := Span(s2, IsWord);
          match Spaces(After(s2, name))
          case None => Plain
          case Some(s3) =>
            match Literal(s3, "in")
            case None => Plain
            case Some(s4) => if name == "" then Plain else Header(name, s4)
  }

  // ---------------------------------------------------------------- text and lines

  /** Position of the first line break, or the length. */
  function Eol(t: string): (i: nat)
    ensures i <= |t| && '\n' !in t[..i] && (i < |t| ==> t[i] == '\n')
  {
    if t == "" || t[0] == '\n' then 0 else 1 + Eol(t[1..])
  }

  /** The lines of a text; a line break at the end does not start another line. */
  function Lines(t: string): seq<Line>
    decreases |t|
  {
    if t == "" then []
    else
      var i := Eol(t);
      if i == |t| then [t] else [t[..i]] + Lines(t[i + 1..])
  }

  function Join(ts: seq<string>): string
  {
    if ts == [] then "" else if |ts| == 1 then ts[0] else ts[0] + "\n" + Join(ts[1..])
  }

  function NonBlank(ls: seq<Line>): seq<Line>
  {
    if ls == [] then [] else (if ls[0] == "" then [] else [ls[0]]) + NonBlank(ls[1..])
  }

  lemma {:induction false} EolOf(l: Line, t: string)
    ensures Eol(l + "\n" + t) == |l|
    ensures Eol(l) == |l|
    decreases |l|
  {
    if l == "" {
      assert l + "\n" + t == "\n" + t;
    } else {
      assert (l + "\n" + t)[1..] == l[1..] + "\n" + t;
      EolOf(l[1..], t);
    }
  }

  lemma LinesCons(l: Line, t: string)
    ensures Lines(l + "\n" + t) == [l] + Lines(t)
    ensures Lines(l) == if l == "" then [] else [l]
  {
    EolOf(l, t);
    var u := l + "\n" + t;
    assert u[..|l|] == l && u[|l| + 1..] == t;
  }

  /** All lines but a last one that is blank. */
  function WithoutBlankEnd(ls: seq<Line>): seq<Line>
  {
    if ls != [] && ls[|ls| - 1] == "" then ls[..|ls| - 1] else ls
  }

  lemma WithoutBlankEndStep(l: Line, rest: seq<Line>)
    requires rest != []
    ensures WithoutBlankEnd([l] + rest) == [l] + WithoutBlankEnd(rest)
  {
    var ls := [l] + rest;
    assert ls[|ls| - 1] == rest[|rest| - 1];
    assert ls[..|ls| - 1] == [l] + rest[..|rest| - 1];
  }

  /** Splitting undoes joining, except that one blank line at the end is lost. */
  lemma {:induction false} LinesOfJoin(ls: seq<Line>)
    ensures Lines(Join(ls)) == if ls != [] && ls[|ls| - 1] == "" then ls[..|ls| - 1] else ls
    decreases |ls|
  {
    hide Lines;
    if ls == [] {
      LinesCons("", "");
    } else if |ls| == 1 {
      LinesCons(ls[0], "");
      assert ls == [ls[0]] && ls[..0] == [];
    } else {
      hide WithoutBlankEnd;
      var rest := ls[1..];
      LinesCons(ls[0], Join(rest));
      LinesOfJoin(rest);
      WithoutBlankEndIs(rest);
      WithoutBlankEndIs(ls);
      WithoutBlankEndStep(ls[0], rest);
      assert ls == [ls[0]] + rest;
    }
  }

  lemma WithoutBlankEndIs(ls: seq<Line>)
    ensures WithoutBlankEnd(ls) == if ls != [] && ls[|ls| - 1] == "" then ls[..|ls| - 1] else ls
  {
  }

  lemma {:induction false} NonBlankAppend(a: seq<Line>, b: seq<Line>)
    ensures NonBlank(a + b) == NonBlank(a) + NonBlank(b)
    decreases |a|
  {
    if a == [] {
      assert a + b == b;
    } else {
      assert (a + b)[1..] == a[1..] + b;
      NonBlankAppend(a[1..], b);
    }
  }

  function Keep(l: Line): seq<Line> { if l == "" then [] else [l] }

  lemma NonBlankCons(l: Line, ls: seq<Line>)
    ensures NonBlank([l] + ls) == Keep(l) + NonBlank(ls)
    ensures NonBlank(Lines(l)) == Keep(l)
  {
    assert ([l] + ls)[1..] == ls;
    LinesCons(l, "");
    assert [l][1..] == [];
  }

  /** Up to blank lines, joining texts is concatenating their lines. */
  lemma {:induction false} NonBlankOfTwo(a: string, b: string)
    ensures NonBlank(Lines(a + "\n" + b)) == NonBlank(Lines(a)) + NonBlank(Lines(b))
    decreases |a|
  {
    hide Lines, NonBlank, Keep;
    var i := Eol(a);
    var l: Line := a[..i];
    if i == |a| {
      assert l == a;
      LinesCons(l, b);
      NonBlankCons(l, Lines(b));
    } else {
      var rest := a[i + 1..];
      assert a == l + "\n" + rest;
      assert a + "\n" + b == l + "\n" + (rest + "\n" + b);
      LinesCons(l, rest);
      LinesCons(l, rest + "\n" + b);
      NonBlankOfTwo(rest, b);
      NonBlankCons(l, Lines(rest + "\n" + b));
      NonBlankCons(l, Lines(rest));
    }
  }

  /** The lines of several texts, blank ones dropped. */
  function Content(ts: seq<string>): seq<Line>
  {
    if ts == [] then [] else NonBlank(Lines(ts[0])) + Content(ts[1..])
  }

  lemma {:induction false} ContentOfJoin(ts: seq<string>)
    ensures NonBlank(Lines(Join(ts))) == Content(ts)
    decreases |ts|
  {
    if |ts| == 1 {
      assert ts[1..] == [];
    } else if |ts| > 1 {
      NonBlankOfTwo(ts[0], Join(ts[1..]));
      ContentOfJoin(ts[1..]);
    }
  }

  lemma {:induction false} ContentAppend(a: seq<string>, b: seq<string>)
    ensures Content(a + b) == Content(a) + Content(b)
    decreases |a|
  {
    if a == [] {
      assert a + b == b;
    } else {
      assert (a + b)[1..] == a[1..] + b;
      ContentAppend(a[1..], b);
    }
  }

  // ---------------------------------------------------------------- the expander

  /** All occurrences of `pattern`, from left to right. */
  function Replace(s: Line, pattern: Line, value: Line): Line
    requires pattern != ""
    decreases |s|
  {
    if s == "" then ""
    else if pattern <= s then value + Replace(s[|pattern|..], pattern, value)
    else [s[0]] + Replace(s[1..], pattern, value)
  }

  function Subst(l: Line, name: Line, value: Line): Line
  {
    Replace(l, "{" + name + "}", value)
  }

  function SubstLines(ls: seq<Line>, name: Line, value: Line): (r: seq<Line>)
    ensures |r| == |ls|
  {
    if ls == [] then [] else [Subst(ls[0], name, value)] + SubstLines(ls[1..], name, value)
  }

  /** The lines up to the endfor that closes the current loop, with `nest` loops open inside it. */
  function Block(ls: seq<Line>, nest: nat): (r: seq<Line>)
    ensures r <= ls
    decreases |ls|
  {
    if ls == [] then []
    else
      assert ls == [ls[0]] + ls[1..];
      match Classify(ls[0])
      case For(_, _) => [ls[0]] + Block(ls[1..], nest + 1)
      case EndFor => if nest == 0 then [] else [ls[0]] + Block(ls[1..], nest - 1)
      case Plain => [ls[0]] + Block(ls[1..], nest)
  }

  /** What follows a block and its endfor. */
  function Beyond(ls: seq<Line>, block: seq<Line>): seq<Line>
    requires block <= ls
  {
    if |block| == |ls| then [] else ls[|block| + 1..]
  }

  function ExpandLines(ls: seq<Line>): seq<string>
    decreases |ls|, 0, 0
  {
    if ls == [] then []
    else
      match Classify(ls[0])
      case For(name, values) =>
        var block := Block(ls[1..], 0);
        ExpandEach(block, name, values) + ExpandLines(Beyond(ls[1..], block))
      case EndFor => ExpandLines(ls[1..])
      case Plain => [ls[0]] + ExpandLines(ls[1..])
  }

  function ExpandEach(block: seq<Line>, name: Line, values: seq<Line>): seq<string>
    decreases |block|, 1, |values|
  {
    if values == [] then []
    else
      var body := SubstLines(block, name, values[0]);
      LinesOfJoin(body);
      [ExpandText(Join(body))] + ExpandEach(block, name, values[1..])
  }

  function ExpandText(t: string): string
    decreases |Lines(t)|, 0, 1
  {
    Join(ExpandLines(Lines(t)))
  }

  // ---------------------------------------------------------------- the reference: syntax trees

  datatype Tree = Text(line: Line) | Loop(header: Line, body: seq<Tree>, footer: Line)

  function FlattenTree(t: Tree): seq<Line>
    decreases t, 1
  {
    match t
    case Text(l) => [l]
    case Loop(h, body, f) => [h] + Flatten(body) + [f]
  }

  function Flatten(ts: seq<Tree>): seq<Line>
    decreases ts, 0
  {
    if ts == [] then [] else FlattenTree(ts[0]) + Flatten(ts[1..])
  }

  function SubstTree(t: Tree, name: Line, value: Line): Tree
    decreases t, 1
  {
    match t
    case Text(l) => Text(Subst(l, name, value))
    case Loop(h, body, f) => Loop(Subst(h, name, value), SubstTrees(body, name, value), Subst(f, name, value))
  }

  function SubstTrees(ts: seq<Tree>, name: Line, value: Line): (r: seq<Tree>)
    ensures |r| == |ts|
    decreases ts, 0
  {
    if ts == [] then [] else [SubstTree(ts[0], name, value)] + SubstTrees(ts[1..], name, value)
  }

  lemma {:induction false} FlattenSubstTree(t: Tree, name: Line, value: Line)
    ensures SubstLines(FlattenTree(t), name, value) == FlattenTree(SubstTree(t, name, value))
    decreases t, 1
  {
    match t
    case Text(l) =>
      assert [l][1..] == [];
    case Loop(h, body, f) =>
      hide Subst;
      FlattenSubst(body, name, value);
      SubstLinesAppend([h], Flatten(body) + [f], name, value);
      SubstLinesAppend(Flatten(body), [f], name, value);
      assert [h] + Flatten(body) + [f] == [h] + (Flatten(body) + [f]);
      assert [h][1..] == [] && [f][1..] == [];
  }

  /** Substituting in a tree is substituting in its lines. */
  lemma {:induction false} FlattenSubst(ts: seq<Tree>, name: Line, value: Line)
    ensures SubstLines(Flatten(ts), name, value) == Flatten(SubstTrees(ts, name, value))
    decreases ts, 0
  {
    if ts != [] {
      FlattenSubstTree(ts[0], name, value);
      FlattenSubst(ts[1..], name, value);
      SubstLinesAppend(FlattenTree(ts[0]), Flatten(ts[1..]), name, value);
    }
  }

  lemma {:induction false} SubstLinesAppend(a: seq<Line>, b: seq<Line>, name: Line, value: Line)
    ensures SubstLines(a + b, name, value) == SubstLines(a, name, value) + SubstLines(b, name, value)
    decreases |a|
  {
    hide Subst;
    if a == [] {
      assert a + b == b;
    } else {
      assert (a + b)[1..] == a[1..] + b;
      SubstLinesAppend(a[1..], b, name, value);
    }
  }

  /** Every line is what the tree says it is. */
  predicate Shaped(ts: seq<Tree>)
    decreases ts, 0
  {
    ts != [] ==> ShapedTree(ts[0]) && Shaped(ts[1..])
  }

  predicate ShapedTree(t: Tree)
    decreases t, 1
  {
    match t
    case Text(l) => Classify(l).Plain?
    case Loop(h, body, f) => Classify(h).For? && Shaped(body) && Classify(f).EndFor?
  }

  function Size(ts: seq<Tree>): nat
    decreases ts, 0
  {
    if ts == [] then 0 else SizeTree(ts[0]) + Size(ts[1..])
  }

  function SizeTree(t: Tree): nat
    decreases t, 1
  {
    match t
    case Text(_) => 1
    case Loop(_, body, _) => 1 + Size(body)
  }

  lemma SizeParts(ts: seq<Tree>)
    requires ts != []
    ensures Size(ts) > Size(ts[1..]) && (ts[0].Loop? ==> Size(ts) > Size(ts[0].body))
  {
    assert SizeTree(ts[0]) >= 1 && (ts[0].Loop? ==> SizeTree(ts[0]) == 1 + Size(ts[0].body));
  }

  lemma {:induction false} SubstKeepsSize(ts: seq<Tree>, name: Line, value: Line)
    ensures Size(SubstTrees(ts, name, value)) == Size(ts)
    decreases ts, 0
  {
    if ts != [] {
      hide Subst;
      if ts[0].Loop? { SubstKeepsSize(ts[0].body, name, value); }
      SubstKeepsSize(ts[1..], name, value);
    }
  }

  function VarOf(header: Line): Line
  {
    var k := Classify(header);
    if k.For? then k.name else ""
  }

  function ValuesOf(header: Line): seq<Line>
  {
    var k := Classify(header);
    if k.For? then k.values else []
  }

  /** The template stays well nested under every substitution that its loops perform: headers are literal, and
      text stays text. */
  predicate Stable(ts: seq<Tree>)
    decreases Size(ts), 0, |ts|
  {
    if ts == [] then true
    else
      SizeParts(ts);
      && Shaped(ts)
      && (ts[0].Loop? ==> StableUnder(ts[0].body, VarOf(ts[0].header), ValuesOf(ts[0].header)))
      && Stable(ts[1..])
  }

  predicate StableUnder(body: seq<Tree>, name: Line, values: seq<Line>)
    decreases Size(body), 1, |values|
  {
    if values == [] then true
    else
      SubstKeepsSize(body, name, values[0]);
      Stable(SubstTrees(body, name, values[0])) && StableUnder(body, name, values[1..])
  }

  /** The meaning of a template: each loop repeats its body, with the value put in, and only then are the loops
      inside it unrolled. */
  function Unroll(ts: seq<Tree>): seq<Line>
    requires Stable(ts)
    decreases Size(ts), 0, |ts|
  {
    if ts == [] then []
    else
      SizeParts(ts);
      (match ts[0]
       case Text(l) => [l]
       case Loop(h, body, _) => UnrollEach(body, VarOf(h), ValuesOf(h))) + Unroll(ts[1..])
  }

  function UnrollEach(body: seq<Tree>, name: Line, values: seq<Line>): seq<Line>
    requires StableUnder(body, name, values)
    decreases Size(body), 1, |values|
  {
    if values == [] then []
    else
      SubstKeepsSize(body, name, values[0]);
      Unroll(SubstTrees(body, name, values[0])) + UnrollEach(body, name, values[1..])
  }

  // ---------------------------------------------------------------- expansion is unrolling

  lemma BlockCons(l: Line, rest: seq<Line>, nest: nat)
    ensures Classify(l).For? ==> Block([l] + rest, nest) == [l] + Block(rest, nest + 1)
    ensures Classify(l).EndFor? ==> Block([l] + rest, nest + 1) == [l] + Block(rest, nest) && Block([l] + rest, 0) == []
    ensures Classify(l).Plain? ==> Block([l] + rest, nest) == [l] + Block(rest, nest)
  {
    hide Classify;
    assert ([l] + rest)[1..] == rest;
  }

  lemma {:induction false} BlockSkipsTree(t: Tree, rest: seq<Line>, nest: nat)
    requires ShapedTree(t)
    ensures Block(FlattenTree(t) + rest, nest) == FlattenTree(t) + Block(rest, nest)
    decreases t, 1
  {
    hide Classify, Block;
    match t
    case Text(l) =>
      BlockCons(l, rest, nest);
    case Loop(h, body, f) =>
      BlockCons(h, Flatten(body) + ([f] + rest), nest);
      BlockSkips(body, [f] + rest, nest + 1);
      BlockCons(f, rest, nest);
      assert FlattenTree(t) + rest == [h] + (Flatten(body) + ([f] + rest));
      assert [h] + (Flatten(body) + ([f] + Block(rest, nest))) == FlattenTree(t) + Block(rest, nest);
  }

  /** Well-nested lines do not end a block. */
  lemma {:induction false} BlockSkips(ts: seq<Tree>, rest: seq<Line>, nest: nat)
    requires Shaped(ts)
    ensures Block(Flatten(ts) + rest, nest) == Flatten(ts) + Block(rest, nest)
    decreases ts, 0
  {
    hide Block;
    if ts == [] {
      assert Flatten(ts) + rest == rest;
    } else {
      var tail := Flatten(ts[1..]) + rest;
      assert Flatten(ts) + rest == FlattenTree(ts[0]) + tail;
      BlockSkipsTree(ts[0], tail, nest);
      BlockSkips(ts[1..], rest, nest);
      assert FlattenTree(ts[0]) + (Flatten(ts[1..]) + Block(rest, nest)) == Flatten(ts) + Block(rest, nest);
    }
  }

  /** The block of a loop is its body: the extractor finds the matching endfor. */
  lemma ExtractFindsMatchingEndfor(body: seq<Tree>, f: Line, rest: seq<Line>)
    requires Shaped(body) && Classify(f).EndFor?
    ensures var ls := Flatten(body) + ([f] + rest);
            Block(ls, 0) == Flatten(body) && Beyond(ls, Flatten(body)) == rest
  {
    hide Classify, Flatten, Block;
    BlockSkips(body, [f] + rest, 0);
    BlockCons(f, rest, 0);
    assert (Flatten(body) + ([f] + rest))[|Flatten(body)| + 1..] == rest;
  }

  lemma ExpandCons(l: Line, rest: seq<Line>)
    ensures match Classify(l)
            case For(name, values) =>
              var block := Block(rest, 0);
              ExpandLines([l] + rest) == ExpandEach(block, name, values) + ExpandLines(Beyond(rest, block))
            case EndFor => ExpandLines([l] + rest) == ExpandLines(rest)
            case Plain => ExpandLines([l] + rest) == [l] + ExpandLines(rest)
  {
    hide Classify, Block, ExpandEach;
    assert ([l] + rest)[1..] == rest;
  }

  lemma ExpandLoop(h: Line, body: seq<Tree>, f: Line, rest: seq<Line>)
    requires Classify(h).For? && Shaped(body) && Classify(f).EndFor?
    ensures ExpandLines([h] + (Flatten(body) + ([f] + rest)))
         == ExpandEach(Flatten(body), VarOf(h), ValuesOf(h)) + ExpandLines(rest)
  {
    hide Classify, Flatten, Block, ExpandEach, ExpandLines;
    ExpandCons(h, Flatten(body) + ([f] + rest));
    ExtractFindsMatchingEndfor(body, f, rest);
  }

  lemma StableParts(ts: seq<Tree>)
    requires ts != [] && Stable(ts)
    ensures ShapedTree(ts[0]) && Shaped(ts[1..]) && Stable(ts[1..])
    ensures ts[0].Loop? ==>
              && Classify(ts[0].header).For? && Shaped(ts[0].body) && Classify(ts[0].footer).EndFor?
              && StableUnder(ts[0].body, VarOf(ts[0].header), ValuesOf(ts[0].header))
              && Unroll(ts) == UnrollEach(ts[0].body, VarOf(ts[0].header), ValuesOf(ts[0].header)) + Unroll(ts[1..])
    ensures ts[0].Text? ==> Classify(ts[0].line).Plain? && Unroll(ts) == [ts[0].line] + Unroll(ts[1..])
  {
    hide Classify, VarOf, ValuesOf;
    assert ShapedTree(ts[0]);
  }

  lemma FlattenParts(ts: seq<Tree>)
    requires ts != []
    ensures ts[0].Text? ==> Flatten(ts) == [ts[0].line] + Flatten(ts[1..])
    ensures ts[0].Loop? ==> Flatten(ts) == [ts[0].header] + (Flatten(ts[0].body) + ([ts[0].footer] + Flatten(ts[1..])))
  {
  }

  /** Line by line, the expander produces the unrolling, up to blank lines. */
  lemma {:induction false} ExpandLinesIsUnroll(ts: seq<Tree>)
    requires Stable(ts)
    ensures Content(ExpandLines(Flatten(ts))) == NonBlank(Unroll(ts))
    decreases Size(ts), 0, |ts|
  {
    hide Classify, ExpandLines, Unroll, UnrollEach, NonBlank, Content, ExpandEach, VarOf, ValuesOf;
    hide Stable, Shaped, Flatten, Lines, Keep;
    if ts == [] {
      NothingExpands();
      return;
    }
    StableParts(ts);
    SizeParts(ts);
    FlattenParts(ts);
    ExpandLinesIsUnroll(ts[1..]);
    var rest := Flatten(ts[1..]);
    match ts[0]
    case Text(l) =>
      ExpandCons(l, rest);
      ContentCons(l, ExpandLines(rest));
      NonBlankCons(l, Unroll(ts[1..]));
    case Loop(h, body, f) =>
      ExpandLoop(h, body, f, rest);
      ExpandEachIsUnroll(body, VarOf(h), ValuesOf(h));
      ContentAppend(ExpandEach(Flatten(body), VarOf(h), ValuesOf(h)), ExpandLines(rest));
      NonBlankAppend(UnrollEach(body, VarOf(h), ValuesOf(h)), Unroll(ts[1..]));
  }

  lemma NothingExpands()
    ensures Stable([]) && Content(ExpandLines(Flatten([]))) == NonBlank(Unroll([]))
  {
  }

  lemma ContentCons(t: string, ts: seq<string>)
    ensures Content([t] + ts) == NonBlank(Lines(t)) + Content(ts)
  {
    assert ([t] + ts)[1..] == ts;
  }

  lemma {:induction false} ExpandEachIsUnroll(body: seq<Tree>, name: Line, values: seq<Line>)
    requires StableUnder(body, name, values)
    ensures Content(ExpandEach(Flatten(body), name, values)) == NonBlank(UnrollEach(body, name, values))
    decreases Size(body), 1, |values|
  {
    if values == [] {
      return;
    }
    hide ExpandText, Unroll, NonBlank, Content, Lines, Subst, Stable;
    var t := SubstTrees(body, name, values[0]);
    SubstKeepsSize(body, name, values[0]);
    FlattenSubst(body, name, values[0]);
    ExpandTextIsUnroll(t);
    ExpandEachIsUnroll(body, name, values[1..]);
    ContentCons(ExpandText(Join(Flatten(t))), ExpandEach(Flatten(body), name, values[1..]));
    NonBlankAppend(Unroll(t), UnrollEach(body, name, values[1..]));
  }

  lemma BlankIsPlain()
    ensures Classify("").Plain?
  {
  }

  lemma StableCons(t: Tree, ts: seq<Tree>)
    requires ShapedTree(t) && Stable(ts) && Shaped(ts)
    requires t.Loop? ==> StableUnder(t.body, VarOf(t.header), ValuesOf(t.header))
    ensures Shaped([t] + ts) && Stable([t] + ts) && Size([t] + ts) == SizeTree(t) + Size(ts)
  {
    hide Classify, VarOf, ValuesOf;
    assert ([t] + ts)[1..] == ts;
  }

  lemma {:induction false} FlattenSnoc(front: seq<Tree>, t: Tree)
    ensures Flatten(front + [t]) == Flatten(front) + FlattenTree(t)
    decreases |front|
  {
    if front == [] {
      assert front + [t] == [t] && [t][1..] == [] && Flatten([]) == [];
    } else {
      assert (front + [t])[1..] == front[1..] + [t];
      FlattenSnoc(front[1..], t);
    }
  }

  lemma StableShaped(ts: seq<Tree>)
    requires Stable(ts)
    ensures Shaped(ts)
  {
  }

  lemma TextAlone(l: Line)
    requires Classify(l).Plain?
    ensures Stable([]) && Unroll([]) == [] && Size([]) == 0
    ensures Stable([Text(l)]) && Unroll([Text(l)]) == [l] && Size([Text(l)]) == 1
  {
    hide Classify;
    assert [Text(l)] + [] == [Text(l)] && [Text(l)][1..] == [] && Unroll([]) == [];
    StableCons(Text(l), []);
    StableParts([Text(l)]);
  }

  /** A text at the end of a template only adds its line at the end. */
  lemma {:induction false} UnrollSnoc(front: seq<Tree>, l: Line)
    requires Stable(front + [Text(l)]) && Classify(l).Plain?
    ensures Stable(front) && Unroll(front + [Text(l)]) == Unroll(front) + [l] && Size(front) < Size(front + [Text(l)])
    decreases |front|
  {
    hide Classify, VarOf, ValuesOf, UnrollEach, StableUnder, Stable, Unroll, Shaped, Size;
    var ts := front + [Text(l)];
    TextAlone(l);
    if front == [] {
      assert ts == [Text(l)];
    } else {
      StableParts(ts);
      assert ts[1..] == front[1..] + [Text(l)];
      UnrollSnoc(front[1..], l);
      StableShaped(front[1..]);
      StableShaped(ts[1..]);
      StableCons(front[0], front[1..]);
      StableCons(front[0], ts[1..]);
      assert front == [front[0]] + front[1..] && ts == [front[0]] + ts[1..];
      StableParts(front);
    }
  }

  lemma {:induction false} ShapedLast(front: seq<Tree>, t: Tree)
    requires Shaped(front + [t])
    ensures ShapedTree(t)
    decreases |front|
  {
    hide Classify;
    if front == [] {
      assert front + [t] == [t];
    } else {
      assert (front + [t])[1..] == front[1..] + [t];
      ShapedLast(front[1..], t);
    }
  }

  /** A tree that ends in a blank line is a blank text. */
  lemma BlankTree(t: Tree)
    requires ShapedTree(t) && FlattenTree(t) != [] && FlattenTree(t)[|FlattenTree(t)| - 1] == ""
    ensures t == Text("")
  {
    hide Classify;
    BlankIsPlain();
  }

  /** A blank last line is a blank text at the end of the tree; without it the tree means the same. */
  lemma LastBlank(ts: seq<Tree>)
    requires Stable(ts) && Flatten(ts) != [] && Flatten(ts)[|Flatten(ts)| - 1] == ""
    ensures ts != [] && var front := ts[..|ts| - 1];
            && Flatten(front) == Flatten(ts)[..|Flatten(ts)| - 1]
            && Stable(front) && Size(front) < Size(ts)
            && Unroll(ts) == Unroll(front) + [""]
  {
    assert ts != [];
    hide Classify, Stable, Unroll, Flatten, Shaped, Size;
    var front, t := ts[..|ts| - 1], ts[|ts| - 1];
    assert ts == front + [t];
    FlattenSnoc(front, t);
    StableShaped(ts);
    ShapedLast(front, t);
    BlankTree(t);
    BlankIsPlain();
    UnrollSnoc(front, "");
  }

  /** The expansion of a template's text is its unrolling, up to blank lines. */
  lemma {:induction false} ExpandTextIsUnroll(ts: seq<Tree>)
    requires Stable(ts)
    ensures NonBlank(Lines(ExpandText(Join(Flatten(ts))))) == NonBlank(Unroll(ts))
    decreases Size(ts), 0, |ts| + 1
  {
    hide Classify, ExpandLines, Unroll, NonBlank, Content, Stable, Flatten, Lines, Keep;
    var ls := Flatten(ts);
    LinesOfJoin(ls);
    ContentOfJoin(ExpandLines(Lines(Join(ls))));
    if ls != [] && ls[|ls| - 1] == "" {
      LastBlank(ts);
      var front := ts[..|ts| - 1];
      ExpandLinesIsUnroll(front);
      NonBlankAppend(Unroll(front), [""]);
      BlankVanishes();
    } else {
      ExpandLinesIsUnroll(ts);
    }
  }

  lemma BlankVanishes()
    ensures NonBlank([""]) == []
  {
    NonBlankCons("", []);
    assert [""] + [] == [""];
  }

  // ---------------------------------------------------------------- headers that are not literal

  lemma LiteralHeaderBlock(h: Line, body: seq<Tree>, f: Line, rest: seq<Line>)
    requires Classify(h).For? && Shaped(body) && Classify(f).EndFor?
    ensures Block([h] + (Flatten(body) + ([f] + rest)), 0) == [h] + Flatten(body) + [f] + Block(rest, 0)
  {
    hide Classify, Flatten, Block, Shaped;
    BlockCons(h, Flatten(body) + ([f] + rest), 0);
    BlockSkips(body, [f] + rest, 1);
    BlockCons(f, rest, 0);
    assert [h] + (Flatten(body) + ([f] + Block(rest, 0))) == [h] + Flatten(body) + [f] + Block(rest, 0);
  }

  lemma PlainHeaderBlock(h: Line, body: seq<Tree>, f: Line, rest: seq<Line>)
    requires Classify(h).Plain? && Shaped(body) && Classify(f).EndFor?
    ensures Block([h] + (Flatten(body) + ([f] + rest)), 0) == [h] + Flatten(body)
  {
    hide Classify, Flatten, Block, Shaped;
    BlockCons(h, Flatten(body) + ([f] + rest), 0);
    ExtractFindsMatchingEndfor(body, f, rest);
  }

  /** What lies between an inner header and its endfor is taken into the block of the loop around it exactly if the
      header is already a loop when the block is extracted. If it is not, the block ends at the inner endfor. */
  lemma InnerLoopIsTakenInIff(h: Line, body: seq<Tree>, f: Line, rest: seq<Line>)
    requires !Classify(h).EndFor? && Shaped(body) && Classify(f).EndFor?
    ensures var block := Block([h] + (Flatten(body) + ([f] + rest)), 0);
            && ([h] + Flatten(body) + [f] <= block <==> Classify(h).For?)
            && block == if Classify(h).For? then [h] + Flatten(body) + [f] + Block(rest, 0) else [h] + Flatten(body)
  {
    hide Classify, Flatten, Block, Shaped;
    if Classify(h).For? {
      LiteralHeaderBlock(h, body, f, rest);
    } else {
      PlainHeaderBlock(h, body, f, rest);
    }
  }

  /** So the rest of the outer body is expanded outside the outer loop: once, and without substitution. */
  lemma NonLiteralHeaderStealsEndfor(o: Line, h: Line, body: seq<Tree>, f: Line, rest: seq<Line>)
    requires Classify(o).For? && Classify(h).Plain? && Shaped(body) && Classify(f).EndFor?
    ensures ExpandLines([o] + ([h] + (Flatten(body) + ([f] + rest))))
         == ExpandEach([h] + Flatten(body), VarOf(o), ValuesOf(o)) + ExpandLines(rest)
  {
    hide Classify, Flatten, Block, ExpandEach, ExpandLines;
    var inner := [h] + (Flatten(body) + ([f] + rest));
    PlainHeaderBlock(h, body, f, rest);
    ExpandCons(o, inner);
    assert inner[|[h] + Flatten(body)| + 1..] == rest;
  }

  predicate All(s: Line, p: char -> bool)
  {
    forall k :: 0 <= k < |s| ==> p(s[k])
  }

  lemma {:induction false} SpanIs(x: Line, y: Line, p: char -> bool)
    requires All(x, p) && (y == "" || !p(y[0]))
    ensures Span(x + y, p) == x
  {
    if x == "" {
      assert x + y == y;
    } else {
      assert (x + y)[1..] == x[1..] + y && (x + y)[0] == x[0];
      SpanIs(x[1..], y, p);
    }
  }

  lemma StripsToItself(s: Line)
    requires s != "" && !IsSpace(s[0]) && !IsSpace(s[|s| - 1])
    ensures Strip(s) == s
  {
  }

  /** One space before something else is skipped. */
  lemma OneSpace(s: Line)
    requires s == "" || !IsSpace(s[0])
    ensures Spaces(" " + s) == Some(s)
  {
    SpanIs(" ", s, IsSpace);
    assert (" " + s)[1..] == s;
  }

  lemma LiteralIs(word: Line, s: Line)
    ensures Literal(word + s, word) == Some(s)
  {
    assert (word + s)[|word|..] == s;
  }

  /** A range header from `a` up to `bound`. */
  function RangeTail(a: Line, bound: Line): Line
  {
    " " + ("range" + (" " + (a + (" " + bound))))
  }

  function RangeHeader(name: Line, a: Line, bound: Line): Line
  {
    ForHeader(name, RangeTail(a, bound))
  }

  predicate Digits(s: Line) { s != "" && All(s, IsDigit) }

  predicate Word(s: Line) { s != "" && All(s, IsWord) }

  /** The number at the start of a line. */
  function Leading(s: Line): nat
  {
    SpanDigits(s);
    Number(Span(s, IsDigit))
  }

  lemma RangedIs(a: Line, bound: Line)
    requires Digits(a) && bound != "" && !IsSpace(bound[0])
    ensures var b := Span(bound, IsDigit);
            Ranged(RangeTail(a, bound)) == if b == "" then None else Some(Range(Number(a), Leading(bound)))
  {
    hide Spaces, Literal, Span, Range, Number;
    var s3 := a + (" " + bound);
    assert s3[0] == a[0];
    OneSpace("range" + (" " + s3));
    LiteralIs("range", " " + s3);
    OneSpace(s3);
    SpanIs(a, " " + bound, IsDigit);
    assert After(s3, a) == " " + bound;
    OneSpace(bound);
  }

  /** After the variable and `in`, a range with digits is a loop, and one whose bound starts otherwise is not. */
  lemma HeaderIs(name: Line, a: Line, bound: Line)
    requires Digits(a) && bound != "" && !IsSpace(bound[0])
    ensures var b := Span(bound, IsDigit);
            Header(name, RangeTail(a, bound)) == if b == "" then Plain else For(name, Range(Number(a), Leading(bound)))
  {
    hide Ranged, Range, Number, UpToLast, Items, Span;
    RangedIs(a, bound);
    var t := "range" + (" " + (a + (" " + bound)));
    SpanIs(" ", t, IsSpace);
    assert RangeTail(a, bound) == " " + t && After(" " + t, " ") == t && t[0] == 'r';
  }

  /** A loop header, with what follows `in`. */
  function ForHeader(name: Line, tail: Line): Line
  {
    "for" + (" " + (name + (" " + ("in" + tail))))
  }

  lemma ClassifyFor(name: Line, tail: Line)
    requires Word(name) && tail != "" && !IsSpace(tail[|tail| - 1])
    ensures Classify(ForHeader(name, tail)) == Header(name, tail)
  {
    hide Strip, Spaces, Literal, Span, Header;
    var s3 := "in" + tail;
    var s2 := name + (" " + s3);
    var s := "for" + (" " + s2);
    assert s[0] == 'f' && s[|s| - 1] == tail[|tail| - 1] && s2[0] == name[0];
    StripsToItself(s);
    LiteralIs("for", " " + s2);
    OneSpace(s2);
    SpanIs(name, " " + s3, IsWord);
    assert After(s2, name) == " " + s3;
    OneSpace(s3);
    LiteralIs("in", tail);
  }

  lemma ClassifyRange(name: Line, a: Line, bound: Line)
    requires Word(name) && Digits(a) && bound != "" && !IsSpace(bound[0]) && !IsSpace(bound[|bound| - 1])
    ensures Classify(RangeHeader(name, a, bound)) == Header(name, RangeTail(a, bound))
  {
    hide Classify, Header;
    var tail := RangeTail(a, bound);
    assert tail[|tail| - 1] == bound[|bound| - 1];
    ClassifyFor(name, tail);
  }

  /** A range with a digit bound is a loop ... */
  lemma LiteralRangeIsLoop(name: Line, a: Line, bound: Line)
    requires Word(name) && Digits(a) && Digits(bound)
    ensures Classify(RangeHeader(name, a, bound)) == For(name, Range(Number(a), Number(bound)))
  {
    hide Classify, Header, Range, Number, RangeHeader, RangeTail;
    assert IsDigit(bound[0]) && IsDigit(bound[|bound| - 1]);
    ClassifyRange(name, a, bound);
    HeaderIs(name, a, bound);
    SpanIs(bound, "", IsDigit);
    assert bound + "" == bound;
  }

  function Placeholder(name: Line): Line { "{" + name + "}" }

  lemma {:induction false} ReplaceSkips(x: Line, y: Line, pattern: Line, value: Line)
    requires pattern != "" && '{' == pattern[0] && '{' !in x
    ensures Replace(x + y, pattern, value) == x + Replace(y, pattern, value)
  {
    if x == "" {
      assert x + y == y;
    } else {
      assert (x + y)[1..] == x[1..] + y && (x + y)[0] == x[0];
      ReplaceSkips(x[1..], y, pattern, value);
    }
  }

  lemma SubstAtEnd(x: Line, name: Line, value: Line)
    requires '{' !in x
    ensures Subst(x + Placeholder(name), name, value) == x + value
  {
    var p := Placeholder(name);
    ReplaceSkips(x, p, p, value);
    assert p[|p|..] == "" && value + "" == value;
  }

  lemma WordsHaveNoBrace(s: Line)
    requires All(s, IsWord) || All(s, IsDigit)
    ensures '{' !in s
  {
  }

  lemma SubstRangeHeader(name: Line, a: Line, i: Line, value: Line)
    requires Word(name) && Digits(a)
    ensures Subst(RangeHeader(name, a, Placeholder(i)), i, value) == RangeHeader(name, a, value)
  {
    hide Subst, Replace;
    WordsHaveNoBrace(name);
    WordsHaveNoBrace(a);
    var x := RangeStart(name, a);
    RangeHeaderParts(name, a, Placeholder(i));
    RangeHeaderParts(name, a, value);
    SubstAtEnd(x, i, value);
  }

  function RangeStart(name: Line, a: Line): Line
  {
    "for" + (" " + (name + (" " + ("in" + (" " + ("range" + (" " + (a + " "))))))))
  }

  lemma RangeHeaderParts(name: Line, a: Line, bound: Line)
    ensures RangeHeader(name, a, bound) == RangeStart(name, a) + bound
  {
  }

  /** ... and one whose bound is a placeholder is text, which becomes a loop when digits are put in. */
  lemma PlaceholderRangeBecomesLoop(name: Line, a: Line, i: Line, value: Line)
    requires Word(name) && Digits(a) && Word(i) && Digits(value)
    ensures Classify(RangeHeader(name, a, Placeholder(i))) == Plain
    ensures Subst(RangeHeader(name, a, Placeholder(i)), i, value) == RangeHeader(name, a, value)
    ensures Classify(RangeHeader(name, a, value)) == For(name, Range(Number(a), Number(value)))
  {
    hide Classify, Header, Range, Number, Subst, RangeHeader, RangeTail, Span;
    var p := Placeholder(i);
    ClassifyRange(name, a, p);
    HeaderIs(name, a, p);
    SpanIs("", p, IsDigit);
    assert "" + p == p;
    LiteralRangeIsLoop(name, a, value);
    SubstRangeHeader(name, a, i, value);
  }

  /** The values of a range, in order: as many as it has numbers, each the decimal numeral of its number. */
  lemma {:induction false} RangeIs(a: nat, b: nat, k: nat)
    requires k < b - a
    ensures |Range(a, b)| == b - a && Range(a, b)[k] == Show(a + k)
    decreases b - a
  {
    hide Show;
    if b - a > 1 { RangeIs(a + 1, b, if k == 0 then 0 else k - 1); }
  }

  lemma EmptyRange(a: nat, b: nat)
    requires b <= a
    ensures Range(a, b) == []
  {
  }

  /** One more digit at the end of a line of digits adds itself to ten times the value. */
  lemma NumberStep(front: Line, c: char)
    requires All(front, IsDigit) && IsDigit(c)
    ensures All(front + [c], IsDigit) && Number(front + [c]) == 10 * Number(front) + (c - '0') as nat
  {
    var s := front + [c];
    assert s[..|s| - 1] == front && s[|s| - 1] == c;
  }

  /** A numeral is digits without a leading zero, and its value is the number. */
  lemma {:induction false} ShowIs(n: nat)
    ensures Digits(Show(n)) && Number(Show(n)) == n
    ensures Show(n)[0] == '0' ==> n == 0 && Show(n) == "0"
    decreases n
  {
    hide Number;
    if n < 10 {
      NumberStep("", '0' + n as char);
      NoDigits();
      assert "" + Show(n) == Show(n);
    } else {
      ShowIs(n / 10);
      NumberStep(Show(n / 10), '0' + (n % 10) as char);
      assert Show(n)[0] == Show(n / 10)[0];
    }
  }

  lemma NoDigits()
    ensures Number("") == 0
  {
  }

  // ---------------------------------------------------------------- lists

  lemma {:induction false} StripLeftSkips(l: Line, s: Line)
    requires All(l, IsSpace) && (s == "" || !IsSpace(s[0]))
    ensures StripLeft(l + s) == s
  {
    if l == "" {
      assert l + s == s;
    } else {
      assert (l + s)[1..] == l[1..] + s && (l + s)[0] == l[0];
      StripLeftSkips(l[1..], s);
    }
  }

  lemma {:induction false} StripRightSkips(s: Line, r: Line)
    requires All(r, IsSpace) && (s == "" || !IsSpace(s[|s| - 1]))
    ensures StripRight(s + r) == s
    decreases |r|
  {
    if r == "" {
      assert s + r == s;
    } else {
      var t := s + r;
      assert t[..|t| - 1] == s + r[..|r| - 1] && t[|t| - 1] == r[|r| - 1];
      StripRightSkips(s, r[..|r| - 1]);
    }
  }

  /** No blanks at either end. */
  predicate Tidy(s: Line)
  {
    s == "" || (!IsSpace(s[0]) && !IsSpace(s[|s| - 1]))
  }

  /** Stripping takes exactly the blanks around a text away. */
  lemma StripPadded(l: Line, s: Line, r: Line)
    requires All(l, IsSpace) && All(r, IsSpace) && Tidy(s)
    ensures Strip(l + s + r) == s
  {
    hide StripLeft, StripRight;
    if s == "" {
      assert l + s + r == (l + r) + "";
      StripLeftSkips(l + r, "");
      StripRightSkips("", "");
      assert "" + "" == "";
    } else {
      assert l + s + r == l + (s + r) && (s + r)[0] == s[0];
      StripLeftSkips(l, s + r);
      StripRightSkips(s, r);
    }
  }

  /** So indenting a line, or blanks at its end, do not change what it is. */
  lemma PaddingIsIgnored(l: Line, s: Line, r: Line)
    requires All(l, IsSpace) && All(r, IsSpace) && Tidy(s)
    ensures Classify(l + s + r) == Classify(s)
  {
    hide Strip;
    StripPadded(l, s, r);
    StripPadded("", s, "");
    assert "" + s + "" == s;
  }

  /** A line is an endfor exactly if it starts with that word, whatever follows. */
  lemma EndforLine(s: Line)
    requires Tidy(s)
    ensures Classify(s) == EndFor <==> "endfor" <= s
  {
    hide Strip, Header, Literal, Spaces, Span;
    StripPadded("", s, "");
    assert "" + s + "" == s;
  }

  /** Texts with commas between them. */
  function Commas(items: seq<Line>): Line
  {
    if items == [] then "" else if |items| == 1 then items[0] else items[0] + ("," + Commas(items[1..]))
  }

  predicate NoCommas(items: seq<Line>)
  {
    forall k :: 0 <= k < |items| ==> ',' !in items[k]
  }

  function StripAll(items: seq<Line>): (r: seq<Line>)
    ensures |r| == |items| && forall k :: 0 <= k < |items| ==> r[k] == Strip(items[k])
  {
    seq(|items|, k requires 0 <= k < |items| => Strip(items[k]))
  }

  lemma {:induction false} ItemsOfCommas(items: seq<Line>)
    requires items != [] && NoCommas(items)
    ensures Items(Commas(items)) == StripAll(items)
    decreases |items|
  {
    hide Strip, Span;
    var first := items[0];
    if |items| == 1 {
      SpanIs(first, "", NotComma);
      assert first + "" == first;
    } else {
      var rest := Commas(items[1..]);
      var s := first + ("," + rest);
      SpanIs(first, "," + rest, NotComma);
      assert s[|first| + 1..] == rest;
      ItemsOfCommas(items[1..]);
      assert StripAll(items) == [Strip(first)] + StripAll(items[1..]);
    }
  }

  /** The list form of a header, with blanks before the bracket and before each item but the first. */
  function ListTail(gap: Line, body: Line): Line { gap + ("[" + (body + "]")) }

  function Spaced(items: seq<Line>, gap: Line): (r: seq<Line>)
    ensures |r| == |items| && forall k :: 0 <= k < |items| ==> r[k] == (if k == 0 then "" else gap) + items[k] + ""
  {
    seq(|items|, k requires 0 <= k < |items| => (if k == 0 then "" else gap) + items[k] + "")
  }

  function ListHeader(name: Line, before: Line, items: seq<Line>, gap: Line): Line
  {
    ForHeader(name, ListTail(before, Commas(Spaced(items, gap))))
  }

  lemma UpToLastIs(s: Line)
    ensures UpToLast(s + "]") == s
  {
    var t := s + "]";
    assert t[|t| - 1] == ']' && t[..|t| - 1] == s;
  }

  lemma ListHeaderIs(name: Line, gap: Line, body: Line)
    requires All(gap, IsSpace) && body != ""
    ensures Header(name, ListTail(gap, body)) == For(name, Items(body))
  {
    hide Items, UpToLast, Span;
    var t := "[" + (body + "]");
    SpanIs(gap, t, IsSpace);
    assert After(ListTail(gap, body), gap) == t && t[0] == '[' && t[1..] == body + "]";
    UpToLastIs(body);
  }

  /** A bracketed list is a loop over exactly its items, in order, without the blanks around them. */
  lemma LiteralListIsLoop(name: Line, before: Line, items: seq<Line>, gap: Line)
    requires Word(name) && All(before, IsSpace) && All(gap, IsSpace)
    requires items != [] && NoCommas(items) && (forall k :: 0 <= k < |items| ==> Tidy(items[k]))
    requires Commas(Spaced(items, gap)) != ""
    ensures Classify(ListHeader(name, before, items, gap)) == For(name, items)
  {
    hide Classify, Header, Items, Commas, Strip;
    var raw := Spaced(items, gap);
    var tail := ListTail(before, Commas(raw));
    assert tail[|tail| - 1] == ']';
    ClassifyFor(name, tail);
    ListHeaderIs(name, before, Commas(raw));
    assert NoCommas(raw);
    ItemsOfCommas(raw);
    forall k | 0 <= k < |items| ensures StripAll(raw)[k] == items[k] {
      StripPadded(if k == 0 then "" else gap, items[k], "");
    }
    assert StripAll(raw) == items;
  }

  // ---------------------------------------------------------------- substitution

  /** Texts with the same thing between them. */
  function Weave(pieces: seq<Line>, thread: Line): Line
  {
    if pieces == [] then "" else if |pieces| == 1 then pieces[0] else pieces[0] + (thread + Weave(pieces[1..], thread))
  }

  predicate NoBraces(pieces: seq<Line>)
  {
    forall k :: 0 <= k < |pieces| ==> '{' !in pieces[k]
  }

  lemma ReplaceNow(p: Line, y: Line, value: Line)
    requires p != ""
    ensures Replace(p + y, p, value) == value + Replace(y, p, value)
  {
    assert (p + y)[|p|..] == y;
  }

  /** Substitution replaces every occurrence of the placeholder and nothing else. */
  lemma {:induction false} SubstIsWeaving(pieces: seq<Line>, name: Line, value: Line)
    requires pieces != [] && NoBraces(pieces)
    ensures Subst(Weave(pieces, Placeholder(name)), name, value) == Weave(pieces, value)
    decreases |pieces|
  {
    hide Replace;
    var p := Placeholder(name);
    if |pieces| == 1 {
      ReplaceSkips(pieces[0], "", p, value);
      assert pieces[0] + "" == pieces[0];
      NothingToReplace(p, value);
    } else {
      var rest := Weave(pieces[1..], p);
      ReplaceSkips(pieces[0], p + rest, p, value);
      ReplaceNow(p, rest, value);
      SubstIsWeaving(pieces[1..], name, value);
    }
  }

  lemma NothingToReplace(p: Line, value: Line)
    requires p != ""
    ensures Replace("", p, value) == ""
  {
  }

  /** The placeholders of other variables stay. */
  lemma OtherPlaceholderStays(other: Line, y: Line, name: Line, value: Line)
    requires Word(other) && Word(name) && other != name
    ensures Replace(Placeholder(other) + y, Placeholder(name), value)
         == Placeholder(other) + Replace(y, Placeholder(name), value)
  {
    hide Replace;
    var p, q := Placeholder(name), Placeholder(other);
    var t := other + "}";
    assert q + y == ['{'] + (t + y);
    if p <= q + y { SamePlaceholder(other, name, y); }
    ReplaceStep('{', t + y, p, value);
    WordsHaveNoBrace(other);
    ReplaceSkips(t, y, p, value);
    assert ['{'] + (t + Replace(y, p, value)) == q + Replace(y, p, value);
  }

  lemma ReplaceStep(c: char, s: Line, p: Line, value: Line)
    requires p != "" && c != '\n' && !(p <= [c] + s)
    ensures Replace([c] + s, p, value) == [c] + Replace(s, p, value)
  {
    assert ([c] + s)[1..] == s;
  }

  lemma SamePlaceholder(other: Line, name: Line, y: Line)
    requires Word(other) && Word(name) && Placeholder(name) <= Placeholder(other) + y
    ensures other == name
  {
    var p, q := Placeholder(name), Placeholder(other) + y;
    assert forall k :: 0 <= k < |p| ==> p[k] == q[k];
    assert p[|name| + 1] == '}' && q[|other| + 1] == '}';
    assert |name| == |other|;
    forall k | 0 <= k < |name| ensures name[k] == other[k] {
      assert name[k] == p[k + 1] && other[k] == q[k + 1];
    }
  }

  // A template whose inner loop runs up to the outer variable, with an empty body, and text after it.

  function InnerHeader(j: Line, a: Line, i: Line): Line { RangeHeader(j, a, Placeholder(i)) }

  predicate AllDigits(values: seq<Line>)
  {
    forall k :: 0 <= k < |values| ==> Digits(values[k])
  }

  /** The text, with each value put in. */
  function Copies(y: Line, i: Line, values: seq<Line>): seq<Line>
  {
    if values == [] then [] else [Subst(y, i, values[0])] + Copies(y, i, values[1..])
  }

  lemma {:induction false} EmptyLoopIsBlank(j: Line, values: seq<Line>)
    ensures Content(ExpandEach([], j, values)) == []
    ensures StableUnder([], j, values) && UnrollEach([], j, values) == []
    decreases |values|
  {
    if values != [] {
      EmptyLoopIsBlank(j, values[1..]);
      assert ExpandText(Join([])) == "" && NonBlank(Lines("")) == [];
      ContentCons("", ExpandEach([], j, values[1..]));
    }
  }

  /** An unclosed loop header alone expands to blank lines. */
  lemma LoneHeaderIsBlank(h: Line)
    requires Classify(h).For?
    ensures NonBlank(Lines(ExpandText(Join([h])))) == []
  {
    hide Classify, ExpandEach, ExpandLines, Lines, NonBlank, Content;
    BlankIsPlain();
    LinesOfJoin([h]);
    assert [h][|[h]| - 1] == h != "";
    ExpandCons(h, []);
    NoBlock(0);
    NothingLeft();
    assert [h] + [] == [h];
    var each := ExpandEach([], VarOf(h), ValuesOf(h));
    assert each + [] == each;
    EmptyLoopIsBlank(VarOf(h), ValuesOf(h));
    ContentOfJoin(each);
  }

  lemma {:induction false} StolenLoopIsBlank(j: Line, a: Line, i: Line, values: seq<Line>)
    requires Word(i) && Word(j) && Digits(a) && AllDigits(values)
    ensures Content(ExpandEach([InnerHeader(j, a, i)], i, values)) == []
    decreases |values|
  {
    hide Classify, ExpandText, Content, Digits;
    if values == [] {
      NoContent();
    } else {
      var h := InnerHeader(j, a, i);
      PlaceholderRangeBecomesLoop(j, a, i, values[0]);
      assert SubstLines([h], i, values[0]) == [RangeHeader(j, a, values[0])] by { assert [h][1..] == []; }
      LoneHeaderIsBlank(RangeHeader(j, a, values[0]));
      StolenLoopIsBlank(j, a, i, values[1..]);
      ContentCons(ExpandText(Join([RangeHeader(j, a, values[0])])), ExpandEach([h], i, values[1..]));
    }
  }

  lemma NoContent()
    ensures Content([]) == []
  {
  }

  /** The unrolling that the template means: one copy of the text for each value. */
  lemma {:induction false} MeantUnrolling(j: Line, a: Line, f: Line, y: Line, i: Line, values: seq<Line>)
    requires Word(i) && Word(j) && Digits(a) && AllDigits(values)
    requires forall k :: 0 <= k < |values| ==>
               Classify(Subst(f, i, values[k])).EndFor? && Classify(Subst(y, i, values[k])).Plain?
    ensures var body := [Loop(InnerHeader(j, a, i), [], f), Text(y)];
            StableUnder(body, i, values) && UnrollEach(body, i, values) == Copies(y, i, values)
    decreases |values|
  {
    hide Classify, Subst, Digits;
    if values != [] {
      var v := values[0];
      var body := [Loop(InnerHeader(j, a, i), [], f), Text(y)];
      PlaceholderRangeBecomesLoop(j, a, i, v);
      MeantUnrolling(j, a, f, y, i, values[1..]);
      MeantOnce(RangeHeader(j, a, v), Subst(f, i, v), Subst(y, i, v));
      var trees := SubstTrees(body, i, v);
      var last: seq<Tree> := [Text(y)];
      assert body[1..] == last && last[1..] == [] && SubstTrees([], i, v) == [];
      assert SubstTrees(last, i, v) == [Text(Subst(y, i, v))];
      assert SubstTree(body[0], i, v) == Loop(RangeHeader(j, a, v), [], Subst(f, i, v));
      assert trees == [Loop(RangeHeader(j, a, v), [], Subst(f, i, v)), Text(Subst(y, i, v))];
      SubstKeepsSize(body, i, v);
    }
  }

  lemma MeantOnce(h: Line, f: Line, y: Line)
    requires Classify(h).For? && Classify(f).EndFor? && Classify(y).Plain?
    ensures var trees := [Loop(h, [], f), Text(y)]; Stable(trees) && Unroll(trees) == [y]
  {
    hide Classify, VarOf, ValuesOf;
    EmptyLoopIsBlank(VarOf(h), ValuesOf(h));
    var trees := [Loop(h, [], f), Text(y)];
    var last := [Text(y)];
    assert trees[1..] == last && last[1..] == [];
    assert Shaped([]) && Stable([]) && Unroll([]) == [];
    assert Shaped(last) && Stable(last) && Unroll(last) == [y] + [] == [y];
    assert ShapedTree(trees[0]) && Shaped(trees) && Stable(trees);
  }

  /** The expander instead puts the text out once, as it stands, whatever the values. */
  lemma TextIsPutOutOnce(o: Line, j: Line, a: Line, f: Line, y: Line, g: Line)
    requires Classify(o).For? && Word(VarOf(o)) && AllDigits(ValuesOf(o)) && Word(j) && Digits(a)
    requires Classify(f).EndFor? && Classify(y).Plain? && Classify(g).EndFor?
    ensures var ls := [o, InnerHeader(j, a, VarOf(o)), f, y, g];
            NonBlank(Lines(ExpandText(Join(ls)))) == Keep(y)
  {
    hide Classify, ExpandLines, ExpandEach, Content, Lines, NonBlank, Digits, Word, Keep, InnerHeader;
    var h := InnerHeader(j, a, VarOf(o));
    var ls := [o, h, f, y, g];
    InnerHeaderIsPlain(o, j, a);
    BlankIsPlain();
    LinesOfJoin(ls);
    assert ls[|ls| - 1] == g != "";
    NonLiteralHeaderStealsEndfor(o, h, [], f, [y, g]);
    assert ls == [o] + ([h] + (Flatten([]) + ([f] + [y, g]))) && [h] + Flatten([]) == [h];
    ExpandCons(y, [g]);
    ExpandCons(g, []);
    NothingLeft();
    assert [y] + [g] == [y, g] && [g] + [] == [g] && [y] + [] == [y];
    var each := ExpandEach([h], VarOf(o), ValuesOf(o));
    StolenLoopIsBlank(j, a, VarOf(o), ValuesOf(o));
    ContentAppend(each, [y]);
    ContentOfLine(y);
    ContentOfJoin(each + [y]);
  }

  lemma InnerHeaderIsPlain(o: Line, j: Line, a: Line)
    requires Word(VarOf(o)) && Word(j) && Digits(a)
    ensures Classify(InnerHeader(j, a, VarOf(o))).Plain?
  {
    PlaceholderRangeBecomesLoop(j, a, VarOf(o), "0");
  }

  lemma ContentOfLine(y: Line)
    ensures Content([y]) == Keep(y)
  {
    hide Lines, NonBlank;
    ContentCons(y, []);
    NoContent();
    LinesOfJoin([y]);
    NonBlankCons(y, []);
    assert [y] + [] == [y] && [y][..0] == [];
  }

  lemma PlainText(l: Line)
    requires l != "" && !IsSpace(l[0]) && !IsSpace(l[|l| - 1]) && l[0] != 'e' && l[0] != 'f'
    ensures Classify(l) == Plain
  {
    hide Strip;
    StripsToItself(l);
  }

  /** A concrete template: it means y1 and y2, and expands to y{i}. */
  lemma NonLiteralHeaderMisexpands()
    ensures var o, y := RangeHeader("i", "1", "3"), "y" + Placeholder("i");
            var body := [Loop(InnerHeader("j", "0", "i"), [], "endfor"), Text(y)];
            && Classify(o) == For("i", ["1", "2"])
            && StableUnder(body, "i", ["1", "2"]) && UnrollEach(body, "i", ["1", "2"]) == ["y1", "y2"]
            && NonBlank(Lines(ExpandText(Join([o, InnerHeader("j", "0", "i"), "endfor", y, "endfor"])))) == ["y{i}"]
  {
    hide Classify, RangeHeader, UnrollEach, StableUnder, ExpandText, Lines, NonBlank, Subst, InnerHeader, Range, Number;
    LiteralRangeIsLoop("i", "1", "3");
    OneToThree();
    EndforIsEndFor();
    TemplateMeans();
    var y := "y" + Placeholder("i");
    PlainText(y);
    assert y == "y{i}";
    TextIsPutOutOnce(RangeHeader("i", "1", "3"), "j", "0", "endfor", y, "endfor");
  }

  lemma TemplateMeans()
    ensures var body := [Loop(InnerHeader("j", "0", "i"), [], "endfor"), Text("y" + Placeholder("i"))];
            StableUnder(body, "i", ["1", "2"]) && UnrollEach(body, "i", ["1", "2"]) == ["y1", "y2"]
  {
    hide Classify, RangeHeader, UnrollEach, StableUnder, Subst, InnerHeader;
    var y, values := "y" + Placeholder("i"), ["1", "2"];
    EndforIsEndFor();
    EndforStays("1");
    EndforStays("2");
    PlainText("y1");
    PlainText("y2");
    SubstAtEnd("y", "i", "1");
    SubstAtEnd("y", "i", "2");
    assert "y" + "1" == "y1" && "y" + "2" == "y2";
    assert forall k :: 0 <= k < |values| ==> Digits(values[k]) && (values[k] == "1" || values[k] == "2");
    MeantUnrolling("j", "0", "endfor", y, "i", values);
    var last := ["2"];
    assert values[1..] == last && last[1..] == [];
    assert Copies(y, "i", []) == [] && Copies(y, "i", last) == ["y2"];
    assert Copies(y, "i", values) == ["y1"] + ["y2"] == ["y1", "y2"];
  }

  // ---------------------------------------------------------------- a loop over one line of text

  lemma {:induction false} OneLineUnrolls(y: Line, i: Line, values: seq<Line>)
    requires forall k :: 0 <= k < |values| ==> Classify(Subst(y, i, values[k])).Plain?
    ensures StableUnder([Text(y)], i, values) && UnrollEach([Text(y)], i, values) == Copies(y, i, values)
    decreases |values|
  {
    hide Classify, Subst;
    if values != [] {
      var body := [Text(y)];
      OneLineUnrolls(y, i, values[1..]);
      SubstKeepsSize(body, i, values[0]);
      var trees := [Text(Subst(y, i, values[0]))];
      assert body[1..] == [] && SubstTrees(body, i, values[0]) == trees;
      assert trees[1..] == [] && Shaped(trees) && Stable(trees) && Unroll(trees) == [trees[0].line] + [];
    }
  }

  /** A loop over one line of text expands to one copy for each value, in order. */
  lemma SimpleLoopExpands(o: Line, y: Line, f: Line)
    requires Classify(o).For? && Classify(y).Plain? && Classify(f).EndFor?
    requires forall k :: 0 <= k < |ValuesOf(o)| ==> Classify(Subst(y, VarOf(o), ValuesOf(o)[k])).Plain?
    ensures NonBlank(Lines(ExpandText(Join([o, y, f])))) == NonBlank(Copies(y, VarOf(o), ValuesOf(o)))
  {
    hide Classify, ExpandText, Lines, NonBlank, Subst, VarOf, ValuesOf;
    OneLineUnrolls(y, VarOf(o), ValuesOf(o));
    var trees := [Loop(o, [Text(y)], f)];
    assert [Text(y)][1..] == [] && Shaped([Text(y)]) && Flatten([Text(y)]) == [y];
    assert trees[1..] == [] && Shaped(trees) && Stable(trees);
    var copies := Copies(y, VarOf(o), ValuesOf(o));
    assert Unroll(trees) == copies + [] == copies;
    assert Flatten(trees) == [o, y, f];
    ExpandTextIsUnroll(trees);
  }

  /** A concrete list: one copy for a, one for b. */
  lemma ListLoopExpands()
    ensures ListHeader("x", " ", ["a", "b"], " ") == "for x in [a, b]"
    ensures NonBlank(Lines(ExpandText(Join(["for x in [a, b]", "{x}", "endfor"])))) == ["a", "b"]
  {
    hide Classify, ExpandText, Lines, NonBlank, Subst;
    var items := ["a", "b"];
    ListText();
    LiteralListIsLoop("x", " ", items, " ");
    EndforIsEndFor();
    var y := Placeholder("x");
    PlainText(y);
    PlainText("a");
    PlainText("b");
    SubstAtEnd("", "x", "a");
    SubstAtEnd("", "x", "b");
    assert "" + y == y == "{x}" && "" + "a" == "a" && "" + "b" == "b";
    assert forall k :: 0 <= k < |items| ==> items[k] == "a" || items[k] == "b";
    SimpleLoopExpands("for x in [a, b]", y, "endfor");
    var last := ["b"];
    assert items[1..] == last && last[1..] == [] && Copies(y, "x", []) == [] && Copies(y, "x", last) == ["b"];
    assert Copies(y, "x", items) == ["a"] + ["b"] == ["a", "b"];
    NonBlankCons("a", ["b"]);
    NonBlankCons("b", []);
    assert ["a"] + ["b"] == ["a", "b"] && ["b"] + [] == ["b"] && NonBlank([]) == [] by { NoLines(); }
  }

  lemma NoLines()
    ensures NonBlank([]) == []
  {
  }

  lemma ListText()
    ensures ListHeader("x", " ", ["a", "b"], " ") == "for x in [a, b]" && Commas(Spaced(["a", "b"], " ")) == "a, b"
  {
    var raw := Spaced(["a", "b"], " ");
    assert raw[0] == "" + "a" + "" == "a" && raw[1] == " " + "b" + "" == " b";
    assert raw == ["a", " b"] && raw[1..] == [" b"];
    assert Commas(raw) == "a" + ("," + " b") == "a, b";
  }

  lemma OneToThree()
    ensures Range(Number("1"), Number("3")) == ["1", "2"]
  {
    assert Number("1") == 1 && Number("3") == 3;
    assert Show(1) == "1" && Show(2) == "2";
  }

  lemma EndforIsEndFor()
    ensures Classify("endfor") == EndFor
  {
  }

  lemma EndforStays(value: Line)
    ensures Subst("endfor", "i", value) == "endfor"
  {
    var line: Line := "endfor";
    assert line + "" == line;
    assert "{" + "i" + "}" == "{i}";
    ReplaceSkips(line, "", "{i}", value);
  }

  // ---------------------------------------------------------------- the loops of the script

  /** How many loops are open after a line, unless it ends the block. */
  function Nest(l: Line, nest: nat): nat
    requires Classify(l).EndFor? ==> nest > 0
  {
    match Classify(l)
    case For(_, _) => nest + 1
    case EndFor => nest - 1
    case Plain => nest
  }

  lemma BlockTurn(done: seq<Line>, l: Line, tail: seq<Line>, nest: nat)
    ensures if Classify(l).EndFor? && nest == 0 then done + Block([l] + tail, nest) == done
            else done + Block([l] + tail, nest) == (done + [l]) + Block(tail, Nest(l, nest))
  {
    hide Classify, Block;
    BlockCons(l, tail, nest);
    if Classify(l).EndFor? {
      if nest > 0 { BlockCons(l, tail, nest - 1); }
    }
  }

  method ExtractBlock(lines: seq<Line>, start: nat) returns (block: seq<Line>, i: nat)
    requires start <= |lines|
    ensures block == Block(lines[start..], 0) && i == start + |block|
  {
    hide Classify, Block;
    block, i := [], start;
    var nest := 0;
    while i < |lines|
      invariant start <= i <= |lines| && i == start + |block|
      invariant block + Block(lines[i..], nest) == Block(lines[start..], 0)
    {
      assert lines[i..] == [lines[i]] + lines[i + 1..];
      BlockTurn(block, lines[i], lines[i + 1..], nest);
      var kind := Classify(lines[i]);
      if kind.For? {
        nest := nest + 1;
      } else if kind.EndFor? {
        if nest == 0 {
          return;
        }
        nest := nest - 1;
      }
      block := block + [lines[i]];
      i := i + 1;
    }
    NoBlock(nest);
    assert lines[i..] == [] && block + [] == block;
  }

  lemma NoBlock(nest: nat)
    ensures Block([], nest) == []
  {
  }

  method SubstituteBlock(block: seq<Line>, name: Line, value: Line) returns (r: seq<Line>)
    ensures r == SubstLines(block, name, value)
  {
    hide Subst;
    r := [];
    for k := 0 to |block|
      invariant r + SubstLines(block[k..], name, value) == SubstLines(block, name, value)
    {
      assert block[k..][0] == block[k] && block[k..][1..] == block[k + 1..];
      r := r + [Subst(block[k], name, value)];
    }
  }

  /** The body of one loop, once for each value. */
  method ExpandValues(block: seq<Line>, name: Line, values: seq<Line>) returns (r: seq<string>)
    ensures r == ExpandEach(block, name, values)
    decreases |block|, 1
  {
    hide Lines, Join, ExpandText;
    r := [];
    assert values[0..] == values;
    for k := 0 to |values|
      invariant r + ExpandEach(block, name, values[k..]) == ExpandEach(block, name, values)
    {
      var body := SubstituteBlock(block, name, values[k]);
      LinesOfJoin(body);
      assert values[k..][0] == values[k] && values[k..][1..] == values[k + 1..];
      var expanded := ExpandForLoops(Join(body));
      r := r + [expanded];
    }
  }

  lemma ExpandTurn(done: seq<string>, l: Line, tail: seq<Line>)
    ensures match Classify(l)
            case For(name, values) =>
              var block := Block(tail, 0);
              done + ExpandLines([l] + tail)
                == (done + ExpandEach(block, name, values)) + ExpandLines(Beyond(tail, block))
            case EndFor => done + ExpandLines([l] + tail) == done + ExpandLines(tail)
            case Plain => done + ExpandLines([l] + tail) == (done + [l]) + ExpandLines(tail)
  {
    hide Classify, Block, ExpandEach, ExpandLines, Beyond;
    ExpandCons(l, tail);
  }

  /** The lines from index i on. */
  function From(lines: seq<Line>, i: nat): seq<Line>
  {
    if i < |lines| then lines[i..] else []
  }

  lemma BeyondIs(lines: seq<Line>, i: nat, block: seq<Line>)
    requires block <= From(lines, i)
    ensures Beyond(From(lines, i), block) == From(lines, i + |block| + 1)
  {
  }

  lemma FromIs(lines: seq<Line>, i: nat)
    requires i < |lines|
    ensures From(lines, i) == [lines[i]] + From(lines, i + 1) && From(lines, i + 1) == lines[i + 1..]
  {
  }

  method ExpandForLoops(text: string) returns (r: string)
    ensures r == ExpandText(text)
    decreases |Lines(text)|, 0
  {
    hide Classify, Block, Lines, Join, ExpandEach, ExpandLines, Beyond, From;
    var lines := Lines(text);
    var output: seq<string> := [];
    var i := 0;
    AllLines(lines);
    while i < |lines|
      invariant 0 <= i <= |lines| + 1
      invariant output + ExpandLines(From(lines, i)) == ExpandLines(lines)
      decreases |lines| + 1 - i
    {
      FromIs(lines, i);
      ExpandTurn(output, lines[i], From(lines, i + 1));
      var kind := Classify(lines[i]);
      if kind.For? {
        var block, end := ExtractBlock(lines, i + 1);
        BeyondIs(lines, i + 1, block);
        var expanded := ExpandValues(block, kind.name, kind.values);
        output := output + expanded;
        i := end;
      } else if kind.Plain? {
        output := output + [lines[i]];
      }
      i := i + 1;
    }
    NoneLeft(lines, i);
    assert output + [] == output;
    r := Join(output);
  }

  lemma AllLines(lines: seq<Line>)
    ensures From(lines, 0) == lines && [] + ExpandLines(lines) == ExpandLines(lines)
  {
    hide ExpandLines;
  }

  lemma NoneLeft(lines: seq<Line>, i: nat)
    requires |lines| <= i
    ensures ExpandLines(From(lines, i)) == []
  {
  }

  lemma NothingLeft()
    ensures ExpandLines([]) == []
  {
  }
}
