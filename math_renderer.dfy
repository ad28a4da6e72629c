/** The inline mixed math/text renderer: a raw value is normalized, cut
    into maximal runs of "math characters" and of other characters, and
    every run is rendered as typeset math or as plain text according to
    whether it looks like math. */
module MathRenderer {
  import opened Strings

  /** The value handed to the component. `Other` stands for any value that
      is not a string, carried with the text `String(value)` gives for it. */
  datatype Prop = Null | Undefined | Str(s: string) | Other(shown: string)

  /** One rendered node: a KaTeX inline-math node or a plain text span. */
  datatype Node = MathNode(tex: string) | TextNode(text: string)
  {
    function Value(): string {
      match this
      case MathNode(tex) => tex
      case TextNode(text) => text
    }
  }

  // ---------------------------------------------------------------------
  // Normalization

  /** Step 1: every non-overlapping pair of backslashes, taken left to
      right, becomes one backslash. */
  function CollapseBackslashes(s: string): (r: string)
    ensures |r| <= |s|
    ensures s != [] && s[0] != '\\' ==> r != [] && r[0] == s[0]
    decreases |s|
  {
    if |s| >= 2 && s[0] == '\\' && s[1] == '\\' then "\\" + CollapseBackslashes(s[2..])
    else if s == [] then []
    else [s[0]] + CollapseBackslashes(s[1..])
  }

  /** Number of copies of `c` at the front of `s`. */
  function RunOf(s: string, c: char): (n: nat)
    ensures n <= |s|
    ensures forall i :: 0 <= i < n ==> s[i] == c
    ensures n < |s| ==> s[n] != c
    decreases |s|
  {
    if s != [] && s[0] == c then 1 + RunOf(s[1..], c) else 0
  }

  /** Step 2: every maximal run of line feeds becomes one space. */
  function CollapseNewlines(s: string): (r: string)
    ensures |r| <= |s|
    ensures '\n' !in r
    ensures forall i :: 0 <= i < |r| ==> r[i] == ' ' || r[i] in s
    decreases |s|
  {
    if s == [] then []
    else if s[0] == '\n' then
      var n := RunOf(s, '\n');
      " " + CollapseNewlines(s[n..])
    else [s[0]] + CollapseNewlines(s[1..])
  }

  /** No two neighbouring characters are both whitespace. */
  predicate NoAdjacentSpaces(s: string) {
    forall i :: 1 <= i < |s| ==> !IsSpace(s[i - 1]) || !IsSpace(s[i])
  }

  /** Step 3: every run of two or more whitespace characters becomes one
      space; a lone whitespace character is kept as it is. */
  function CollapseSpaceRuns(s: string): (r: string)
    ensures NoAdjacentSpaces(r)
    ensures r == [] <==> s == []
    ensures r != [] ==> (IsSpace(r[0]) <==> IsSpace(s[0]))
    ensures forall i :: 0 <= i < |r| ==> r[i] == ' ' || r[i] in s
    decreases |s|
  {
    if s == [] then []
    else if IsSpace(s[0]) then
      var n := LeadingSpaces(s);
      var rest := CollapseSpaceRuns(s[n..]);
      LeadingSpacesSpec(s);
      assert rest != [] ==> !IsSpace(rest[0]);
      (if n >= 2 then " " else [s[0]]) + rest
    else
      [s[0]] + CollapseSpaceRuns(s[1..])
  }

  /** The string the renderer segments. */
  function Normalize(s: string): (r: string)
    ensures '\n' !in r
    ensures NoAdjacentSpaces(r)
  {
    CollapseSpaceRuns(CollapseNewlines(CollapseBackslashes(s)))
  }

  /** A maximal run of n backslashes comes out of step 1 as ceil(n/2)
      backslashes, and the text after the run is collapsed on its own. */
  lemma {:induction false} BackslashRun(n: nat, t: string)
    requires t == [] || t[0] != '\\'
    ensures CollapseBackslashes(Repeat('\\', n) + t)
         == Repeat('\\', (n + 1) / 2) + CollapseBackslashes(t)
    decreases n
  {
    if n == 0 {
      assert Repeat('\\', n) + t == t;
    } else if n == 1 {
      assert Repeat('\\', n) + t == "\\" + t;
      CollapseSingle(t);
    } else {
      var rest := Repeat('\\', n - 2) + t;
      var half := Repeat('\\', (n - 1) / 2);
      RepeatTwoMore('\\', n - 2, t);
      CollapsePair(rest);
      BackslashRun(n - 2, t);
      RepeatOneMore('\\', (n - 1) / 2);
      AppendAssoc("\\", half, CollapseBackslashes(t));
      calc {
        CollapseBackslashes(Repeat('\\', n) + t);
        { assert Repeat('\\', n) + t == "\\\\" + rest; }
        CollapseBackslashes("\\\\" + rest);
        "\\" + CollapseBackslashes(rest);
        "\\" + (half + CollapseBackslashes(t));
        ("\\" + half) + CollapseBackslashes(t);
        { assert (n + 1) / 2 == (n - 1) / 2 + 1; }
        Repeat('\\', (n + 1) / 2) + CollapseBackslashes(t);
      }
    }
  }

  /** Step 1 passes any character other than a backslash through. */
  lemma CollapseBackslashesOther(c: char, t: string)
    requires c != '\\'
    ensures CollapseBackslashes([c] + t) == [c] + CollapseBackslashes(t)
  {
    assert ([c] + t)[1..] == t;
  }

  /** Step 2 on a maximal run of n >= 1 line feeds: the run becomes one
      space, and the text after it is collapsed on its own. */
  lemma NewlineRun(n: nat, t: string)
    requires n >= 1 && (t == [] || t[0] != '\n')
    ensures CollapseNewlines(Repeat('\n', n) + t) == " " + CollapseNewlines(t)
  {
    var s := Repeat('\n', n) + t;
    assert forall i :: 0 <= i < n ==> s[i] == '\n';
    assert n < |s| ==> s[n] == t[0];
    assert RunOf(s, '\n') == n;
    assert s[n..] == t;
  }

  /** Step 2 passes any character other than a line feed through. */
  lemma CollapseNewlinesOther(c: char, t: string)
    requires c != '\n'
    ensures CollapseNewlines([c] + t) == [c] + CollapseNewlines(t)
  {
    assert ([c] + t)[1..] == t;
  }

  /** Step 3 on a maximal whitespace run `w`: two or more whitespace
      characters become one space, and a lone one is kept as it is. */
  lemma SpaceRun(w: string, t: string)
    requires w != [] && AllSpace(w) && (t == [] || !IsSpace(t[0]))
    ensures CollapseSpaceRuns(w + t) == (if |w| >= 2 then " " else w) + CollapseSpaceRuns(t)
  {
    var s := w + t;
    var n := LeadingSpaces(s);
    LeadingSpacesSpec(s);
    assert forall i :: 0 <= i < |w| ==> s[i] == w[i];
    assert |w| < |s| ==> s[|w|] == t[0];
    assert forall i :: 0 <= i < n ==> s[..n][i] == s[i];
    assert n == |w|;
    assert s[n..] == t;
    assert |w| == 1 ==> [s[0]] == w;
  }

  /** Step 3 passes any character other than whitespace through. */
  lemma CollapseSpaceRunsOther(c: char, t: string)
    requires !IsSpace(c)
    ensures CollapseSpaceRuns([c] + t) == [c] + CollapseSpaceRuns(t)
  {
    assert ([c] + t)[1..] == t;
  }

  lemma CollapsePair(rest: string)
    ensures CollapseBackslashes("\\\\" + rest) == "\\" + CollapseBackslashes(rest)
  {
    assert ("\\\\" + rest)[2..] == rest;
  }

  lemma CollapseSingle(t: string)
    requires t == [] || t[0] != '\\'
    ensures CollapseBackslashes("\\" + t) == "\\" + CollapseBackslashes(t)
  {
    var s := "\\" + t;
    assert s[1..] == t;
    if t != [] { assert s[1] == t[0]; }
  }

  /** The characters of `s` that are neither whitespace nor a backslash, in order. */
  function Glyphs(s: string): (r: string)
    decreases |s|
  {
    if s == [] then []
    else (if IsSpace(s[0]) || s[0] == '\\' then [] else [s[0]]) + Glyphs(s[1..])
  }

  /** The characters of `s` that are not whitespace, in order. */
  function Solid(s: string): (r: string)
    decreases |s|
  {
    if s == [] then []
    else (if IsSpace(s[0]) then [] else [s[0]]) + Solid(s[1..])
  }

  lemma {:induction false} GlyphsOfSolid(s: string)
    ensures Glyphs(Solid(s)) == Glyphs(s)
    decreases |s|
  {
    if s != [] {
      GlyphsOfSolid(s[1..]);
      if !IsSpace(s[0]) {
        var t := [s[0]] + Solid(s[1..]);
        assert Solid(s) == t;
        assert t[0] == s[0] && t[1..] == Solid(s[1..]);
        assert Glyphs(t) == (if IsSpace(t[0]) || t[0] == '\\' then [] else [t[0]]) + Glyphs(t[1..]);
      } else {
        assert Solid(s) == Solid(s[1..]);
      }
    }
  }

  lemma {:induction false} GlyphsOfCollapseBackslashes(s: string)
    ensures Glyphs(CollapseBackslashes(s)) == Glyphs(s)
    decreases |s|
  {
    if |s| >= 2 && s[0] == '\\' && s[1] == '\\' {
      GlyphsOfCollapseBackslashes(s[2..]);
      assert s[1..][1..] == s[2..];
      assert ("\\" + CollapseBackslashes(s[2..]))[1..] == CollapseBackslashes(s[2..]);
    } else if s != [] {
      GlyphsOfCollapseBackslashes(s[1..]);
      assert ([s[0]] + CollapseBackslashes(s[1..]))[1..] == CollapseBackslashes(s[1..]);
    }
  }

  lemma {:induction false} SolidOfSpacePrefix(s: string, n: nat)
    requires n <= |s| && AllSpace(s[..n])
    ensures Solid(s) == Solid(s[n..])
    decreases n
  {
    if n > 0 {
      assert s[1..][..n - 1] == s[1..n];
      assert IsSpace(s[..n][0]);
      SolidOfSpacePrefix(s[1..], n - 1);
      assert s[1..][n - 1..] == s[n..];
    }
  }

  lemma {:induction false} SolidOfCollapseNewlines(s: string)
    ensures Solid(CollapseNewlines(s)) == Solid(s)
    decreases |s|
  {
    if s == [] {
    } else if s[0] == '\n' {
      var n := RunOf(s, '\n');
      SolidOfCollapseNewlines(s[n..]);
      assert AllSpace(s[..n]) by {
        forall i | 0 <= i < n ensures IsSpace(s[..n][i]) { assert s[i] == '\n'; }
      }
      SolidOfSpacePrefix(s, n);
      assert (" " + CollapseNewlines(s[n..]))[1..] == CollapseNewlines(s[n..]);
    } else {
      SolidOfCollapseNewlines(s[1..]);
      assert ([s[0]] + CollapseNewlines(s[1..]))[1..] == CollapseNewlines(s[1..]);
    }
  }

  lemma {:induction false} SolidOfCollapseSpaceRuns(s: string)
    ensures Solid(CollapseSpaceRuns(s)) == Solid(s)
    decreases |s|
  {
    if s == [] {
    } else if IsSpace(s[0]) {
      var n := LeadingSpaces(s);
      var rest := CollapseSpaceRuns(s[n..]);
      LeadingSpacesSpec(s);
      SolidOfCollapseSpaceRuns(s[n..]);
      SolidOfSpacePrefix(s, n);
      var head: string := if n >= 2 then " " else [s[0]];
      assert (head + rest)[1..] == rest;
    } else {
      SolidOfCollapseSpaceRuns(s[1..]);
      assert ([s[0]] + CollapseSpaceRuns(s[1..]))[1..] == CollapseSpaceRuns(s[1..]);
    }
  }

  /** Steps 2 and 3 touch only whitespace, and step 1 only backslashes: the
      other characters come out of normalization unchanged and in order. */
  lemma NormalizeKeepsGlyphs(s: string)
    ensures Glyphs(Normalize(s)) == Glyphs(s)
  {
    var a := CollapseBackslashes(s);
    var b := CollapseNewlines(a);
    GlyphsOfCollapseBackslashes(s);
    SolidOfCollapseNewlines(a);
    SolidOfCollapseSpaceRuns(b);
    GlyphsOfSolid(a);
    GlyphsOfSolid(b);
    GlyphsOfSolid(CollapseSpaceRuns(b));
  }

  // ---------------------------------------------------------------------
  // Classification

  // The accumulation class `[\\\d^_=×÷*/(){}.+-]`.
  predicate IsMathChar(c: char) {
    || c == '\\' || IsDigit(c)
    || c == '^' || c == '_' || c == '=' || c == '×' || c == '÷' || c == '*' || c == '/'
    || c == '(' || c == ')' || c == '{' || c == '}' || c == '.' || c == '+' || c == '-'
  }

  /** Characters that on their own make `isMath` succeed: a digit or one of
      `^ = × ÷ * /`. */
  predicate IsMathMarker(c: char) {
    IsDigit(c) || c == '^' || c == '=' || c == '×' || c == '÷' || c == '*' || c == '/'
  }

  /** A backslash followed by an ASCII letter starts at index i. */
  predicate CommandAt(s: string, i: int) {
    0 <= i && i + 1 < |s| && s[i] == '\\' && IsAsciiLetter(s[i + 1])
  }

  /** The test `/\\[a-zA-Z]+|\^|=|×|÷|\*|\/|\d/`: some position starts a
      backslash command or holds a marker character. */
  predicate IsMath(s: string) {
    exists i :: 0 <= i < |s| && (IsMathMarker(s[i]) || CommandAt(s, i))
  }

  /** A non-empty string whose characters are all math characters or all not. */
  predicate IsRun(p: string) {
    p != [] && forall j :: 0 <= j < |p| ==> IsMathChar(p[j]) == IsMathChar(p[0])
  }

  /** Neighbouring parts belong to different classes. */
  predicate Alternates(parts: seq<string>) {
    forall k :: 1 <= k < |parts| ==> ClassChanges(parts[k - 1], parts[k])
  }

  /** `b` starts in the other class from `a`. */
  predicate ClassChanges(a: string, b: string) {
    a != [] && b != [] && IsMathChar(a[0]) != IsMathChar(b[0])
  }

  /** `parts` cuts `s` into maximal runs. */
  predicate IsRunSplit(parts: seq<string>, s: string) {
    && Flatten(parts) == s
    && (forall k :: 0 <= k < |parts| ==> IsRun(parts[k]))
    && Alternates(parts)
  }

  /** The parts pushed so far are runs and alternate. */
  predicate RunsAlternate(parts: seq<string>) {
    (forall k :: 0 <= k < |parts| ==> IsRun(parts[k])) && Alternates(parts)
  }

  /** The splitting loop: every character joins the buffer, and the buffer
      is pushed first whenever the character's class differs from the
      class of the run being built. */
  method SplitMixed(input: string) returns (result: seq<string>)
    ensures Flatten(result) == input
    ensures forall k :: 0 <= k < |result| ==> IsRun(result[k])
    ensures Alternates(result)
  {
    result := [];
    var buf := "";
    var inMath := false;
    for i := 0 to |input|
      invariant Splitting(input[..i], result, buf, inMath)
    {
      var ch := input[i];
      var mathChar := IsMathChar(ch);
      if mathChar {
        if !inMath && buf != "" {
          PushRun(input[..i], result, buf, inMath);
          result := result + [buf];
          buf := "";
        }
        inMath := true;
        buf := buf + [ch];
      } else {
        if inMath && buf != "" {
          PushRun(input[..i], result, buf, inMath);
          result := result + [buf];
          buf := "";
        }
        inMath := false;
        buf := buf + [ch];
      }
      Extended(input, i, result, buf, inMath);
    }
    if buf != "" {
      PushRun(input, result, buf, inMath);
      result := result + [buf];
    }
  }

  /** The loop state after reading `done`: the parts pushed so far are
      alternating runs, the buffer holds characters of class `inMath`
      only, and together they spell `done`; the buffer is empty only
      before the first character, and the last part is of the other
      class. */
  predicate Splitting(done: string, result: seq<string>, buf: string, inMath: bool) {
    && Flatten(result) + buf == done
    && RunsAlternate(result)
    && InClass(buf, inMath)
    && (buf == [] ==> done == [] && result == [])
    && (result != [] ==> IsMathChar(result[|result| - 1][0]) != inMath)
  }

  /** Every character of `buf` is of class `inMath`. */
  predicate InClass(buf: string, inMath: bool) {
    forall j :: 0 <= j < |buf| ==> IsMathChar(buf[j]) == inMath
  }

  /** After a character is appended to the buffer, the loop state holds
      for the text read one character further. */
  lemma Extended(input: string, i: nat, result: seq<string>, buf: string, inMath: bool)
    requires i < |input| && buf != [] && buf[|buf| - 1] == input[i]
    requires Flatten(result) + buf[..|buf| - 1] == input[..i]
    requires RunsAlternate(result) && InClass(buf, inMath)
    requires result != [] ==> IsMathChar(result[|result| - 1][0]) != inMath
    ensures Splitting(input[..i + 1], result, buf, inMath)
  {
    TakeOneMore(input, i);
    AppendLast(Flatten(result), buf);
  }

  lemma AppendLast(done: string, buf: string)
    requires buf != []
    ensures done + buf == done + buf[..|buf| - 1] + [buf[|buf| - 1]]
  {
    assert buf == buf[..|buf| - 1] + [buf[|buf| - 1]];
  }

  /** Pushing the buffer keeps the parts alternating runs, ends them in
      the buffer's class, and appends the buffer to their concatenation. */
  lemma PushRun(done: string, result: seq<string>, buf: string, inMath: bool)
    requires Splitting(done, result, buf, inMath) && buf != []
    ensures RunsAlternate(result + [buf]) && Flatten(result + [buf]) == done
    ensures IsMathChar((result + [buf])[|result|][0]) == inMath
  {
    var r := result + [buf];
    assert r[..|result|] == result;
    assert IsRun(buf);
    forall k | 0 <= k < |r|
      ensures IsRun(r[k])
    {
      if k < |result| {
        assert r[k] == result[k];
      }
    }
    forall k | 1 <= k < |r|
      ensures ClassChanges(r[k - 1], r[k])
    {
      assert r[k - 1] == result[k - 1];
      if k < |result| {
        assert r[k] == result[k];
      }
    }
  }

  /** The parts of a string into maximal runs are unique: whatever cuts a
      string into alternating non-empty homogeneous parts is exactly what
      `SplitMixed` returns. */
  lemma {:induction false} RunSplitUnique(p: seq<string>, q: seq<string>, s: string)
    requires IsRunSplit(p, s) && IsRunSplit(q, s)
    ensures p == q
    decreases |s|
  {
    if p == [] || q == [] {
      EmptySplit(p, s);
      EmptySplit(q, s);
    } else {
      FlattenFront(p);
      FlattenFront(q);
      var a, b := p[0], q[0];
      FirstRunIsMaximal(p, q, s);
      FirstRunIsMaximal(q, p, s);
      assert a == s[..|a|] && b == s[..|b|];
      var rest := s[|a|..];
      assert Flatten(p[1..]) == rest && Flatten(q[1..]) == rest;
      assert IsRunSplit(p[1..], rest);
      assert IsRunSplit(q[1..], rest);
      RunSplitUnique(p[1..], q[1..], rest);
      assert p == [a] + p[1..] && q == [b] + q[1..];
    }
  }

  /** A string made of one class only (all digits and operators, say, or
      all letters) comes out of the split as a single part. */
  lemma SingleRunSplit(s: string, parts: seq<string>)
    requires IsRun(s) && IsRunSplit(parts, s)
    ensures parts == [s]
  {
    FlattenOne(s);
    assert IsRunSplit([s], s);
    RunSplitUnique(parts, [s], s);
  }

  /** A split of the empty string has no parts, and a split with no parts
      is of the empty string. */
  lemma EmptySplit(p: seq<string>, s: string)
    requires IsRunSplit(p, s)
    ensures p == [] <==> s == []
  {
    if p != [] {
      FlattenFront(p);
    }
  }

  lemma FlattenFront(p: seq<string>)
    requires p != []
    ensures Flatten(p) == p[0] + Flatten(p[1..])
  {
    FlattenConcat([p[0]], p[1..]);
    FlattenOne(p[0]);
    assert p == [p[0]] + p[1..];
  }

  /** If the first part of p were shorter than the first part of q, the
      second part of p would start inside q's first run, in its class,
      against alternation. */
  lemma FirstRunIsMaximal(p: seq<string>, q: seq<string>, s: string)
    requires IsRunSplit(p, s) && IsRunSplit(q, s) && p != [] && q != []
    ensures |p[0]| >= |q[0]|
  {
    if |p[0]| < |q[0]| {
      var n := |p[0]|;
      FlattenFront(p);
      FlattenFront(q);
      assert s[..|q[0]|] == q[0];
      assert IsMathChar(s[n]) == IsMathChar(s[0]);
      if |p| > 1 {
        FlattenFront(p[1..]);
      }
      assert false;
    }
  }

  // ---------------------------------------------------------------------
  // Labelling and rendering

  /** A part is rendered as math exactly when `isMath` accepts it. */
  function Label(part: string): (n: Node)
    ensures n.Value() == part
    ensures n.MathNode? <==> IsMath(part)
  {
    if IsMath(part) then MathNode(part) else TextNode(part)
  }

  /** Label soundness: letters never enter a math run, so the backslash
      command alternative of `isMath` never fires on a run; a math run is
      labelled math exactly when it holds a digit or one of `^ = × ÷ * /`,
      and a run of other characters is always labelled text. */
  lemma RunLabel(p: string)
    requires IsRun(p)
    ensures IsMath(p) <==> IsMathChar(p[0]) && exists j :: 0 <= j < |p| && IsMathMarker(p[j])
  {
    if IsMath(p) {
      var i :| 0 <= i < |p| && (IsMathMarker(p[i]) || CommandAt(p, i));
      if CommandAt(p, i) {
        assert IsMathChar(p[i]) && !IsMathChar(p[i + 1]);
        assert false;
      }
      assert IsMathChar(p[i]);
    }
  }

  /** The component: absent input renders nothing; otherwise one node per
      run of the normalized text, in order, each labelled by `isMath`. */
  method Render(text: Prop) returns (nodes: Option<seq<Node>>)
    ensures nodes.None? <==> text.Null? || text.Undefined?
    ensures nodes.Some? ==> Flatten(Values(nodes.value)) == Normalize(RawText(text))
    ensures nodes.Some? ==> forall k :: 0 <= k < |nodes.value| ==>
              && IsRun(nodes.value[k].Value())
              && (nodes.value[k].MathNode? <==>
                    IsMathChar(nodes.value[k].Value()[0]) && HasMarker(nodes.value[k].Value()))
    ensures nodes.Some? ==> Alternates(Values(nodes.value))
  {
    if text.Null? || text.Undefined? {
      return None;
    }
    var raw := RawText(text);
    var fixed := Normalize(raw);
    var parts := SplitMixed(fixed);
    var rendered := seq(|parts|, k requires 0 <= k < |parts| => Label(parts[k]));
    assert Values(rendered) == parts;
    forall k | 0 <= k < |rendered|
      ensures rendered[k].MathNode? <==> IsMathChar(parts[k][0]) && HasMarker(parts[k])
    {
      RunLabel(parts[k]);
    }
    nodes := Some(rendered);
  }

  predicate HasMarker(p: string) {
    exists j :: 0 <= j < |p| && IsMathMarker(p[j])
  }

  function RawText(text: Prop): string {
    match text
    case Str(s) => s
    case Other(shown) => shown
    case _ => ""
  }

  function Values(nodes: seq<Node>): (parts: seq<string>)
    ensures |parts| == |nodes|
    ensures forall k :: 0 <= k < |nodes| ==> parts[k] == nodes[k].Value()
  {
    seq(|nodes|, k requires 0 <= k < |nodes| => nodes[k].Value())
  }
}
