/**
 * `normalize_markdown_bullets`: a line-by-line rewriter that standardises list markers
 * and separates a heading from a list that starts right under it, leaving fenced code alone.
 *
 * The input is the sequence of lines `content.splitlines()` produces and the result is the
 * sequence of lines the function joins with "\n"; the split and the join are not modelled.
 */
module Bullets {
  import opened Text
  import opened Seqs

  /** The bullet-like glyphs: en dash, em dash, bullet, bullet operator, middle dot, triangular bullet. */
  predicate IsGlyph(c: char)
  {
    c == '\U{2013}' || c == '\U{2014}' || c == '\U{2022}' || c == '\U{2219}' || c == '\U{B7}' || c == '\U{2023}'
  }

  predicate IsHash(c: char)
  {
    c == '#'
  }

  /** `^\s*(```|~~~)` */
  predicate IsFence(line: string)
  {
    var t := line[Indent(line)..];
    StartsWith(t, "```") || StartsWith(t, "~~~")
  }

  /** `^\s*#{1,6}\s+` */
  predicate IsHeading(line: string)
  {
    var k := Indent(line);
    var h := Span(line[k..], IsHash);
    1 <= h <= 6 && k + h < |line| && IsSpace(line[k + h])
  }

  /** `^\s*([-*+]\s|\d+\.\s)` */
  predicate IsListStart(line: string)
  {
    var t := line[Indent(line)..];
    || (|t| >= 2 && (t[0] == '-' || t[0] == '*' || t[0] == '+') && IsSpace(t[1]))
    || (var d := Span(t, IsDigit); 1 <= d && d + 1 < |t| && t[d] == '.' && IsSpace(t[d + 1]))
  }

  /** The first non-blank character of the line is a bullet glyph: `^\s*[–—•∙·‣]` matches. */
  predicate HasGlyph(line: string)
  {
    Indent(line) < |line| && IsGlyph(line[Indent(line)])
  }

  /**
   * `(.*)$` matches all of `t` when `re.MULTILINE` is off: `.` stops at a newline and `$`
   * also matches just before a newline that ends the string.
   */
  predicate DotStarToEnd(t: string)
  {
    forall i :: 0 <= i < |t| - 1 ==> t[i] != '\n'
  }

  /** `^(\s*)-(?!\s)(.*)$` matches: a leading dash with no whitespace right after it. */
  predicate HasBareDash(line: string)
  {
    var k := Indent(line);
    && k < |line|
    && line[k] == '-'
    && (k + 1 == |line| || !IsSpace(line[k + 1]))
    && DotStarToEnd(line[k + 1..])
  }

  /** A leading glyph and the whitespace after it become "- "; the indentation is kept. */
  function ConvertGlyph(line: string): string
  {
    if HasGlyph(line) then
      var k := Indent(line);
      line[..k] + "- " + TrimLeft(line[k + 1..])
    else line
  }

  /** A bare leading dash gets a space after it. */
  function SpaceAfterDash(line: string): string
  {
    if HasBareDash(line) then
      var k := Indent(line);
      line[..k] + "- " + line[k + 1..]
    else line
  }

  /** Both rewrites, in the order the source applies them to a line outside a fence. */
  function Rewrite(line: string): string
  {
    SpaceAfterDash(ConvertGlyph(line))
  }

  /** The loop's state: whether a fence is open, and the previous raw line. */
  datatype State = State(inFence: bool, prevRaw: string)

  const Start := State(false, "")

  /** A fence line flips the flag; every line becomes the previous raw line. */
  function Next(st: State, raw: string): State
  {
    State(if IsFence(raw) then !st.inFence else st.inFence, raw)
  }

  /** One pass of the loop body: `out` extended with what `raw` produces. */
  function Step(st: State, out: seq<string>, raw: string): seq<string>
  {
    if IsFence(raw) then out + [raw]
    else if st.inFence then out + [raw]
    else
      var line := Rewrite(raw);
      var blank :=
        && st.prevRaw != ""
        && IsHeading(st.prevRaw)
        && IsListStart(line)
        && |out| > 0
        && out[|out| - 1] != "";
      (if blank then out + [""] else out) + [line]
  }

  /** The `for raw_line in lines` loop, with its state and the lines emitted so far. */
  function Loop(st: State, out: seq<string>, lines: seq<string>): (State, seq<string>)
    decreases |lines|
  {
    if |lines| == 0 then (st, out)
    else Loop(Next(st, lines[0]), Step(st, out, lines[0]), lines[1..])
  }

  /** `normalize_markdown_bullets`, from the lines of the content to the lines it joins. */
  function Normalize(lines: seq<string>): (r: seq<string>)
    ensures |lines| == 0 ==> r == []
    ensures |r| >= |lines|
  {
    if |lines| == 0 then lines
    else
      LoopIsGo(Start, [], lines);
      GoLength(Start, lines);
      Loop(Start, [], lines).1
  }

  // ---------------------------------------------------------------------------------------
  // The loop without its accumulator: what one line emits, given the state before it.

  /** What the loop emits for `raw`, once the check of the last emitted line is known to hold. */
  function Emit(st: State, raw: string): seq<string>
  {
    if IsFence(raw) || st.inFence then [raw]
    else if IsHeading(st.prevRaw) && IsListStart(Rewrite(raw)) then ["", Rewrite(raw)]
    else [Rewrite(raw)]
  }

  function Go(st: State, lines: seq<string>): seq<string>
    decreases |lines|
  {
    if |lines| == 0 then [] else Emit(st, lines[0]) + Go(Next(st, lines[0]), lines[1..])
  }

  /** The state after the loop has consumed `lines`. */
  function Final(st: State, lines: seq<string>): State
    decreases |lines|
  {
    if |lines| == 0 then st else Final(Next(st, lines[0]), lines[1..])
  }

  /** Every line emits at least itself. */
  lemma {:induction false} GoLength(st: State, lines: seq<string>)
    ensures |Go(st, lines)| >= |lines|
    decreases |lines|
  {
    if |lines| > 0 {
      GoLength(Next(st, lines[0]), lines[1..]);
    }
  }

  /** What the loop relies on: a heading as the previous raw line is also the last emitted line. */
  ghost predicate LastIsPrevHeading(st: State, out: seq<string>)
  {
    IsHeading(st.prevRaw) ==> |out| > 0 && out[|out| - 1] == st.prevRaw
  }

  lemma HeadingUnchanged(line: string)
    requires IsHeading(line)
    ensures line != ""
    ensures !IsFence(line) && !HasGlyph(line) && !HasBareDash(line)
    ensures Rewrite(line) == line
  {
    var k := Indent(line);
    assert line[k..][0] == '#';
  }

  /** One pass of the loop body emits what `Emit` says and keeps `LastIsPrevHeading`. */
  lemma StepIsEmit(st: State, out: seq<string>, raw: string)
    requires LastIsPrevHeading(st, out)
    ensures Step(st, out, raw) == out + Emit(st, raw)
    ensures LastIsPrevHeading(Next(st, raw), out + Emit(st, raw))
  {
    if !IsFence(raw) && !st.inFence && IsHeading(st.prevRaw) {
      HeadingUnchanged(st.prevRaw);
    }
    EmitKeepsHeading(st, out, raw);
  }

  /** A heading that becomes the previous raw line is also the last line emitted. */
  lemma EmitKeepsHeading(st: State, out: seq<string>, raw: string)
    ensures LastIsPrevHeading(Next(st, raw), out + Emit(st, raw))
  {
    if IsHeading(raw) {
      HeadingUnchanged(raw);
      var e := Emit(st, raw);
      assert e[|e| - 1] == raw;
    }
  }

  /**
   * The loop's test that the last emitted line is not blank never fails when it is
   * reached: the loop emits exactly what `Emit` says, and leaves the state `Final` says.
   */
  lemma {:induction false} LoopIsGo(st: State, out: seq<string>, lines: seq<string>)
    requires LastIsPrevHeading(st, out)
    ensures Loop(st, out, lines).1 == out + Go(st, lines)
    ensures Loop(st, out, lines).0 == Final(st, lines)
    decreases |lines|
  {
    if |lines| > 0 {
      var raw := lines[0];
      var st', out' := Next(st, raw), Step(st, out, raw);
      assert Loop(st, out, lines) == Loop(st', out', lines[1..]);
      StepIsEmit(st, out, raw);
      LoopIsGo(st', out', lines[1..]);
      assert Go(st, lines) == Emit(st, raw) + Go(st', lines[1..]);
      assert out' + Go(st', lines[1..]) == out + Go(st, lines);
    }
  }

  // ---------------------------------------------------------------------------------------
  // A declarative reading: line i is inside a fence exactly when an odd number of fence
  // lines come before it, and the heading test looks at line i - 1.

  function FenceCount(lines: seq<string>): nat
    decreases |lines|
  {
    if |lines| == 0 then 0
    else FenceCount(lines[..|lines| - 1]) + (if IsFence(lines[|lines| - 1]) then 1 else 0)
  }

  predicate InsideFence(lines: seq<string>, i: nat)
    requires i <= |lines|
  {
    FenceCount(lines[..i]) % 2 == 1
  }

  /** The output lines that line i of the input accounts for. */
  function Output(lines: seq<string>, i: nat): seq<string>
    requires i < |lines|
  {
    if IsFence(lines[i]) || InsideFence(lines, i) then [lines[i]]
    else if 0 < i && IsHeading(lines[i - 1]) && IsListStart(Rewrite(lines[i])) then ["", Rewrite(lines[i])]
    else [Rewrite(lines[i])]
  }

  /** The outputs of all lines, in input order. */
  function Reference(lines: seq<string>): seq<string>
    decreases |lines|
  {
    if |lines| == 0 then [] else Reference(lines[..|lines| - 1]) + Output(lines, |lines| - 1)
  }

  /** The loop state after a prefix of the input, as the declarative reading describes it. */
  function StateAfter(prefix: seq<string>): State
  {
    State(FenceCount(prefix) % 2 == 1, if |prefix| == 0 then "" else prefix[|prefix| - 1])
  }

  /** Consuming one more line moves the declarative state as `Next` does. */
  lemma NextIsStateAfter(prefix: seq<string>, raw: string)
    ensures Next(StateAfter(prefix), raw) == StateAfter(prefix + [raw])
  {
    var lines := prefix + [raw];
    assert lines[..|lines| - 1] == prefix;
    var c := FenceCount(prefix);
    if IsFence(raw) {
      assert FenceCount(lines) == c + 1;
      assert (c + 1) % 2 == 1 <==> c % 2 != 1;
    } else {
      assert FenceCount(lines) == c;
    }
  }

  /** The declarative output of the last line is what the loop emits for it. */
  lemma OutputIsEmit(prefix: seq<string>, raw: string)
    ensures Output(prefix + [raw], |prefix|) == Emit(StateAfter(prefix), raw)
  {
    var lines := prefix + [raw];
    var i := |prefix|;
    assert lines[i] == raw;
    assert lines[..i] == prefix;
    assert InsideFence(lines, i) == StateAfter(prefix).inFence;
    if 0 < i {
      assert lines[i - 1] == StateAfter(prefix).prevRaw;
    } else {
      EmptyLine();
    }
  }

  /** Appending one line to the prefix: the state moves by `Next` and the output grows by `Emit`. */
  lemma OneStep(prefix: seq<string>, raw: string)
    ensures Next(StateAfter(prefix), raw) == StateAfter(prefix + [raw])
    ensures Reference(prefix) + Emit(StateAfter(prefix), raw) == Reference(prefix + [raw])
  {
    NextIsStateAfter(prefix, raw);
    OutputIsEmit(prefix, raw);
    var lines := prefix + [raw];
    assert lines[..|lines| - 1] == prefix;
    assert Reference(lines) == Reference(prefix) + Output(lines, |prefix|);
  }

  /** The loop state after any stretch of lines is the declarative state of everything consumed. */
  lemma {:induction false} FinalIsStateAfter(prefix: seq<string>, rest: seq<string>)
    ensures Final(StateAfter(prefix), rest) == StateAfter(prefix + rest)
    decreases |rest|
  {
    if |rest| == 0 {
      AppendEmpty(prefix, rest);
    } else {
      var raw := rest[0];
      var st := StateAfter(prefix);
      assert Final(st, rest) == Final(Next(st, raw), rest[1..]);
      OneStep(prefix, raw);
      FinalIsStateAfter(prefix + [raw], rest[1..]);
      ShiftHead(prefix, rest);
    }
  }

  /** Running the loop from the declarative state of a prefix completes the declarative output. */
  lemma {:induction false} GoIsReference(prefix: seq<string>, rest: seq<string>)
    ensures Reference(prefix) + Go(StateAfter(prefix), rest) == Reference(prefix + rest)
    decreases |rest|
  {
    if |rest| == 0 {
      AppendEmpty(prefix, rest);
    } else {
      var raw := rest[0];
      var st := StateAfter(prefix);
      var a, e, g := Reference(prefix), Emit(st, raw), Go(Next(st, raw), rest[1..]);
      assert Go(st, rest) == e + g;
      OneStep(prefix, raw);
      GoIsReference(prefix + [raw], rest[1..]);
      ShiftHead(prefix, rest);
      Associative(a, e, g);
    }
  }

  /**
   * The fence flag after the loop is the parity of the number of fence lines, and the
   * previous raw line is the last input line.
   */
  lemma FenceParity(lines: seq<string>)
    ensures Loop(Start, [], lines).0.inFence <==> FenceCount(lines) % 2 == 1
    ensures |lines| > 0 ==> Loop(Start, [], lines).0.prevRaw == lines[|lines| - 1]
  {
    assert StateAfter([]) == Start;
    LoopIsGo(Start, [], lines);
    FinalIsStateAfter([], lines);
    AppendEmpty(lines, []);
  }

  /**
   * The output is, line by line and in order, each input line: verbatim if it is a fence
   * line or inside a fence, rewritten otherwise, preceded by one blank line exactly when
   * it lies outside a fence, its rewritten form starts a list and the line before it is a
   * heading.
   */
  lemma NormalizeIsReference(lines: seq<string>)
    ensures Normalize(lines) == Reference(lines)
  {
    if |lines| > 0 {
      assert Normalize(lines) == Loop(Start, [], lines).1;
      LoopIsGo(Start, [], lines);
      assert StateAfter([]) == Start;
      GoIsReference([], lines);
      AppendEmpty(lines, []);
    }
  }

  // ---------------------------------------------------------------------------------------
  // The per-line rewrites.

  /** Blanks followed by a non-blank: the indentation is exactly the blanks. */
  lemma IndentAfterBlank(pre: string, rest: string)
    requires forall i :: 0 <= i < |pre| ==> IsSpace(pre[i])
    requires |rest| > 0 && !IsSpace(rest[0])
    ensures Indent(pre + rest) == |pre|
  {
    SpanAppend(pre, rest, IsSpace);
  }

  /**
   * A leading glyph, with the whitespace after it, becomes "- "; the indentation before it
   * and the text after the whitespace are kept.
   */
  lemma GlyphBecomesDash(line: string)
    requires HasGlyph(line)
    ensures Rewrite(line) == line[..Indent(line)] + "- " + TrimLeft(line[Indent(line) + 1..])
  {
    var k := Indent(line);
    var c := ConvertGlyph(line);
    IndentAfterBlank(line[..k], "- " + TrimLeft(line[k + 1..]));
    assert c[k] == '-' && c[k + 1] == ' ' && IsSpace(c[k + 1]);
    assert !HasBareDash(c);
  }

  /**
   * A bare leading dash gets exactly one space inserted right after it: the indentation, the
   * dash and everything after it are kept.
   */
  lemma DashGetsOneSpace(line: string)
    requires HasBareDash(line)
    ensures Rewrite(line) == line[..Indent(line)] + "- " + line[Indent(line) + 1..]
  {
    assert ConvertGlyph(line) == line;
  }

  /** A line made of blanks, "- " and a tail is indented by the blanks and then has "- ". */
  lemma DashShape(pre: string, tail: string, r: string)
    requires forall i :: 0 <= i < |pre| ==> IsSpace(pre[i])
    requires r == pre + "- " + tail
    ensures |pre| + 2 <= |r| && r[..|pre|] == pre && r[|pre|] == '-' && r[|pre| + 1] == ' '
    ensures Indent(r) == |pre|
  {
    Associative(pre, "- ", tail);
    IndentAfterBlank(pre, "- " + tail);
  }

  /** Where a rewrite changes a line, the result is the same indentation followed by "- ". */
  lemma RewriteChanged(line: string)
    requires Rewrite(line) != line
    ensures var r, k := Rewrite(line), Indent(line);
      && k + 2 <= |r| && r[..k] == line[..k] && r[k] == '-' && r[k + 1] == ' ' && Indent(r) == k
  {
    var k := Indent(line);
    if HasGlyph(line) {
      GlyphBecomesDash(line);
      DashShape(line[..k], TrimLeft(line[k + 1..]), Rewrite(line));
    } else {
      RewriteFixedPoint(line);
      DashSpaced(line);
    }
  }

  /** The dash rule's result, read as the indentation followed by "- ". */
  lemma DashSpaced(line: string)
    requires HasBareDash(line)
    ensures var r, k := Rewrite(line), Indent(line);
      && k + 2 <= |r| && r[..k] == line[..k] && r[k] == '-' && r[k + 1] == ' ' && Indent(r) == k
  {
    var k := Indent(line);
    DashGetsOneSpace(line);
    DashShape(line[..k], line[k + 1..], Rewrite(line));
  }

  /** A rewrite changes a line exactly when it has a leading glyph or a bare leading dash. */
  lemma RewriteFixedPoint(line: string)
    ensures Rewrite(line) == line <==> !HasGlyph(line) && !HasBareDash(line)
  {
    var k := Indent(line);
    if HasGlyph(line) {
      GlyphBecomesDash(line);
      assert Rewrite(line)[k] == '-' != line[k];
    } else if HasBareDash(line) {
      DashGetsOneSpace(line);
      assert |Rewrite(line)| == |line| + 1;
    }
  }

  /**
   * A rewritten line has no leading glyph and no bare leading dash left, and its
   * indentation is that of the original line.
   */
  lemma RewriteNormalForm(line: string)
    ensures !HasGlyph(Rewrite(line)) && !HasBareDash(Rewrite(line))
    ensures Indent(Rewrite(line)) == Indent(line)
    ensures Rewrite(line)[..Indent(line)] == line[..Indent(line)]
  {
    if Rewrite(line) != line {
      RewriteChanged(line);
    } else {
      RewriteFixedPoint(line);
    }
  }

  /** Rewriting a rewritten line changes nothing. */
  lemma RewriteIdempotent(line: string)
    ensures Rewrite(Rewrite(line)) == Rewrite(line)
  {
    RewriteNormalForm(line);
    RewriteFixedPoint(Rewrite(line));
  }

  /** The first non-blank character of a fence line and of a heading. */
  lemma LeadChar(line: string)
    ensures IsFence(line) ==> Indent(line) < |line| && (line[Indent(line)] == '`' || line[Indent(line)] == '~')
    ensures IsHeading(line) ==> Indent(line) < |line| && line[Indent(line)] == '#'
  {
    var t := line[Indent(line)..];
    if StartsWith(t, "```") {
      assert t[..3][0] == t[0];
    }
    if StartsWith(t, "~~~") {
      assert t[..3][0] == t[0];
    }
  }

  /** A rewrite neither makes nor unmakes a fence line or a heading. */
  lemma RewriteKeepsKind(line: string)
    ensures IsFence(Rewrite(line)) <==> IsFence(line)
    ensures IsHeading(Rewrite(line)) <==> IsHeading(line)
  {
    var r, k := Rewrite(line), Indent(line);
    if r != line {
      RewriteChanged(line);
      LeadChar(r);
      LeadChar(line);
      RewriteFixedPoint(line);
      assert !IsFence(line) && !IsHeading(line);
    }
  }

  /** A bare "---" (a thematic break) is rewritten to "- --". */
  lemma ThematicBreakQuirk()
    ensures Rewrite("---") == "- --"
  {
    var line := "---";
    assert !IsSpace(line[0]) && !IsGlyph(line[0]);
    assert Indent(line) == 0;
    assert ConvertGlyph(line) == line;
    assert !IsSpace(line[1]) && DotStarToEnd(line[1..]);
    assert SpaceAfterDash(line) == line[..0] + "- " + line[1..];
    assert line[..0] + "- " + line[1..] == "- --";
  }

  // ---------------------------------------------------------------------------------------
  // Normalising twice is normalising once.

  /** The loop over two stretches of lines runs the second from the state the first leaves. */
  lemma {:induction false} GoAppend(st: State, a: seq<string>, b: seq<string>)
    ensures Go(st, a + b) == Go(st, a) + Go(Final(st, a), b)
    ensures Final(st, a + b) == Final(Final(st, a), b)
    decreases |a|
  {
    if |a| == 0 {
      AppendEmpty(b, a);
    } else {
      var x := a[0];
      assert (a + b)[0] == x;
      assert (a + b)[1..] == a[1..] + b;
      GoAppend(Next(st, x), a[1..], b);
      Associative(Emit(st, x), Go(Next(st, x), a[1..]), Go(Final(st, a), b));
    }
  }

  /** The blank line the loop inserts is no fence, heading or list item, and no rewrite touches it. */
  lemma EmptyLine()
    ensures !IsFence("") && !IsHeading("") && !IsListStart("") && Rewrite("") == ""
  {
  }

  /** The loop over a single line. */
  lemma GoSingle(st: State, l: string)
    ensures Go(st, [l]) == Emit(st, l)
    ensures Final(st, [l]) == Next(st, l)
  {
    assert [l][1..] == [];
    AppendEmpty(Emit(st, l), []);
  }

  /** A second pass over a rewritten line outside a fence emits it unchanged. */
  lemma EmitRewritten(st2: State, y: string)
    requires !st2.inFence && !IsFence(y) && Rewrite(y) == y
    requires IsHeading(st2.prevRaw) ==> !IsListStart(y)
    ensures Go(st2, [y]) == [y] && Final(st2, [y]) == State(false, y)
  {
    GoSingle(st2, y);
  }

  /** Inside a fence, or on a fence line, a line is emitted as it is, on both passes. */
  lemma StableVerbatim(st1: State, st2: State, x: string)
    requires st1.inFence == st2.inFence
    requires IsFence(x) || st1.inFence
    ensures Emit(st1, x) == [x]
    ensures Go(st2, [x]) == [x] && Final(st2, [x]) == Next(st2, x)
  {
    GoSingle(st2, x);
  }

  /** A list item under a heading is emitted after a blank line, which a second pass keeps. */
  lemma StableBlank(st1: State, st2: State, x: string)
    requires !st1.inFence && !st2.inFence && !IsFence(x)
    requires IsHeading(st1.prevRaw) && IsListStart(Rewrite(x))
    ensures Emit(st1, x) == [""] + [Rewrite(x)]
    ensures Go(st2, [""] + [Rewrite(x)]) == [""] + [Rewrite(x)]
    ensures Final(st2, [""] + [Rewrite(x)]) == State(false, Rewrite(x))
  {
    var y := Rewrite(x);
    RewriteIdempotent(x);
    RewriteKeepsKind(x);
    EmptyLine();
    EmitRewritten(Next(st2, ""), y);
    GoSingle(st2, "");
    GoAppend(st2, [""], [y]);
  }

  /** Any other line is emitted rewritten, and a second pass leaves it alone. */
  lemma StablePlain(st1: State, st2: State, x: string)
    requires !st1.inFence && !st2.inFence && !IsFence(x)
    requires !(IsHeading(st1.prevRaw) && IsListStart(Rewrite(x)))
    requires IsHeading(st2.prevRaw) ==> IsHeading(st1.prevRaw)
    ensures Emit(st1, x) == [Rewrite(x)]
    ensures Go(st2, [Rewrite(x)]) == [Rewrite(x)] && Final(st2, [Rewrite(x)]) == State(false, Rewrite(x))
  {
    RewriteIdempotent(x);
    RewriteKeepsKind(x);
    EmitRewritten(st2, Rewrite(x));
  }

  /** What one line emits passes through a second pass unchanged. */
  lemma EmitStable(st1: State, st2: State, x: string)
    requires st1.inFence == st2.inFence
    requires IsHeading(st2.prevRaw) ==> IsHeading(st1.prevRaw)
    ensures Go(st2, Emit(st1, x)) == Emit(st1, x)
    ensures Final(st2, Emit(st1, x)).inFence == Next(st1, x).inFence
    ensures IsHeading(Final(st2, Emit(st1, x)).prevRaw) ==> IsHeading(x)
  {
    RewriteKeepsKind(x);
    if IsFence(x) || st1.inFence {
      StableVerbatim(st1, st2, x);
    } else if IsHeading(st1.prevRaw) && IsListStart(Rewrite(x)) {
      StableBlank(st1, st2, x);
    } else {
      StablePlain(st1, st2, x);
    }
  }

  /** A second pass, from a state that agrees on the fence and sees no extra heading, changes nothing. */
  lemma {:induction false} GoIdempotent(st1: State, st2: State, lines: seq<string>)
    requires st1.inFence == st2.inFence
    requires IsHeading(st2.prevRaw) ==> IsHeading(st1.prevRaw)
    ensures Go(st2, Go(st1, lines)) == Go(st1, lines)
    decreases |lines|
  {
    if |lines| > 0 {
      var x := lines[0];
      var e, g := Emit(st1, x), Go(Next(st1, x), lines[1..]);
      assert Go(st1, lines) == e + g;
      GoAppend(st2, e, g);
      EmitStable(st1, st2, x);
      GoIdempotent(Next(st1, x), Final(st2, e), lines[1..]);
    }
  }

  /** Normalising already normalised lines returns them unchanged. */
  lemma NormalizeIdempotent(lines: seq<string>)
    ensures Normalize(Normalize(lines)) == Normalize(lines)
  {
    if |lines| > 0 {
      var n := Normalize(lines);
      LoopIsGo(Start, [], lines);
      AppendEmpty(Go(Start, lines), []);
      assert n == Go(Start, lines);
      assert |n| > 0;
      LoopIsGo(Start, [], n);
      AppendEmpty(Go(Start, n), []);
      GoIdempotent(Start, Start, lines);
    }
  }
}
