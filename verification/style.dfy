/**
 * The style settings of a PDF export: each optional setting falls back to its default
 * when it is absent or falsy (an empty font string, a size of 0), and the resolved values
 * are spliced into the override style sheet of the generated HTML.
 */
module Style {
  import opened Options
  import opened Text
  import opened Seqs

  datatype StyleSettings = StyleSettings(
    fontFamily: Option<string>,
    h1Size: Option<int>,
    h2Size: Option<int>,
    h3Size: Option<int>,
    pSize: Option<int>)

  /** The values the override style sheet is built from. */
  datatype Resolved = Resolved(font: string, h1: int, h2: int, h3: int, p: int)

  const DefaultFont := "-apple-system, BlinkMacSystemFont, 'Segoe UI', 'Roboto', sans-serif"
  const DefaultH1 := 24
  const DefaultH2 := 20
  const DefaultH3 := 16
  const DefaultP := 12

  /** Python truthiness of an optional string: present and non-empty. */
  predicate TruthyText(o: Option<string>)
  {
    o.Some? && o.value != ""
  }

  /** Python truthiness of an optional integer: present and non-zero. */
  predicate TruthySize(o: Option<int>)
  {
    o.Some? && o.value != 0
  }

  /** `settings.x if settings and settings.x else default`, for the font. */
  function PickFont(font: Option<string>): string
  {
    if TruthyText(font) then font.value else DefaultFont
  }

  /** `settings.x if settings and settings.x else default`, for a size. */
  function PickSize(size: Option<int>, default: int): int
  {
    if TruthySize(size) then size.value else default
  }

  /**
   * The resolved values: each is the request's own value when the settings are present and
   * that value is truthy, and the default otherwise. No resolved value is falsy.
   */
  function Resolve(settings: Option<StyleSettings>): (r: Resolved)
    ensures r.font != "" && r.h1 != 0 && r.h2 != 0 && r.h3 != 0 && r.p != 0
    ensures settings.Some? && TruthyText(settings.value.fontFamily) ==> r.font == settings.value.fontFamily.value
    ensures !(settings.Some? && TruthyText(settings.value.fontFamily)) ==> r.font == DefaultFont
    ensures settings.Some? && TruthySize(settings.value.h1Size) ==> r.h1 == settings.value.h1Size.value
    ensures !(settings.Some? && TruthySize(settings.value.h1Size)) ==> r.h1 == DefaultH1
    ensures settings.Some? && TruthySize(settings.value.h2Size) ==> r.h2 == settings.value.h2Size.value
    ensures !(settings.Some? && TruthySize(settings.value.h2Size)) ==> r.h2 == DefaultH2
    ensures settings.Some? && TruthySize(settings.value.h3Size) ==> r.h3 == settings.value.h3Size.value
    ensures !(settings.Some? && TruthySize(settings.value.h3Size)) ==> r.h3 == DefaultH3
    ensures settings.Some? && TruthySize(settings.value.pSize) ==> r.p == settings.value.pSize.value
    ensures !(settings.Some? && TruthySize(settings.value.pSize)) ==> r.p == DefaultP
  {
    match settings
    case None => Resolved(DefaultFont, DefaultH1, DefaultH2, DefaultH3, DefaultP)
    case Some(st) =>
      Resolved(
        PickFont(st.fontFamily),
        PickSize(st.h1Size, DefaultH1),
        PickSize(st.h2Size, DefaultH2),
        PickSize(st.h3Size, DefaultH3),
        PickSize(st.pSize, DefaultP))
  }

  /** The settings that state every resolved value explicitly. */
  function Explicit(r: Resolved): StyleSettings
  {
    StyleSettings(Some(r.font), Some(r.h1), Some(r.h2), Some(r.h3), Some(r.p))
  }

  /** Resolving settings that spell out resolved values gives those values back. */
  lemma ResolveExplicit(settings: Option<StyleSettings>)
    ensures Resolve(Some(Explicit(Resolve(settings)))) == Resolve(settings)
  {
  }

  // ---------------------------------------------------------------------------------------
  // Python's `str(n)` for integers, as the f-string splices sizes.

  function DigitChar(d: nat): (c: char)
    requires d < 10
  {
    ('0' as int + d) as char
  }

  function DigitValue(c: char): nat
  {
    if '0' <= c && c <= '9' then (c as int - '0' as int) else 0
  }

  /** The decimal digits of `n`, most significant first, without leading zeros. */
  function NatToString(n: nat): (s: string)
    ensures |s| >= 1
    ensures forall i :: 0 <= i < |s| ==> '0' <= s[i] <= '9'
    decreases n
  {
    if n < 10 then [DigitChar(n)] else NatToString(n / 10) + [DigitChar(n % 10)]
  }

  /** `str(n)`: a minus sign for negative numbers, then the digits. */
  function IntToString(n: int): (s: string)
    ensures |s| >= 1
    ensures forall i :: 0 <= i < |s| ==> ('0' <= s[i] <= '9') || s[i] == '-'
  {
    if n < 0 then "-" + NatToString(-n) else NatToString(n)
  }

  function ParseNat(s: string): nat
    decreases |s|
  {
    if |s| == 0 then 0 else 10 * ParseNat(s[..|s| - 1]) + DigitValue(s[|s| - 1])
  }

  /** Reading back Python's decimal rendering of an integer. */
  function ParseInt(s: string): int
  {
    if |s| > 0 && s[0] == '-' then -(ParseNat(s[1..]) as int) else ParseNat(s)
  }

  lemma {:induction false} ParseNatToString(n: nat)
    ensures ParseNat(NatToString(n)) == n
    decreases n
  {
    var s := NatToString(n);
    if n >= 10 {
      ParseNatToString(n / 10);
      assert s[..|s| - 1] == NatToString(n / 10);
      assert DigitValue(s[|s| - 1]) == n % 10;
    }
  }

  /** The decimal rendering of an integer reads back as that integer. */
  lemma ParseIntToString(n: int)
    ensures ParseInt(IntToString(n)) == n
  {
    if n < 0 {
      ParseNatToString(-n);
      assert ("-" + NatToString(-n))[1..] == NatToString(-n);
    } else {
      ParseNatToString(n);
    }
  }

  // ---------------------------------------------------------------------------------------

  // The override style sheet is the f-string
  //   "\n        <style>\n            body{ font-family: FF; font-size: PSpx; }"
  //   "\n            h1{ font-size: H1px; }" ... "\n            h3{ font-size: H3px; }"
  //   "\n            pre, code, .highlight{ font-size: PSpx; }\n        </style>\n        "
  // cut into its constant pieces, each number followed by the piece after it.

  const CssOpen := "\n        <style>\n            body{ font-family: "
  const AfterFont := "; font-size: "
  const RuleBreak := "px; }\n            "
  const CodeOpen := "pre, code, .highlight{ font-size: "
  const AfterBodySize := RuleBreak + "h1{ font-size: "
  const AfterH1Size := RuleBreak + "h2{ font-size: "
  const AfterH2Size := RuleBreak + "h3{ font-size: "
  const AfterH3Size := RuleBreak + CodeOpen
  const CssClose := "px; }\n        </style>\n        "

  /** The text of the style sheet from the code font size on. */
  function CodeTail(r: Resolved): string
  {
    IntToString(r.p) + CssClose
  }

  /** The text of the style sheet from the body font size on. */
  function SizesText(r: Resolved): string
  {
    IntToString(r.p) + (AfterBodySize +
    (IntToString(r.h1) + (AfterH1Size +
    (IntToString(r.h2) + (AfterH2Size +
    (IntToString(r.h3) + (AfterH3Size + CodeTail(r))))))))
  }

  /** The override style sheet with the resolved values spliced in. */
  function CssOverride(r: Resolved): string
  {
    CssOpen + (r.font + (AfterFont + SizesText(r)))
  }

  /** Texts that agree after a common prefix agree. */
  lemma DropCommon(c: string, t: string, u: string)
    requires c + t == c + u
    ensures t == u
  {
    assert t == (c + t)[|c|..];
  }

  /** Texts that agree before a common suffix agree. */
  lemma DropCommonBack(t: string, u: string, c: string)
    requires t + c == u + c
    ensures t == u
  {
    assert t == (t + c)[..|t|];
  }

  /** The last character of a text ending in `lit` is the last character of `lit`. */
  lemma LastOfAppend(a: string, lit: string)
    requires |lit| > 0
    ensures |a + lit| > 0 && (a + lit)[|a + lit| - 1] == lit[|lit| - 1]
  {
  }

  /**
   * When a text ends in a space followed by `x`, and the same text ends in `y`, a word with no
   * space, then `y` is no longer than `x`: otherwise `y` would hold the space.
   */
  lemma NoSpaceSuffixShorter(a: string, x: string, b: string, y: string)
    requires |a| > 0 && a[|a| - 1] == ' '
    requires forall i :: 0 <= i < |y| ==> y[i] != ' '
    requires a + x == b + y
    ensures |y| <= |x|
  {
    var s := a + x;
    assert s[|a| - 1] == ' ';
    assert forall j :: |b| <= j < |s| ==> s[j] == y[j - |b|] != ' ';
  }

  /**
   * A rendered number at the end of a text that otherwise ends in a space can be cut off
   * the back: a rendered number holds no space, so the last space marks where it starts.
   */
  lemma PeelNumberBack(a1: string, a2: string, n1: int, n2: int)
    requires |a1| > 0 && a1[|a1| - 1] == ' '
    requires |a2| > 0 && a2[|a2| - 1] == ' '
    requires a1 + IntToString(n1) == a2 + IntToString(n2)
    ensures a1 == a2 && n1 == n2
  {
    var x1, x2 := IntToString(n1), IntToString(n2);
    var s := a1 + x1;
    NoSpaceSuffixShorter(a1, x1, a2, x2);
    NoSpaceSuffixShorter(a2, x2, a1, x1);
    assert x1 == s[|a1|..] == x2;
    assert a1 == s[..|a1|] == a2;
    ParseIntToString(n1);
    ParseIntToString(n2);
  }

  /** The style sheet up to and including the literal before the body font size. */
  function UpToBodySize(r: Resolved): string
  {
    CssOpen + r.font + AfterFont
  }

  /** The style sheet up to and including the literal before the h1 size. */
  function UpToH1Size(r: Resolved): string
  {
    UpToBodySize(r) + IntToString(r.p) + AfterBodySize
  }

  /** The style sheet up to and including the literal before the h2 size. */
  function UpToH2Size(r: Resolved): string
  {
    UpToH1Size(r) + IntToString(r.h1) + AfterH1Size
  }

  /** The style sheet up to and including the literal before the h3 size. */
  function UpToH3Size(r: Resolved): string
  {
    UpToH2Size(r) + IntToString(r.h2) + AfterH2Size
  }

  /** The style sheet up to and including the literal before the code font size. */
  function UpToCodeSize(r: Resolved): string
  {
    UpToH3Size(r) + IntToString(r.h3) + AfterH3Size
  }

  /** The style sheet is its pieces in order, read from the front. */
  lemma CssFromFront(r: Resolved)
    ensures CssOverride(r) == UpToCodeSize(r) + IntToString(r.p) + CssClose
  {
    var p, h1, h2, h3 := IntToString(r.p), IntToString(r.h1), IntToString(r.h2), IntToString(r.h3);
    var t4 := AfterH3Size + CodeTail(r);
    var t3 := AfterH2Size + (h3 + t4);
    var t2 := AfterH1Size + (h2 + t3);
    var t1 := AfterBodySize + (h1 + t2);
    assert CssOverride(r) == CssOpen + (r.font + (AfterFont + (p + t1)));
    Associative(CssOpen, r.font, AfterFont + (p + t1));
    Associative(CssOpen + r.font, AfterFont, p + t1);
    Associative(UpToBodySize(r), p, t1);
    Associative(UpToBodySize(r) + p, AfterBodySize, h1 + t2);
    Associative(UpToH1Size(r), h1, t2);
    Associative(UpToH1Size(r) + h1, AfterH1Size, h2 + t3);
    Associative(UpToH2Size(r), h2, t3);
    Associative(UpToH2Size(r) + h2, AfterH2Size, h3 + t4);
    Associative(UpToH3Size(r), h3, t4);
    Associative(UpToH3Size(r) + h3, AfterH3Size, CodeTail(r));
    Associative(UpToCodeSize(r), p, CssClose);
  }

  /**
   * A number and the literal after it can be cut off the back of a text that, before the
   * number, ends in a space.
   */
  lemma PeelPiece(u1: string, u2: string, n1: int, n2: int, lit: string)
    requires |u1| > 0 && u1[|u1| - 1] == ' '
    requires |u2| > 0 && u2[|u2| - 1] == ' '
    requires u1 + IntToString(n1) + lit == u2 + IntToString(n2) + lit
    ensures u1 == u2 && n1 == n2
  {
    DropCommonBack(u1 + IntToString(n1), u2 + IntToString(n2), lit);
    PeelNumberBack(u1, u2, n1, n2);
  }

  /** The sheet up to the h1 size fixes the font and the body size. */
  lemma UpToH1SizeFixes(r1: Resolved, r2: Resolved)
    requires UpToH1Size(r1) == UpToH1Size(r2)
    ensures r1.font == r2.font && r1.p == r2.p
  {
    LastOfAppend(CssOpen + r1.font, AfterFont);
    LastOfAppend(CssOpen + r2.font, AfterFont);
    PeelPiece(UpToBodySize(r1), UpToBodySize(r2), r1.p, r2.p, AfterBodySize);
    DropCommonBack(CssOpen + r1.font, CssOpen + r2.font, AfterFont);
    DropCommon(CssOpen, r1.font, r2.font);
  }

  /** The sheet up to the h2 size fixes the sheet up to the h1 size, and the h1 size. */
  lemma UpToH2SizeFixes(r1: Resolved, r2: Resolved)
    requires UpToH2Size(r1) == UpToH2Size(r2)
    ensures UpToH1Size(r1) == UpToH1Size(r2) && r1.h1 == r2.h1
  {
    LastOfAppend(UpToBodySize(r1) + IntToString(r1.p), AfterBodySize);
    LastOfAppend(UpToBodySize(r2) + IntToString(r2.p), AfterBodySize);
    PeelPiece(UpToH1Size(r1), UpToH1Size(r2), r1.h1, r2.h1, AfterH1Size);
  }

  /** The sheet up to the h3 size fixes the sheet up to the h2 size, and the h2 size. */
  lemma UpToH3SizeFixes(r1: Resolved, r2: Resolved)
    requires UpToH3Size(r1) == UpToH3Size(r2)
    ensures UpToH2Size(r1) == UpToH2Size(r2) && r1.h2 == r2.h2
  {
    LastOfAppend(UpToH1Size(r1) + IntToString(r1.h1), AfterH1Size);
    LastOfAppend(UpToH1Size(r2) + IntToString(r2.h1), AfterH1Size);
    PeelPiece(UpToH2Size(r1), UpToH2Size(r2), r1.h2, r2.h2, AfterH2Size);
  }

  /** The sheet up to the code size fixes the sheet up to the h3 size, and the h3 size. */
  lemma UpToCodeSizeFixes(r1: Resolved, r2: Resolved)
    requires UpToCodeSize(r1) == UpToCodeSize(r2)
    ensures UpToH3Size(r1) == UpToH3Size(r2) && r1.h3 == r2.h3
  {
    LastOfAppend(UpToH2Size(r1) + IntToString(r1.h2), AfterH2Size);
    LastOfAppend(UpToH2Size(r2) + IntToString(r2.h2), AfterH2Size);
    PeelPiece(UpToH3Size(r1), UpToH3Size(r2), r1.h3, r2.h3, AfterH3Size);
  }

  /**
   * The override style sheet determines the resolved values it was built from: different
   * fonts or sizes always give different style sheets. The sheet is read from the back, since
   * each size follows a literal ending in a space and a rendered number holds none; what is
   * left between the opening literal and "; font-size: " is the font.
   */
  lemma CssOverrideInjective(r1: Resolved, r2: Resolved)
    requires CssOverride(r1) == CssOverride(r2)
    ensures r1 == r2
  {
    CssFromFront(r1);
    CssFromFront(r2);
    LastOfAppend(UpToH3Size(r1) + IntToString(r1.h3), AfterH3Size);
    LastOfAppend(UpToH3Size(r2) + IntToString(r2.h3), AfterH3Size);
    PeelPiece(UpToCodeSize(r1), UpToCodeSize(r2), r1.p, r2.p, CssClose);
    UpToCodeSizeFixes(r1, r2);
    UpToH3SizeFixes(r1, r2);
    UpToH2SizeFixes(r1, r2);
    UpToH1SizeFixes(r1, r2);
  }

  /** The style sheet opens with the body rule, whose font size is the resolved paragraph size. */
  lemma BodyTakesParagraphSize(r: Resolved)
    ensures StartsWith(CssOverride(r), CssOpen + (r.font + (AfterFont + (IntToString(r.p) + "px; }"))))
  {
    var p, sizes := IntToString(r.p), SizesText(r);
    var tail := AfterBodySize + (IntToString(r.h1) + (AfterH1Size + (IntToString(r.h2) + (AfterH2Size +
      (IntToString(r.h3) + (AfterH3Size + CodeTail(r)))))));
    assert AfterBodySize[..5] == "px; }";
    assert tail[..5] == "px; }";
    StartsWithPrepend(p, tail, "px; }");
    assert sizes == p + tail;
    StartsWithPrepend(AfterFont, sizes, p + "px; }");
    StartsWithPrepend(r.font, AfterFont + sizes, AfterFont + (p + "px; }"));
    StartsWithPrepend(CssOpen, r.font + (AfterFont + sizes), r.font + (AfterFont + (p + "px; }")));
  }

  /** The style sheet closes with the code rule, whose font size is the resolved paragraph size. */
  lemma CodeTakesParagraphSize(r: Resolved)
    ensures EndsWith(CssOverride(r), CodeOpen + (IntToString(r.p) + CssClose))
  {
    var code := CodeOpen + CodeTail(r);
    Associative(RuleBreak, CodeOpen, CodeTail(r));
    EndsWithAppend(RuleBreak, code);
    EndsWithPrepend(IntToString(r.h3), AfterH3Size + CodeTail(r), code);
    var rest := IntToString(r.h3) + (AfterH3Size + CodeTail(r));
    EndsWithPrepend(AfterH2Size, rest, code);
    EndsWithPrepend(IntToString(r.h2), AfterH2Size + rest, code);
    EndsWithPrepend(AfterH1Size, IntToString(r.h2) + (AfterH2Size + rest), code);
    var rest2 := AfterH1Size + (IntToString(r.h2) + (AfterH2Size + rest));
    EndsWithPrepend(IntToString(r.h1), rest2, code);
    EndsWithPrepend(AfterBodySize, IntToString(r.h1) + rest2, code);
    EndsWithPrepend(IntToString(r.p), AfterBodySize + (IntToString(r.h1) + rest2), code);
    assert SizesText(r) == IntToString(r.p) + (AfterBodySize + (IntToString(r.h1) + rest2));
    EndsWithPrepend(AfterFont, SizesText(r), code);
    EndsWithPrepend(r.font, AfterFont + SizesText(r), code);
    EndsWithPrepend(CssOpen, r.font + (AfterFont + SizesText(r)), code);
  }
}
