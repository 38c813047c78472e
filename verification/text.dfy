/**
 * Python `str` primitives over `string` (a `seq<char>`). The converter itself calls the
 * `\s` class, `strip()`, `startswith`, `sep in s`, `split(sep)` and `replace(' ', '_')`;
 * `endswith`, `sep.join(parts)`, `count(sep)` and `replace(sep, "")` are here only to state
 * what those calls compute.
 */
module Text {
  import opened Seqs

  /** Python's whitespace (`str.isspace`, and the `\s` class of `re` on str patterns). */
  predicate IsSpace(c: char)
  {
    || ('\t' <= c && c <= '\r')
    || ('\U{1C}' <= c && c <= ' ')
    || c == '\U{85}'
    || c == '\U{A0}'
    || c == '\U{1680}'
    || ('\U{2000}' <= c && c <= '\U{200A}')
    || c == '\U{2028}'
    || c == '\U{2029}'
    || c == '\U{202F}'
    || c == '\U{205F}'
    || c == '\U{3000}'
  }

  /** An ASCII decimal digit. */
  predicate IsDigit(c: char)
  {
    '0' <= c && c <= '9'
  }

  /** The length of the longest prefix of `s` whose characters all satisfy `p`. */
  function Span(s: string, p: char -> bool): (k: nat)
    ensures k <= |s|
    ensures forall i :: 0 <= i < k ==> p(s[i])
    ensures k < |s| ==> !p(s[k])
    decreases |s|
  {
    if |s| > 0 && p(s[0]) then 1 + Span(s[1..], p) else 0
  }

  /** The length of the longest suffix of `s` whose characters all satisfy `p`. */
  function RSpan(s: string, p: char -> bool): (k: nat)
    ensures k <= |s|
    ensures forall i :: |s| - k <= i < |s| ==> p(s[i])
    ensures k < |s| ==> !p(s[|s| - 1 - k])
    decreases |s|
  {
    if |s| > 0 && p(s[|s| - 1]) then 1 + RSpan(s[..|s| - 1], p) else 0
  }

  /** The number of leading whitespace characters: what `^\s*` matches. */
  function Indent(s: string): nat
  {
    Span(s, IsSpace)
  }

  /** `s.lstrip()`. */
  function TrimLeft(s: string): string
  {
    s[Indent(s)..]
  }

  /**
   * `s.strip()`: the unique slice of `s` that drops all leading and all trailing
   * whitespace and keeps everything in between.
   */
  function Strip(s: string): (r: string)
    ensures |r| == 0 || (!IsSpace(r[0]) && !IsSpace(r[|r| - 1]))
    ensures Indent(s) + |r| <= |s| && r == s[Indent(s)..Indent(s) + |r|]
    ensures forall i :: 0 <= i < Indent(s) ==> IsSpace(s[i])
    ensures forall i :: Indent(s) + |r| <= i < |s| ==> IsSpace(s[i])
  {
    var t := TrimLeft(s);
    t[..|t| - RSpan(t, IsSpace)]
  }

  predicate StartsWith(s: string, prefix: string)
  {
    |prefix| <= |s| && s[..|prefix|] == prefix
  }

  lemma StartsWithPrepend(a: string, b: string, c: string)
    requires StartsWith(b, c)
    ensures StartsWith(a + b, a + c)
  {
    assert (a + b)[..|a| + |c|] == a + b[..|c|];
  }

  predicate EndsWith(s: string, suffix: string)
  {
    |suffix| <= |s| && s[|s| - |suffix|..] == suffix
  }

  lemma EndsWithAppend(a: string, b: string)
    ensures EndsWith(a + b, b)
  {
    assert (a + b)[|a|..] == b;
  }

  lemma EndsWithPrepend(a: string, b: string, c: string)
    requires EndsWith(b, c)
    ensures EndsWith(a + b, c)
  {
    assert (a + b)[|a + b| - |c|..] == b[|b| - |c|..];
  }

  /** `sep in s`: some occurrence of `sep` as a contiguous piece of `s`. */
  predicate Contains(s: string, sep: string)
    requires |sep| > 0
    decreases |s|
  {
    |sep| <= |s| && (s[..|sep|] == sep || Contains(s[1..], sep))
  }

  /** `s.split(sep)`: cut at the leftmost non-overlapping occurrences of `sep`. */
  function Split(s: string, sep: string): (parts: seq<string>)
    requires |sep| > 0
    ensures |parts| >= 1
    decreases |s|
  {
    if |s| < |sep| then [s]
    else if s[..|sep|] == sep then [""] + Split(s[|sep|..], sep)
    else
      var rest := Split(s[1..], sep);
      [[s[0]] + rest[0]] + rest[1..]
  }

  /** `sep.join(parts)`. */
  function JoinWith(parts: seq<string>, sep: string): string
    decreases |parts|
  {
    if |parts| == 0 then ""
    else if |parts| == 1 then parts[0]
    else parts[0] + sep + JoinWith(parts[1..], sep)
  }

  /** `s.count(sep)`: the number of leftmost non-overlapping occurrences of `sep`. */
  function Count(s: string, sep: string): nat
    requires |sep| > 0
    decreases |s|
  {
    if |s| < |sep| then 0
    else if s[..|sep|] == sep then 1 + Count(s[|sep|..], sep)
    else Count(s[1..], sep)
  }

  /** `s.replace(sep, "")`: every leftmost non-overlapping occurrence of `sep` deleted. */
  function RemoveAll(s: string, sep: string): string
    requires |sep| > 0
    decreases |s|
  {
    if |s| < |sep| then s
    else if s[..|sep|] == sep then RemoveAll(s[|sep|..], sep)
    else [s[0]] + RemoveAll(s[1..], sep)
  }

  /** `s.replace(from, to)` for single characters: a pointwise substitution. */
  function ReplaceChar(s: string, from: char, to: char): (r: string)
    ensures |r| == |s|
    ensures forall i :: 0 <= i < |s| ==> r[i] == (if s[i] == from then to else s[i])
    decreases |s|
  {
    if |s| == 0 then ""
    else [if s[0] == from then to else s[0]] + ReplaceChar(s[1..], from, to)
  }

  lemma JoinWithCons(a: string, rest: seq<string>, sep: string)
    requires |rest| >= 1
    ensures JoinWith([a] + rest, sep) == a + sep + JoinWith(rest, sep)
  {
    assert ([a] + rest)[1..] == rest;
  }

  lemma JoinWithGrowHead(c: char, rest: seq<string>, sep: string)
    requires |rest| >= 1
    ensures JoinWith([[c] + rest[0]] + rest[1..], sep) == [c] + JoinWith(rest, sep)
  {
    if |rest| > 1 {
      assert ([[c] + rest[0]] + rest[1..])[1..] == rest[1..];
    }
  }

  /** Joining the parts of a split with the same separator gives the original string back. */
  lemma {:induction false} JoinSplit(s: string, sep: string)
    requires |sep| > 0
    ensures JoinWith(Split(s, sep), sep) == s
    decreases |s|
  {
    if |s| < |sep| {
    } else if s[..|sep|] == sep {
      var t := s[|sep|..];
      var parts := Split(t, sep);
      assert Split(s, sep) == [""] + parts;
      JoinSplit(t, sep);
      JoinWithCons("", parts, sep);
      assert "" + sep == sep;
      assert s == sep + t;
    } else {
      var parts := Split(s[1..], sep);
      assert Split(s, sep) == [[s[0]] + parts[0]] + parts[1..];
      JoinSplit(s[1..], sep);
      JoinWithGrowHead(s[0], parts, sep);
      assert s == [s[0]] + s[1..];
    }
  }

  /** A split yields one more part than there are occurrences of the separator. */
  lemma {:induction false} SplitCount(s: string, sep: string)
    requires |sep| > 0
    ensures |Split(s, sep)| == Count(s, sep) + 1
    decreases |s|
  {
    if |s| < |sep| {
    } else if s[..|sep|] == sep {
      SplitCount(s[|sep|..], sep);
    } else {
      SplitCount(s[1..], sep);
    }
  }

  /** Concatenating the parts of a split is the string with every separator deleted. */
  lemma {:induction false} ConcatSplit(s: string, sep: string)
    requires |sep| > 0
    ensures JoinWith(Split(s, sep), "") == RemoveAll(s, sep)
    decreases |s|
  {
    if |s| < |sep| {
    } else if s[..|sep|] == sep {
      ConcatSplit(s[|sep|..], sep);
      JoinWithCons("", Split(s[|sep|..], sep), "");
    } else {
      ConcatSplit(s[1..], sep);
      JoinWithGrowHead(s[0], Split(s[1..], sep), "");
    }
  }

  /** A string without the separator splits into itself alone. */
  lemma {:induction false} SplitWithoutSeparator(s: string, sep: string)
    requires |sep| > 0
    ensures Split(s, sep) == [s] <==> !Contains(s, sep)
    decreases |s|
  {
    if |s| < |sep| {
    } else if s[..|sep|] == sep {
      var rest := Split(s[|sep|..], sep);
      assert Split(s, sep)[0] == "" != s;
    } else {
      SplitWithoutSeparator(s[1..], sep);
      JoinSplit(s[1..], sep);
      var rest := Split(s[1..], sep);
      assert s == [s[0]] + s[1..];
      if |rest| == 1 {
        assert Split(s, sep) == [[s[0]] + s[1..]];
      } else {
        assert |Split(s, sep)| > 1;
      }
    }
  }

  /**
   * Parts cut at the leftmost occurrences of `sep`: no part but the last holds an
   * occurrence of `sep`, even together with the first |sep| - 1 characters of the separator
   * that follows it, and the last part holds none.
   */
  predicate Leftmost(parts: seq<string>, sep: string)
    requires |sep| > 0
  {
    && |parts| >= 1
    && (forall i :: 0 <= i < |parts| - 1 ==> !Contains(parts[i] + sep[..|sep| - 1], sep))
    && !Contains(parts[|parts| - 1], sep)
  }

  /** `split` cuts at the leftmost occurrences. With `JoinSplit`, this fixes the parts uniquely. */
  lemma {:induction false} SplitLeftmost(s: string, sep: string)
    requires |sep| > 0
    ensures Leftmost(Split(s, sep), sep)
    decreases |s|
  {
    if |s| < |sep| {
      assert Split(s, sep) == [s];
    } else if s[..|sep|] == sep {
      SplitLeftmost(s[|sep|..], sep);
      LeftmostAfterSeparator(Split(s[|sep|..], sep), sep);
    } else {
      SplitLeftmost(s[1..], sep);
      JoinSplit(s[1..], sep);
      LeftmostGrowHead(s, Split(s[1..], sep), sep);
    }
  }

  /** Text before the first separator, then the separator: `split` cuts right there. */
  lemma {:induction false} SplitAtFirst(a: string, b: string, sep: string)
    requires |sep| > 0 && !Contains(a + sep[..|sep| - 1], sep)
    ensures Split(a + sep + b, sep) == [a] + Split(b, sep)
    decreases |a|
  {
    var s := a + sep + b;
    var open := sep[..|sep| - 1];
    if |a| == 0 {
      assert s == sep + b;
      assert s[..|sep|] == sep && s[|sep|..] == b;
    } else {
      assert (a + open)[..|sep|] == s[..|sep|];
      assert (a + open)[1..] == a[1..] + open;
      SplitAtFirst(a[1..], b, sep);
      assert s[1..] == a[1..] + sep + b;
      assert [s[0]] + a[1..] == a;
    }
  }

  /** Leftmost parts that join to `s` are the parts of `s.split(sep)`. */
  lemma {:induction false} SplitUnique(parts: seq<string>, sep: string)
    requires |sep| > 0 && Leftmost(parts, sep)
    ensures parts == Split(JoinWith(parts, sep), sep)
    decreases |parts|
  {
    if |parts| == 1 {
      SplitWithoutSeparator(parts[0], sep);
    } else {
      var rest := parts[1..];
      assert Leftmost(rest, sep) by {
        forall i | 0 <= i < |rest| - 1
          ensures !Contains(rest[i] + sep[..|sep| - 1], sep)
        {
          assert rest[i] == parts[i + 1];
        }
      }
      SplitUnique(rest, sep);
      JoinWithCons(parts[0], rest, sep);
      assert [parts[0]] + rest == parts;
      SplitAtFirst(parts[0], JoinWith(rest, sep), sep);
    }
  }

  /** An empty part in front of leftmost parts: what a leading separator contributes. */
  lemma LeftmostAfterSeparator(rest: seq<string>, sep: string)
    requires |sep| > 0 && Leftmost(rest, sep)
    ensures Leftmost([""] + rest, sep)
  {
    var parts := [""] + rest;
    var open := sep[..|sep| - 1];
    assert !Contains("" + open, sep);
    forall i | 1 <= i < |parts| - 1
      ensures !Contains(parts[i] + open, sep)
    {
      assert parts[i] == rest[i - 1];
    }
    assert parts[|parts| - 1] == rest[|rest| - 1];
  }

  /** A character that does not start a separator, put in front of the first of leftmost parts. */
  lemma LeftmostGrowHead(s: string, rest: seq<string>, sep: string)
    requires |sep| > 0 && |s| >= |sep| && s[..|sep|] != sep
    requires Leftmost(rest, sep) && JoinWith(rest, sep) == s[1..]
    ensures Leftmost([[s[0]] + rest[0]] + rest[1..], sep)
  {
    if |rest| == 1 {
      HeadLeftmost(s, rest[0], "", sep);
    } else {
      GrownHeadFree(s, rest, sep);
    }
    LeftmostReplaceHead([s[0]] + rest[0], rest, sep);
  }

  /** The first of several leftmost parts, grown by a character that does not start `sep`, stays free of it. */
  lemma GrownHeadFree(s: string, rest: seq<string>, sep: string)
    requires |sep| > 0 && |s| >= |sep| && s[..|sep|] != sep
    requires Leftmost(rest, sep) && |rest| > 1 && JoinWith(rest, sep) == s[1..]
    ensures !Contains([s[0]] + rest[0] + sep[..|sep| - 1], sep)
  {
    var open := sep[..|sep| - 1];
    JoinWithCons(rest[0], rest[1..], sep);
    assert [rest[0]] + rest[1..] == rest;
    var more := sep[|sep| - 1..] + JoinWith(rest[1..], sep);
    assert sep == open + sep[|sep| - 1..];
    Associative(rest[0], open, sep[|sep| - 1..]);
    Associative(rest[0] + open, sep[|sep| - 1..], JoinWith(rest[1..], sep));
    assert s[1..] == (rest[0] + open) + more;
    HeadLeftmost(s, rest[0] + open, more, sep);
    Associative([s[0]], rest[0], open);
  }

  /** Leftmost parts stay leftmost when their first part is replaced by one just as free of `sep`. */
  lemma LeftmostReplaceHead(h: string, rest: seq<string>, sep: string)
    requires |sep| > 0 && Leftmost(rest, sep)
    requires |rest| == 1 ==> !Contains(h, sep)
    requires |rest| > 1 ==> !Contains(h + sep[..|sep| - 1], sep)
    ensures Leftmost([h] + rest[1..], sep)
  {
    if |rest| == 1 {
      assert [h] + rest[1..] == [h];
    } else {
      LeftmostReplaceLongHead(h, rest, sep);
    }
  }

  /** `LeftmostReplaceHead` when the head is not the last part. */
  lemma LeftmostReplaceLongHead(h: string, rest: seq<string>, sep: string)
    requires |sep| > 0 && Leftmost(rest, sep) && |rest| > 1
    requires !Contains(h + sep[..|sep| - 1], sep)
    ensures Leftmost([h] + rest[1..], sep)
  {
    var parts := [h] + rest[1..];
    var open := sep[..|sep| - 1];
    assert parts[0] == h;
    assert forall i :: 1 <= i < |parts| ==> parts[i] == rest[i];
    assert parts[|parts| - 1] == rest[|rest| - 1];
  }

  /**
   * A string that does not start with `sep`, whose tail begins with a piece free of `sep`:
   * the first character and that piece hold no occurrence either.
   */
  lemma HeadLeftmost(s: string, piece: string, more: string, sep: string)
    requires |sep| > 0 && |s| >= |sep| && s[..|sep|] != sep
    requires s[1..] == piece + more && !Contains(piece, sep)
    requires |sep| <= 1 + |piece| || more == ""
    ensures !Contains([s[0]] + piece, sep)
  {
    var x := [s[0]] + piece;
    assert x[1..] == piece;
    if |sep| <= |x| {
      assert x[..|sep|] == s[..|sep|];
    }
  }

  /** A prefix of characters satisfying `p`, then one that does not: the span ends there. */
  lemma {:induction false} SpanAppend(pre: string, rest: string, p: char -> bool)
    requires forall i :: 0 <= i < |pre| ==> p(pre[i])
    requires |rest| > 0 && !p(rest[0])
    ensures Span(pre + rest, p) == |pre|
    decreases |pre|
  {
    if |pre| > 0 {
      assert (pre + rest)[1..] == pre[1..] + rest;
      SpanAppend(pre[1..], rest, p);
    } else {
      assert pre + rest == rest;
    }
  }
}
