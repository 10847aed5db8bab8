/** Go's `fmt.Sprintf(format)` with no operands, which is what
    `errors.Wrapf(err, format)` writes when it is handed a plain string as
    its format: text is copied, "%%" prints one percent sign, and every
    other directive reports its missing operand. */
module Format {

  /** The flag characters a directive may carry after its '%'. */
  predicate IsFlag(c: char) {
    c in {'#', '0', '+', '-', ' '}
  }

  predicate IsDigit(c: char) {
    '0' <= c <= '9'
  }

  /** The index after the flags that start at `i`. */
  function SkipFlags(s: string, i: nat): (j: nat)
    requires i <= |s|
    ensures i <= j <= |s|
    ensures forall k :: i <= k < j ==> IsFlag(s[k])
    ensures j < |s| ==> !IsFlag(s[j])
    decreases |s| - i
  {
    if i < |s| && IsFlag(s[i]) then SkipFlags(s, i + 1) else i
  }

  /** The index after the decimal digits that start at `i`. */
  function SkipDigits(s: string, i: nat): (j: nat)
    requires i <= |s|
    ensures i <= j <= |s|
    ensures forall k :: i <= k < j ==> IsDigit(s[k])
    ensures j < |s| ==> !IsDigit(s[j])
    decreases |s| - i
  {
    if i < |s| && IsDigit(s[i]) then SkipDigits(s, i + 1) else i
  }

  /** Where the verb of a directive sits, given the index just after its
      '%': past the flags, the width digits and, when a '.' is not the last
      character, the precision digits. */
  function VerbAt(s: string, i: nat): (j: nat)
    requires i <= |s|
    ensures i <= j <= |s|
  {
    var w := SkipDigits(s, SkipFlags(s, i));
    if w + 1 < |s| && s[w] == '.' then SkipDigits(s, w + 1) else w
  }

  /** What a verb prints when its operand is missing: "%!d(MISSING)" for
      'd'. */
  function MissingReport(c: char): string {
    "%!" + [c] + "(MISSING)"
  }

  /** `fmt.Sprintf(s)`: a directive without a verb ends the output with
      "%!(NOVERB)". */
  function SprintfNoArgs(s: string): (r: string)
    ensures |s| > 0 && s[0] != '%' ==> |r| > 0 && r[0] == s[0]
    decreases |s|
  {
    if |s| == 0 then ""
    else if s[0] != '%' then [s[0]] + SprintfNoArgs(s[1..])
    else
      var j := VerbAt(s, 1);
      if j == |s| then "%!(NOVERB)"
      else if s[j] == '%' then "%" + SprintfNoArgs(s[j + 1..])
      else MissingReport(s[j]) + SprintfNoArgs(s[j + 1..])
  }

  /** A format without a '%' prints as itself. */
  lemma {:induction false} PlainFormat(s: string)
    requires '%' !in s
    ensures SprintfNoArgs(s) == s
    decreases |s|
  {
    if |s| > 0 {
      assert '%' !in s[1..];
      PlainFormat(s[1..]);
      assert [s[0]] + s[1..] == s;
    }
  }

  /** The text with every '%' doubled: the format that prints `s`. */
  function EscapePercent(s: string): (r: string)
    ensures |r| >= |s|
  {
    if |s| == 0 then ""
    else if s[0] == '%' then "%%" + EscapePercent(s[1..])
    else [s[0]] + EscapePercent(s[1..])
  }

  /** Escaping and printing are inverse: any text, escaped, prints as
      itself. */
  lemma {:induction false} EscapeRoundTrip(s: string)
    ensures SprintfNoArgs(EscapePercent(s)) == s
    decreases |s|
  {
    if |s| > 0 {
      EscapeRoundTrip(s[1..]);
      var t := EscapePercent(s);
      if s[0] == '%' {
        assert t == "%%" + EscapePercent(s[1..]);
        assert SkipFlags(t, 1) == 1 && SkipDigits(t, 1) == 1;
        assert VerbAt(t, 1) == 1;
        assert t[2..] == EscapePercent(s[1..]);
      } else {
        assert t[1..] == EscapePercent(s[1..]);
      }
      assert [s[0]] + s[1..] == s;
    }
  }

  /** Text before the first '%' is copied as it stands. */
  lemma {:induction false} PlainPrefix(pre: string, rest: string)
    requires '%' !in pre
    ensures SprintfNoArgs(pre + rest) == pre + SprintfNoArgs(rest)
    decreases |pre|
  {
    if |pre| > 0 {
      var s := pre + rest;
      assert s[0] == pre[0] && pre[0] != '%';
      assert s[1..] == pre[1..] + rest;
      assert '%' !in pre[1..];
      PlainPrefix(pre[1..], rest);
      assert SprintfNoArgs(s) == [pre[0]] + (pre[1..] + SprintfNoArgs(rest));
      assert [pre[0]] + (pre[1..] + SprintfNoArgs(rest)) == ([pre[0]] + pre[1..]) + SprintfNoArgs(rest);
      assert [pre[0]] + pre[1..] == pre;
    } else {
      assert pre + rest == rest;
    }
  }

  /** A directive of a bare verb, with no flags, width or precision. */
  lemma VerbStep(t: string)
    requires |t| >= 2 && t[0] == '%' && !IsFlag(t[1]) && !IsDigit(t[1]) && t[1] != '%' && t[1] != '.'
    ensures SprintfNoArgs(t) == MissingReport(t[1]) + SprintfNoArgs(t[2..])
  {
    assert SkipFlags(t, 1) == 1;
    assert SkipDigits(t, 1) == 1;
  }

  /** A verb with no operand is reported in place and the text around it is
      kept: with `pre` = "x", `c` = 'd' and `post` = ".Svc", "x%d.Svc"
      prints as "x%!d(MISSING).Svc". */
  lemma MissingOperand(pre: string, c: char, post: string)
    requires '%' !in pre && '%' !in post
    requires !IsFlag(c) && !IsDigit(c) && c != '%' && c != '.'
    ensures SprintfNoArgs(pre + "%" + [c] + post) == pre + MissingReport(c) + post
  {
    var t := "%" + [c] + post;
    assert pre + "%" + [c] + post == pre + t;
    assert SprintfNoArgs(t) == MissingReport(c) + post by {
      VerbStep(t);
      assert t[2..] == post;
      PlainFormat(post);
    }
    assert SprintfNoArgs(pre + t) == pre + SprintfNoArgs(t) by {
      PlainPrefix(pre, t);
    }
    assert pre + (MissingReport(c) + post) == pre + MissingReport(c) + post;
  }
}
