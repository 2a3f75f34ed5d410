/** Go's fmt.Sprintf (and so fmt.Errorf without %w) applied to a format
    string with NO arguments: every directive that would consume an argument
    renders as a "missing argument" marker. */
module GoFmt {
  import opened Decimal

  /** The flag characters fmt accepts after '%'. */
  predicate IsFlag(c: char) {
    c == '#' || c == '0' || c == '+' || c == '-' || c == ' '
  }

  /** Index just past the flags that start at i. */
  function SkipFlags(f: string, i: nat): (j: nat)
    requires i <= |f|
    ensures i <= j <= |f|
    ensures forall k :: i <= k < j ==> IsFlag(f[k])
    decreases |f| - i
  {
    if i < |f| && IsFlag(f[i]) then SkipFlags(f, i + 1) else i
  }

  /** fmt's parsenum: index just past a run of digits (a width or a
      precision); once the value read so far passes one million and another
      digit follows, the scan gives up and jumps to the end of the format. */
  function ParseNum(f: string, i: nat, num: nat): (j: nat)
    requires i <= |f|
    ensures i <= j <= |f|
    decreases |f| - i
  {
    if i < |f| && IsDigit(f[i]) then
      if num > 1000000 then |f| else ParseNum(f, i + 1, num * 10 + DigitValue(f[i]))
    else i
  }

  /** Index of the verb of the directive whose '%' sits just before i, past
      the flags, the width and a precision ('.' counts only when a character
      follows it); |f| when the format ends first. */
  function VerbIndex(f: string, i: nat): (v: nat)
    requires i <= |f|
    ensures i <= v <= |f|
  {
    var w := ParseNum(f, SkipFlags(f, i), 0);
    if w + 1 < |f| && f[w] == '.' then ParseNum(f, w + 1, 0) else w
  }

  /** fmt.Sprintf(f) with no arguments. Literal text is copied; "%" plus a
      verb '%' gives "%"; any other verb v gives "%!v(MISSING)"; a directive
      cut off by the end of the format gives "%!(NOVERB)" and ends the output. */
  function Render(f: string): (r: string)
    ensures r == [] <==> f == []
    ensures f != [] ==> r[0] == f[0]
    decreases |f|
  {
    if f == [] then []
    else if f[0] != '%' then [f[0]] + Render(f[1..])
    else
      var v := VerbIndex(f, 1);
      if v == |f| then "%!(NOVERB)"
      else if f[v] == '%' then "%" + Render(f[v + 1..])
      else "%!" + [f[v]] + "(MISSING)" + Render(f[v + 1..])
  }

  /** A message without '%' renders as itself. */
  lemma {:induction false} RenderLiteral(f: string)
    requires '%' !in f
    ensures Render(f) == f
    decreases |f|
  {
    if f != [] {
      assert f[0] != '%';
      assert '%' !in f[1..] by {
        forall k | 0 <= k < |f[1..]| ensures f[1..][k] != '%' { assert f[1..][k] == f[k + 1]; }
      }
      RenderLiteral(f[1..]);
      assert f == [f[0]] + f[1..];
    }
  }

  // The converse rests on a count: each directive raises the number of '!'
  // minus the number of '%' by one ("%%" loses a '%', every other directive
  // gains a '!'), and literal text keeps it.

  function CharWeight(c: char): int {
    if c == '!' then 1 else if c == '%' then -1 else 0
  }

  function Weight(s: string): int {
    if s == [] then 0 else CharWeight(s[0]) + Weight(s[1..])
  }

  lemma {:induction false} WeightConcat(a: string, b: string)
    ensures Weight(a + b) == Weight(a) + Weight(b)
  {
    if a != [] {
      var ab := a + b;
      assert ab[0] == a[0] && ab[1..] == a[1..] + b;
      WeightConcat(a[1..], b);
      assert Weight(ab) == CharWeight(ab[0]) + Weight(ab[1..]);
    } else {
      assert a + b == b;
    }
  }

  lemma {:induction false} WeightNeutral(s: string)
    requires forall k :: 0 <= k < |s| ==> s[k] != '!' && s[k] != '%'
    ensures Weight(s) == 0
  {
    if s != [] {
      WeightNeutral(s[1..]);
    }
  }

  /** No run of seven digits: fmt never reads a width or precision above
      one million, so it never jumps to the end of the format. */
  predicate ModestWidths(f: string) {
    forall i :: 0 <= i <= |f| - 7 ==> !DigitRun(f, i)
  }

  /** Seven digits start at i. */
  predicate DigitRun(f: string, i: nat)
    requires i + 7 <= |f|
  {
    AllDigits(f[i..i + 7])
  }

  /** Without a seven-digit run, parsenum stops at the first non-digit. */
  lemma {:induction false} ParseNumStops(f: string, i: nat, num: nat, c: nat)
    requires i <= |f| && c <= i && c < 7
    requires AllDigits(f[i - c..i]) && num < Pow10(c)
    requires ModestWidths(f)
    ensures AllDigits(f[i..ParseNum(f, i, num)])
    decreases |f| - i
  {
    if i < |f| && IsDigit(f[i]) {
      DigitsExtend(f, i - c, i);
      ghost var window := i - c + 7 <= |f| && DigitRun(f, i - c);
      if c == 6 {
        assert false;
      }
      Pow10Mono(c, 5);
      ParseNumStops(f, i + 1, num * 10 + DigitValue(f[i]), c + 1);
      var j := ParseNum(f, i, num);
      assert f[i..j] == [f[i]] + f[i + 1..j];
    }
  }

  /** A run of digits followed by one more digit. */
  lemma DigitsExtend(f: string, lo: nat, i: nat)
    requires lo <= i < |f| && AllDigits(f[lo..i]) && IsDigit(f[i])
    ensures AllDigits(f[lo..i + 1])
  {
    assert f[lo..i + 1] == f[lo..i] + [f[i]];
  }

  /** Between a '%' and its verb stand only flags, digits and '.'. */
  lemma VerbIndexPlain(f: string)
    requires |f| >= 1 && ModestWidths(f)
    ensures forall k :: 1 <= k < VerbIndex(f, 1) ==> f[k] != '!' && f[k] != '%'
  {
    var s := SkipFlags(f, 1);
    ParseNumStops(f, s, 0, 0);
    var w := ParseNum(f, s, 0);
    assert forall k :: s <= k < w ==> IsDigit(f[k]) by {
      forall k | s <= k < w ensures IsDigit(f[k]) { assert f[s..w][k - s] == f[k]; }
    }
    if w + 1 < |f| && f[w] == '.' {
      ParseNumStops(f, w + 1, 0, 0);
      var p := ParseNum(f, w + 1, 0);
      forall k | w + 1 <= k < p ensures IsDigit(f[k]) { assert f[w + 1..p][k - w - 1] == f[k]; }
    }
  }

  lemma ModestWidthsSuffix(f: string, k: nat)
    requires k <= |f| && ModestWidths(f)
    ensures ModestWidths(f[k..])
  {
    forall i | 0 <= i <= |f[k..]| - 7 ensures !DigitRun(f[k..], i) {
      assert f[k..][i..i + 7] == f[k + i..k + i + 7];
      assert !DigitRun(f, k + i);
    }
  }

  /** A literal first character keeps the count. */
  lemma LiteralStepWeight(f: string)
    requires |f| >= 1 && f[0] != '%'
    requires Weight(Render(f[1..])) >= Weight(f[1..]) + (if '%' in f[1..] then 1 else 0)
    ensures Weight(Render(f)) >= Weight(f) + (if '%' in f then 1 else 0)
  {
    WeightConcat([f[0]], Render(f[1..]));
    assert f == [f[0]] + f[1..];
    WeightConcat([f[0]], f[1..]);
    assert ('%' in f) == ('%' in f[1..]);
  }

  /** The weight of a directive "%", mid, verb followed by the rest. */
  lemma DirectiveWeight(f: string, v: nat)
    requires 1 <= v < |f| && f[0] == '%'
    requires forall k :: 1 <= k < v ==> f[k] != '!' && f[k] != '%'
    ensures Weight(f) == -1 + CharWeight(f[v]) + Weight(f[v + 1..])
  {
    var mid, rest := f[1..v], f[v + 1..];
    WeightNeutral(mid);
    var tail := [f[v]] + rest;
    assert f == [f[0]] + (mid + tail);
    WeightConcat([f[0]], mid + tail);
    WeightConcat(mid, tail);
    WeightConcat([f[v]], rest);
    WeightUnit(f[0]);
    WeightUnit(f[v]);
  }

  lemma WeightUnit(c: char)
    ensures Weight([c]) == CharWeight(c)
  {
    assert [c][1..] == [];
  }

  /** A directive cut off by the end of the format raises the count. */
  lemma NoVerbWeight(f: string)
    requires |f| >= 1 && f[0] == '%' && VerbIndex(f, 1) == |f|
    requires forall k :: 1 <= k < |f| ==> f[k] != '!' && f[k] != '%'
    ensures Weight(Render(f)) >= Weight(f) + 1
  {
    var mid := f[1..];
    WeightNeutral(mid);
    assert f == [f[0]] + mid;
    WeightConcat([f[0]], mid);
    NoVerbMarkerWeight();
  }

  /** The fixed text of the markers adds nothing to the count. */
  lemma NoVerbMarkerWeight()
    ensures Weight("%!(NOVERB)") == 0
  {
  }

  lemma MissingMarkerWeight()
    ensures Weight("(MISSING)") == 0 && Weight("%!") == 0
  {
  }

  /** What a complete directive renders to weighs as much as its verb. */
  lemma HeadWeight(c: char)
    ensures Weight(if c == '%' then "%" else "%!" + [c] + "(MISSING)") == CharWeight(c)
  {
    if c != '%' {
      MissingMarkerWeight();
      WeightConcat("%!" + [c], "(MISSING)");
      WeightConcat("%!", [c]);
    }
  }

  /** How Render continues after a complete directive. */
  lemma RenderAfterVerb(f: string)
    requires |f| >= 1 && f[0] == '%' && VerbIndex(f, 1) < |f|
    ensures var v := VerbIndex(f, 1);
      Render(f) == (if f[v] == '%' then "%" else "%!" + [f[v]] + "(MISSING)") + Render(f[v + 1..])
  {
  }

  /** A complete directive raises the count by one more than its rest does. */
  lemma VerbWeight(f: string, v: nat)
    requires |f| >= 1 && f[0] == '%' && v == VerbIndex(f, 1) && v < |f|
    requires forall k :: 1 <= k < v ==> f[k] != '!' && f[k] != '%'
    requires Weight(Render(f[v + 1..])) >= Weight(f[v + 1..])
    ensures Weight(Render(f)) >= Weight(f) + 1
  {
    var head := if f[v] == '%' then "%" else "%!" + [f[v]] + "(MISSING)";
    DirectiveWeight(f, v);
    RenderAfterVerb(f);
    HeadWeight(f[v]);
    WeightConcat(head, Render(f[v + 1..]));
  }

  /** Rendering never lowers the count, and raises it when f holds a '%'. */
  lemma {:induction false} RenderWeight(f: string)
    requires ModestWidths(f)
    ensures Weight(Render(f)) >= Weight(f) + (if '%' in f then 1 else 0)
    decreases |f|
  {
    if f == [] {
    } else if f[0] != '%' {
      ModestWidthsSuffix(f, 1);
      RenderWeight(f[1..]);
      LiteralStepWeight(f);
    } else {
      var v := VerbIndex(f, 1);
      VerbIndexPlain(f);
      if v == |f| {
        NoVerbWeight(f);
      } else {
        ModestWidthsSuffix(f, v + 1);
        RenderWeight(f[v + 1..]);
        VerbWeight(f, v);
      }
    }
  }

  /** A message holding a '%' never renders as itself (for widths below one
      million), so the text of fmt.Errorf(m) equals m exactly when m has no '%'. */
  lemma RenderIdentityIff(f: string)
    requires ModestWidths(f)
    ensures Render(f) == f <==> '%' !in f
  {
    if '%' in f {
      RenderWeight(f);
    } else {
      RenderLiteral(f);
    }
  }

  /** A trailing '%' renders as a no-verb marker. */
  lemma RenderTrailingPercent()
    ensures Render("5%") == "5%!(NOVERB)"
  {
  }

  /** "%%" renders as a single '%'. */
  lemma RenderDoublePercent()
    ensures Render("%%") == "%"
  {
  }

  /** A verb without an argument renders as a missing-argument marker. */
  lemma RenderMissing()
    ensures Render("%d") == "%!d(MISSING)"
  {
  }
}
