/**
  The numeric reading of a mark cell: `markVal.match(/([\d.]+)/)` followed by
  `parseFloat` of the captured run.  The value is kept exactly, as a decimal
  `units / 10^scale`, instead of as an IEEE-754 double.
 */
module MarkParse {
  import opened Wrappers

  /** A match of `\d` in a regular expression: ASCII 0-9 only. */
  predicate IsDigit(c: char)
  {
    '0' <= c <= '9'
  }

  predicate IsNonZeroDigit(c: char)
  {
    '1' <= c <= '9'
  }

  /** A member of the character class `[\d.]`. */
  predicate IsRunChar(c: char)
  {
    IsDigit(c) || c == '.'
  }

  /** Index of the first character of the class in `s`, or `|s|` if there is none. */
  function RunStart(s: string): (i: nat)
    ensures i <= |s|
    ensures i < |s| ==> IsRunChar(s[i])
    ensures forall k :: 0 <= k < i ==> !IsRunChar(s[k])
  {
    if s == [] then 0 else if IsRunChar(s[0]) then 0 else 1 + RunStart(s[1..])
  }

  /** Length of the longest prefix of `s` made of class characters. */
  function RunLength(s: string): (n: nat)
    ensures n <= |s|
    ensures forall k :: 0 <= k < n ==> IsRunChar(s[k])
    ensures n == |s| || !IsRunChar(s[n])
  {
    if s != [] && IsRunChar(s[0]) then 1 + RunLength(s[1..]) else 0
  }

  /**
    The capture of `/([\d.]+)/` on `s`: None when `s` holds neither a digit
    nor a dot, otherwise a non-empty run of digits and dots.
   */
  function FirstRun(s: string): (m: Option<string>)
    ensures m.None? <==> forall k :: 0 <= k < |s| ==> !IsRunChar(s[k])
    ensures m.Some? ==> m.value != [] && forall k :: 0 <= k < |m.value| ==> IsRunChar(m.value[k])
  {
    var i := RunStart(s);
    if i == |s| then None
    else
      var n := RunLength(s[i..]);
      assert s[i..][0] == s[i];
      Some(s[i..i + n])
  }

  /** The capture is the leftmost run, and it is maximal: the regular expression's match is leftmost and greedy. */
  lemma FirstRunIsLeftmostMaximal(s: string)
    requires FirstRun(s).Some?
    ensures exists i, j :: 0 <= i < j <= |s| && FirstRun(s).value == s[i..j]
              && (forall k :: 0 <= k < i ==> !IsRunChar(s[k]))
              && (forall k :: i <= k < j ==> IsRunChar(s[k]))
              && (j == |s| || !IsRunChar(s[j]))
  {
  }

  /** Length of the longest prefix of `s` made of digits. */
  function DigitCount(s: string): (n: nat)
    ensures n <= |s|
    ensures forall k :: 0 <= k < n ==> IsDigit(s[k])
    ensures n == |s| || !IsDigit(s[n])
  {
    if s != [] && IsDigit(s[0]) then 1 + DigitCount(s[1..]) else 0
  }

  /** `p` has the shape `digits* ('.' digits*)?`: digits and at most one dot. */
  predicate DecimalForm(p: string)
  {
    && (forall k :: 0 <= k < |p| ==> IsRunChar(p[k]))
    && (forall k, l :: 0 <= k < l < |p| && p[k] == '.' ==> p[l] != '.')
  }

  /**
    Length of the prefix `whole ('.' frac)?` of `s`: its leading digits, then
    a dot and the digits after it if a dot follows them.
   */
  function PrefixLength(s: string): (n: nat)
    ensures n <= |s|
  {
    var w := DigitCount(s);
    if w < |s| && s[w] == '.' then w + 1 + DigitCount(s[w + 1..]) else w
  }

  /**
    The prefix `PrefixLength` measures is the longest prefix of decimal form;
    `parseFloat` reads that prefix when it holds a digit.
   */
  lemma PrefixLengthIsLongestDecimal(s: string)
    ensures DecimalForm(s[..PrefixLength(s)])
    ensures PrefixLength(s) == |s| || !DecimalForm(s[..PrefixLength(s) + 1])
  {
    var w := DigitCount(s);
    if w < |s| && s[w] == '.' {
      var d := DigitCount(s[w + 1..]);
      assert forall k :: w + 1 <= k < w + 1 + d ==> s[k] == s[w + 1..][k - w - 1];
      assert w + 1 + d < |s| ==> s[w + 1 + d] == s[w + 1..][d];
      assert w + 1 + d < |s| ==> s[..w + 2 + d][w] == '.';
    } else {
      assert w < |s| ==> s[..w + 1][w] == s[w];
    }
  }

  function Pow10(n: nat): (p: nat)
    ensures p >= 1
  {
    if n == 0 then 1 else 10 * Pow10(n - 1)
  }

  function DigitValue(c: char): (d: nat)
    requires IsDigit(c)
    ensures d <= 9 && (d == 0 <==> c == '0')
  {
    c as int - '0' as int
  }

  /** Some character of `p` is a non-zero digit (looked for from the back, as `DigitsValue` reads). */
  predicate HasNonZeroDigit(p: string)
  {
    p != [] && (HasNonZeroDigit(p[..|p| - 1]) || IsNonZeroDigit(p[|p| - 1]))
  }

  /** `HasNonZeroDigit` holds exactly when some position of `p` holds a non-zero digit. */
  lemma {:induction false} HasNonZeroDigitIff(p: string)
    ensures HasNonZeroDigit(p) <==> exists k :: 0 <= k < |p| && IsNonZeroDigit(p[k])
  {
    if p != [] {
      var init := p[..|p| - 1];
      HasNonZeroDigitIff(init);
      if exists k :: 0 <= k < |init| && IsNonZeroDigit(init[k]) {
        var k :| 0 <= k < |init| && IsNonZeroDigit(init[k]);
        assert p[k] == init[k];
      }
      if exists k :: 0 <= k < |p| && IsNonZeroDigit(p[k]) {
        var k :| 0 <= k < |p| && IsNonZeroDigit(p[k]);
        if k < |init| {
          assert init[k] == p[k];
        }
      }
    }
  }

  /** The natural number a string of decimal digits denotes. */
  function DigitsValue(ds: string): nat
    requires forall k :: 0 <= k < |ds| ==> IsDigit(ds[k])
  {
    if ds == [] then 0
    else 10 * DigitsValue(ds[..|ds| - 1]) + DigitValue(ds[|ds| - 1])
  }

  /** Appending a digit multiplies the value by ten and adds the digit. */
  lemma DigitsValueSnoc(ds: string, c: char)
    requires forall k :: 0 <= k < |ds| ==> IsDigit(ds[k])
    requires IsDigit(c)
    ensures DigitsValue(ds + [c]) == 10 * DigitsValue(ds) + DigitValue(c)
  {
    assert (ds + [c])[..|ds|] == ds;
  }

  /** The numeric value of a mark: an exact decimal `units / 10^scale`, or NaN. */
  datatype Mark = Num(units: nat, scale: nat) | NaN

  /** The value a `Num` stands for. */
  ghost function Value(m: Mark): real
    requires m.Num?
  {
    m.units as real / Pow10(m.scale) as real
  }

  /** `numericMark > 0`; every comparison with NaN is false. */
  predicate IsAboveZero(m: Mark)
  {
    m.Num? && m.units > 0
  }

  /**
    `parseFloat(s)` for a string of digits and dots, which is all the route
    ever passes it: the longest prefix `whole ('.' frac)?` read as the
    decimal `whole frac / 10^|frac|`, and NaN when that prefix holds no
    digit.
   */
  function ParseFloat(s: string): Mark
  {
    var w := DigitCount(s);
    var whole := s[..w];
    var frac := if w < |s| && s[w] == '.' then s[w + 1..][..DigitCount(s[w + 1..])] else "";
    if whole + frac == "" then NaN else Num(DigitsValue(whole + frac), |frac|)
  }

  /**
    The mark the route computes from a trimmed mark cell: 0 when the cell
    holds no digit and no dot, otherwise `parseFloat` of the first run.
   */
  function ParseMark(markText: string): Mark
  {
    match FirstRun(markText)
    case None => Num(0, 0)
    case Some(run) => ParseFloat(run)
  }

  /** `s` begins a decimal literal: a digit, or a dot followed by a digit. */
  predicate StartsNumber(s: string)
  {
    (|s| > 0 && IsDigit(s[0])) || (|s| > 1 && s[0] == '.' && IsDigit(s[1]))
  }

  /** The positivity test on the exact decimal agrees with `> 0` on its value. */
  lemma AboveZeroIsPositiveValue(m: Mark)
    ensures IsAboveZero(m) <==> m.Num? && Value(m) > 0.0
  {
  }

  /** A digit string denotes a positive number exactly when one of its digits is non-zero. */
  lemma {:induction false} DigitsValuePositive(ds: string)
    requires forall k :: 0 <= k < |ds| ==> IsDigit(ds[k])
    ensures DigitsValue(ds) > 0 <==> HasNonZeroDigit(ds)
  {
    if ds != [] {
      var init := ds[..|ds| - 1];
      DigitsValuePositive(init);
      HasNonZeroDigitConcat(init, [ds[|ds| - 1]]);
      assert ds == init + [ds[|ds| - 1]];
    }
  }

  lemma {:induction false} HasNonZeroDigitConcat(a: string, b: string)
    ensures HasNonZeroDigit(a + b) <==> HasNonZeroDigit(a) || HasNonZeroDigit(b)
    decreases |b|
  {
    if b == [] {
      assert a + b == a;
    } else {
      var init := b[..|b| - 1];
      HasNonZeroDigitConcat(a, init);
      assert (a + b)[..|a + b| - 1] == a + init;
    }
  }

  /** `parseFloat` gives NaN exactly when the string does not begin a decimal literal. */
  lemma ParseFloatNaN(s: string)
    ensures ParseFloat(s).NaN? <==> !StartsNumber(s)
  {
  }

  /**
    `parseFloat` gives a number above zero exactly when its decimal-form prefix
    contains a non-zero digit; what follows that prefix never matters.
   */
  lemma ParseFloatAboveZero(s: string)
    ensures IsAboveZero(ParseFloat(s)) <==> HasNonZeroDigit(s[..PrefixLength(s)])
  {
    var w := DigitCount(s);
    if w < |s| && s[w] == '.' {
      AboveZeroAtDot(s, w, DigitCount(s[w + 1..]));
    } else {
      DigitsValuePositive(s[..w]);
      assert s[..w] + "" == s[..w];
    }
  }

  /** The dot case of `ParseFloatAboveZero`: the prefix read is `whole '.' frac`. */
  lemma AboveZeroAtDot(s: string, w: nat, d: nat)
    requires w < |s| && s[w] == '.' && DigitCount(s) == w
    requires DigitCount(s[w + 1..]) == d
    ensures IsAboveZero(ParseFloat(s)) <==> HasNonZeroDigit(s[..PrefixLength(s)])
  {
    AboveZeroOfDigitsAtDot(s, w, d);
    NonZeroDigitAroundDot(s[..w], s[w + 1..][..d]);
    PrefixReadAtDot(s, w, d);
  }

  /** At a dot, `parseFloat` is above zero exactly when the digits around the dot hold a non-zero one. */
  lemma AboveZeroOfDigitsAtDot(s: string, w: nat, d: nat)
    requires w < |s| && s[w] == '.' && DigitCount(s) == w
    requires DigitCount(s[w + 1..]) == d
    ensures IsAboveZero(ParseFloat(s)) <==> HasNonZeroDigit(s[..w] + s[w + 1..][..d])
  {
    var whole, frac := s[..w], s[w + 1..][..d];
    ParseFloatAtDot(s, w, d, whole, frac);
    DigitsConcat(whole, frac);
    DigitsValuePositive(whole + frac);
  }

  /** A dot between the digits adds no non-zero digit. */
  lemma NonZeroDigitAroundDot(whole: string, frac: string)
    ensures HasNonZeroDigit(whole + frac) <==> HasNonZeroDigit(whole + ['.'] + frac)
  {
    HasNonZeroDigitConcat(whole, frac);
    HasNonZeroDigitConcat(whole, ['.']);
    HasNonZeroDigitConcat(whole + ['.'], frac);
    assert !HasNonZeroDigit(['.']) by {
      assert ['.'][..0] == [];
    }
  }

  /** At a dot, the decimal-form prefix ends after the digits that follow the dot. */
  lemma PrefixLengthAtDot(s: string, w: nat, d: nat)
    requires w < |s| && s[w] == '.' && DigitCount(s) == w
    requires DigitCount(s[w + 1..]) == d
    ensures PrefixLength(s) == w + 1 + d
  {
  }

  /** At a dot, the decimal-form prefix is `whole '.' frac`. */
  lemma PrefixReadAtDot(s: string, w: nat, d: nat)
    requires w < |s| && s[w] == '.' && DigitCount(s) == w
    requires DigitCount(s[w + 1..]) == d
    ensures s[..PrefixLength(s)] == s[..w] + ['.'] + s[w + 1..][..d]
  {
    PrefixLengthAtDot(s, w, d);
    SliceAtDot(s, w, d);
  }

  lemma SliceAtDot(s: string, w: nat, d: nat)
    requires w + 1 + d <= |s| && s[w] == '.'
    ensures s[..w + 1 + d] == s[..w] + ['.'] + s[w + 1..][..d]
  {
  }

  lemma DigitsConcat(a: string, b: string)
    requires forall k :: 0 <= k < |a| ==> IsDigit(a[k])
    requires forall k :: 0 <= k < |b| ==> IsDigit(b[k])
    ensures forall k :: 0 <= k < |a + b| ==> IsDigit((a + b)[k])
  {
  }

  /** A mark cell without any digit or dot reads as 0, so its row is dropped. */
  lemma NoRunReadsAsZero(markText: string)
    requires forall k :: 0 <= k < |markText| ==> !IsRunChar(markText[k])
    ensures ParseMark(markText) == Num(0, 0) && !IsAboveZero(ParseMark(markText))
  {
  }

  /** A run that does not begin a decimal literal (a lone ".", say) reads as NaN, so its row is dropped. */
  lemma NonNumericRunReadsAsNaN(markText: string)
    requires FirstRun(markText).Some? && !StartsNumber(FirstRun(markText).value)
    ensures ParseMark(markText) == NaN && !IsAboveZero(ParseMark(markText))
  {
  }

  /** A slice of a string without a non-zero digit has none either. */
  lemma NoNonZeroDigitInSlice(s: string, i: nat, j: nat)
    requires i <= j <= |s| && !HasNonZeroDigit(s)
    ensures !HasNonZeroDigit(s[i..j])
  {
    HasNonZeroDigitIff(s);
    HasNonZeroDigitIff(s[i..j]);
    forall k | 0 <= k < j - i
      ensures !IsNonZeroDigit(s[i..j][k])
    {
      assert s[i..j][k] == s[i + k];
    }
  }

  /** The run a cell without a non-zero digit captures has none either. */
  lemma FirstRunKeepsZeros(s: string)
    requires !HasNonZeroDigit(s) && FirstRun(s).Some?
    ensures !HasNonZeroDigit(FirstRun(s).value)
  {
    var i := RunStart(s);
    var n := RunLength(s[i..]);
    assert FirstRun(s).value == s[i..i + n];
    NoNonZeroDigitInSlice(s, i, i + n);
  }

  /** Neither has the decimal-form prefix of such a run. */
  lemma PrefixKeepsZeros(run: string)
    requires !HasNonZeroDigit(run)
    ensures !HasNonZeroDigit(run[..PrefixLength(run)])
  {
    NoNonZeroDigitInSlice(run, 0, PrefixLength(run));
    assert run[0..PrefixLength(run)] == run[..PrefixLength(run)];
  }

  /** A cell whose digits are all zeros never reads as a mark above zero, so its row is dropped. */
  lemma ZerosNotAboveZero(markText: string)
    requires !HasNonZeroDigit(markText)
    ensures !IsAboveZero(ParseMark(markText))
  {
    match FirstRun(markText)
    case None =>
    case Some(run) =>
      FirstRunKeepsZeros(markText);
      PrefixKeepsZeros(run);
      ParseFloatAboveZero(run);
  }

  /** A cell that opens with a maximal run of `n` class characters has that run as its capture. */
  lemma FirstRunAtStart(s: string, n: nat)
    requires 0 < n <= |s|
    requires forall k :: 0 <= k < n ==> IsRunChar(s[k])
    requires n == |s| || !IsRunChar(s[n])
    ensures FirstRun(s) == Some(s[..n])
  {
  }

  /** The digit prefix is determined by where the first non-digit stands. */
  lemma DigitCountAt(s: string, n: nat)
    requires n <= |s|
    requires forall k :: 0 <= k < n ==> IsDigit(s[k])
    requires n == |s| || !IsDigit(s[n])
    ensures DigitCount(s) == n
  {
  }

  /** Digits followed by a non-digit: the digit count stops at the join. */
  lemma DigitCountOfDigits(a: string, b: string)
    requires forall k :: 0 <= k < |a| ==> IsDigit(a[k])
    requires b == [] || !IsDigit(b[0])
    ensures DigitCount(a + b) == |a|
  {
    var s := a + b;
    assert forall k :: 0 <= k < |a| ==> s[k] == a[k];
    assert |a| < |s| ==> s[|a|] == b[0];
    DigitCountAt(s, |a|);
  }

  lemma ConcatAssoc(a: string, b: string, c: string, d: string)
    ensures a + b + c + d == a + (b + (c + d))
  {
  }

  /** Splitting `whole '.' t` at its dot. */
  lemma DigitsThenDot(whole: string, t: string)
    requires forall k :: 0 <= k < |whole| ==> IsDigit(whole[k])
    ensures var s := whole + ("." + t);
      && s[|whole|] == '.' && DigitCount(s) == |whole|
      && s[..|whole|] == whole && s[|whole| + 1..] == t
  {
    var s := whole + ("." + t);
    DigitCountOfDigits(whole, "." + t);
    assert s[|whole| + 1..] == t;
  }

  /** Splitting digits `a` from a `b` that does not start with a digit. */
  lemma DigitsThenRest(a: string, b: string)
    requires forall k :: 0 <= k < |a| ==> IsDigit(a[k])
    requires b == [] || !IsDigit(b[0])
    ensures DigitCount(a + b) == |a| && (a + b)[..|a|] == a
  {
    DigitCountOfDigits(a, b);
    assert (a + b)[..|a|] == a;
  }

  /** `parseFloat` on a string whose digit run stops at a dot. */
  lemma ParseFloatAtDot(s: string, w: nat, f: nat, whole: string, frac: string)
    requires w < |s| && s[w] == '.' && DigitCount(s) == w
    requires DigitCount(s[w + 1..]) == f
    requires whole == s[..w] && frac == s[w + 1..][..f]
    ensures ParseFloat(s) == if whole + frac == "" then NaN else Num(DigitsValue(whole + frac), f)
  {
  }

  /**
    A string `whole rest`, where `rest` starts with neither a digit nor a
    dot, reads as the integer `whole`, or as NaN when `whole` is empty.
   */
  lemma ParseFloatWhole(whole: string, rest: string)
    requires forall k :: 0 <= k < |whole| ==> IsDigit(whole[k])
    requires rest == "" || (!IsDigit(rest[0]) && rest[0] != '.')
    ensures ParseFloat(whole + rest) == if whole == "" then NaN else Num(DigitsValue(whole), 0)
  {
    var s := whole + rest;
    DigitCountOfDigits(whole, rest);
    assert |whole| < |s| ==> s[|whole|] == rest[0];
    assert s[..|whole|] == whole && whole + "" == whole;
  }

  /**
    A string `whole '.' frac rest`, where `rest` does not start with a digit
    (it may start with a second dot), reads as `whole frac / 10^|frac|`, or
    as NaN when it has no digit.
   */
  lemma ParseFloatDecimal(whole: string, frac: string, rest: string)
    requires forall k :: 0 <= k < |whole| ==> IsDigit(whole[k])
    requires forall k :: 0 <= k < |frac| ==> IsDigit(frac[k])
    requires rest == "" || !IsDigit(rest[0])
    ensures ParseFloat(whole + "." + frac + rest) ==
            if whole + frac == "" then NaN else Num(DigitsValue(whole + frac), |frac|)
  {
    var t := frac + rest;
    var s := whole + ("." + t);
    ConcatAssoc(whole, ".", frac, rest);
    var w := |whole|;
    DigitsThenDot(whole, t);
    DigitsThenRest(frac, rest);
    ParseFloatAtDot(s, w, |frac|, whole, frac);
  }

  /**
    A cell that opens with a run `whole` of digits, followed by anything that
    is not a digit or a dot (a unit, a colon), has that integer as its mark.
   */
  lemma ParseMarkLeadingInteger(cell: string, whole: string, rest: string)
    requires cell == whole + rest && whole != ""
    requires forall k :: 0 <= k < |whole| ==> IsDigit(whole[k])
    requires rest == "" || !IsRunChar(rest[0])
    ensures ParseMark(cell) == Num(DigitsValue(whole), 0)
  {
    assert forall k :: 0 <= k < |whole| ==> cell[k] == whole[k];
    assert |whole| < |cell| ==> cell[|whole|] == rest[0];
    FirstRunAtStart(cell, |whole|);
    assert cell[..|whole|] == whole + "";
    ParseFloatWhole(whole, "");
  }

  /**
    A cell that opens with a decimal `whole '.' frac` followed by anything
    that is not a digit or a dot (a unit, a conversion in parentheses) has
    that decimal as its mark.
   */
  lemma ParseMarkLeadingDecimal(cell: string, whole: string, frac: string, rest: string)
    requires cell == whole + "." + frac + rest
    requires forall k :: 0 <= k < |whole| ==> IsDigit(whole[k])
    requires forall k :: 0 <= k < |frac| ==> IsDigit(frac[k])
    requires rest == "" || !IsRunChar(rest[0])
    ensures ParseMark(cell) ==
            if whole + frac == "" then NaN else Num(DigitsValue(whole + frac), |frac|)
  {
    var run := whole + "." + frac;
    assert forall k :: 0 <= k < |run| ==> cell[k] == run[k];
    assert |run| < |cell| ==> cell[|run|] == rest[0];
    FirstRunAtStart(cell, |run|);
    assert cell[..|run|] == run + "";
    ParseFloatDecimal(whole, frac, "");
  }

  /** The value of a two-digit string. */
  lemma DigitsValue2(a: char, b: char)
    requires IsDigit(a) && IsDigit(b)
    ensures DigitsValue([a, b]) == 10 * DigitValue(a) + DigitValue(b)
  {
    DigitsValueSnoc([], a);
    assert [] + [a] == [a];
    DigitsValueSnoc([a], b);
    assert [a] + [b] == [a, b];
  }

  /** The value of a three-digit string. */
  lemma DigitsValue3(a: char, b: char, c: char)
    requires IsDigit(a) && IsDigit(b) && IsDigit(c)
    ensures DigitsValue([a, b, c]) == 100 * DigitValue(a) + 10 * DigitValue(b) + DigitValue(c)
  {
    DigitsValue2(a, b);
    DigitsValueSnoc([a, b], c);
    assert [a, b] + [c] == [a, b, c];
  }

  /** How the metres cell splits into the decimal and what follows it. */
  lemma MetresCellParts()
    ensures "1.46 m (4 ft 9+1\U{2044}4 in)" == "1" + "." + "46" + " m (4 ft 9+1\U{2044}4 in)"
    ensures " m (4 ft 9+1\U{2044}4 in)"[0] == ' '
    ensures DigitsValue("1" + "46") == 146
  {
    assert "1" + "46" == ['1', '4', '6'];
    DigitsValue3('1', '4', '6');
  }

  /** The mark of a typical record-progression cell: its metres, ignoring the imperial conversion. */
  lemma ParseMarkMetres()
    ensures ParseMark("1.46 m (4 ft 9+1\U{2044}4 in)") == Num(146, 2)
  {
    MetresCellParts();
    ParseMarkLeadingDecimal("1.46 m (4 ft 9+1\U{2044}4 in)", "1", "46", " m (4 ft 9+1\U{2044}4 in)");
  }

  /** How the integer cell splits. */
  lemma IntegerCellParts()
    ensures "8 m" == "8" + " m" && " m"[0] == ' ' && DigitsValue("8") == 8
  {
    DigitsValueSnoc([], '8');
    assert [] + ['8'] == "8";
  }

  /** A whole-number mark with a unit reads as that integer. */
  lemma ParseMarkInteger()
    ensures ParseMark("8 m") == Num(8, 0)
  {
    IntegerCellParts();
    ParseMarkLeadingInteger("8 m", "8", " m");
  }

  /** How the time cell splits. */
  lemma TimeCellParts()
    ensures "3:59.4" == "3" + ":59.4" && ":59.4"[0] == ':' && DigitsValue("3") == 3
  {
    DigitsValueSnoc([], '3');
    assert [] + ['3'] == "3";
  }

  /** A time such as "3:59.4" reads only its minutes: the capture stops at the colon. */
  lemma ParseMarkTime()
    ensures ParseMark("3:59.4") == Num(3, 0)
  {
    TimeCellParts();
    ParseMarkLeadingInteger("3:59.4", "3", ":59.4");
  }

  /** How the run with two dots splits. */
  lemma TwoDotsParts()
    ensures "1.2.3"[..5] == "1.2.3" == "1" + "." + "2" + ".3"
    ensures ".3"[0] == '.' && DigitsValue("1" + "2") == 12
  {
    assert "1" + "2" == ['1', '2'];
    DigitsValue2('1', '2');
  }

  /** A run with a second dot is read up to that dot. */
  lemma ParseMarkTwoDots()
    ensures ParseMark("1.2.3") == Num(12, 1)
  {
    TwoDotsParts();
    FirstRunAtStart("1.2.3", 5);
    ParseFloatDecimal("1", "2", ".3");
  }

  /** How the zeros cell splits. */
  lemma ZerosCellParts()
    ensures "0.00 m" == "0" + "." + "00" + " m"
    ensures " m"[0] == ' ' && DigitsValue("0" + "00") == 0
  {
    assert "0" + "00" == ['0', '0', '0'];
    DigitsValue3('0', '0', '0');
  }

  /** Zeros read as the number 0, which is not above zero. */
  lemma ParseMarkZeros()
    ensures ParseMark("0.00 m") == Num(0, 2)
  {
    ZerosCellParts();
    ParseMarkLeadingDecimal("0.00 m", "0", "00", " m");
  }

  /** A cell with no digit or dot reads as 0; a lone dot reads as NaN. */
  lemma ParseMarkNoNumber()
    ensures ParseMark("no data") == Num(0, 0)
    ensures ParseMark(".") == NaN
  {
    var none := "no data";
    assert forall k :: 0 <= k < |none| ==> !IsRunChar(none[k]);
    NoRunReadsAsZero(none);
    assert "." == "" + "." + "" + "";
    ParseMarkLeadingDecimal(".", "", "", "");
  }
}
