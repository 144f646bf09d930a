/**
 * Model of the colour-contrast, set and SVG helpers of src/utils/utils.ts.
 *
 * The luminance of a colour (getLuminance, a floating-point power formula) is
 * a parameter: any function from colours into [0, 1].
 */
module Utils {
  import opened Strings

  /** A relative luminance, as getLuminance produces it for channels in 0..255. */
  type Luminance = l: real | 0.0 <= l <= 1.0

  /** A colour given as its three channels, `[r, g, b]` in the source. */
  datatype RGB = RGB(r: int, g: int, b: int)

  function Min(a: real, b: real): real { if a <= b then a else b }
  function Max(a: real, b: real): real { if a <= b then b else a }

  /**
   * getContrastRatio: the darker luminance over the lighter one, each shifted by
   * 0.05. This is the reciprocal of the contrast ratio of WCAG 2.1, so it lies in
   * (0, 1] and a SMALLER value means MORE contrast.
   */
  function GetContrastRatio(color1: RGB, color2: RGB, luminance: RGB -> Luminance): (ratio: real)
    ensures ratio == (Min(luminance(color1), luminance(color2)) + 0.05)
                     / (Max(luminance(color1), luminance(color2)) + 0.05)
    ensures 0.0 < ratio <= 1.0
    ensures ratio == 1.0 <==> luminance(color1) == luminance(color2)
  {
    var color1L := luminance(color1);
    var color2L := luminance(color2);
    var ratio := if color1L > color2L then (color2L + 0.05) / (color1L + 0.05)
                 else (color1L + 0.05) / (color2L + 0.05);
    QuotientAtMostOne(Min(color1L, color2L) + 0.05, Max(color1L, color2L) + 0.05);
    ratio
  }

  /** For 0 < a <= b, a / b lies in (0, 1] and equals 1 exactly when a == b. */
  lemma QuotientAtMostOne(a: real, b: real)
    requires 0.0 < a <= b
    ensures 0.0 < a / b <= 1.0
    ensures a / b == 1.0 <==> a == b
  {
    assert a / b * b == a;
    if a / b == 1.0 {
      assert a == b;
    }
  }

  /** Dividing a positive number by a larger positive number gives less. */
  lemma DivideByLarger(p: real, q1: real, q2: real)
    requires p > 0.0 && 0.0 < q1 < q2
    ensures p / q2 < p / q1
  {
    assert p / q2 * q2 == p && p / q1 * q1 == p;
  }

  /** Dividing by the same positive number keeps the order. */
  lemma DivideOrdered(a: real, b: real, c: real)
    requires c > 0.0 && a <= b
    ensures a / c <= b / c
  {
    assert a / c * c == a && b / c * c == b;
  }

  /** The ratio does not depend on the order of its two colours. */
  lemma GetContrastRatioSymmetric(color1: RGB, color2: RGB, luminance: RGB -> Luminance)
    ensures GetContrastRatio(color1, color2, luminance) == GetContrastRatio(color2, color1, luminance)
  {
  }

  /** The contrast ratio of WCAG 2.1: the lighter luminance over the darker one, each plus 0.05. */
  function WcagContrastRatio(l1: Luminance, l2: Luminance): real {
    (Max(l1, l2) + 0.05) / (Min(l1, l2) + 0.05)
  }

  /** The WCAG 2.1 minimum contrast: level AA asks 4.5 (3 for large text), level AAA asks 7 (4.5 for large text). */
  function WcagMinimum(level: string, smallText: bool): real {
    if level == "AA" then (if smallText then 4.5 else 3.0)
    else (if smallText then 7.0 else 4.5)
  }

  /** getContrastRatio is the reciprocal of the WCAG 2.1 contrast ratio. */
  lemma {:induction false} RatioIsWcagReciprocal(color1: RGB, color2: RGB, luminance: RGB -> Luminance)
    ensures GetContrastRatio(color1, color2, luminance)
            * WcagContrastRatio(luminance(color1), luminance(color2)) == 1.0
  {
    var a := Min(luminance(color1), luminance(color2)) + 0.05;
    var b := Max(luminance(color1), luminance(color2)) + 0.05;
    assert a / b * (b / a) == (a * b) / (b * a);
  }

  /** For positive reciprocals, the order of the numbers is the reverse of the order of their reciprocals. */
  lemma ReciprocalOrder(a: real, b: real, ra: real, rb: real)
    requires a > 0.0 && b > 0.0 && a * ra == 1.0 && b * rb == 1.0
    ensures a < b <==> ra > rb
  {
    assert ra > 0.0 && rb > 0.0;
    if a < b {
      assert a * ra * rb < b * ra * rb;
    }
    if ra > rb {
      assert a * ra * b > a * rb * b;
    }
  }

  /**
   * Against the same background, one colour has a lower getContrastRatio than
   * another exactly when it has the higher WCAG 2.1 contrast ratio.
   */
  lemma ContrastOrder(color1: RGB, color2: RGB, background: RGB, luminance: RGB -> Luminance)
    ensures GetContrastRatio(color1, background, luminance) < GetContrastRatio(color2, background, luminance)
            <==> WcagContrastRatio(luminance(color1), luminance(background))
                 > WcagContrastRatio(luminance(color2), luminance(background))
  {
    RatioIsWcagReciprocal(color1, background, luminance);
    RatioIsWcagReciprocal(color2, background, luminance);
    ReciprocalOrder(GetContrastRatio(color1, background, luminance), GetContrastRatio(color2, background, luminance),
                    WcagContrastRatio(luminance(color1), luminance(background)),
                    WcagContrastRatio(luminance(color2), luminance(background)));
  }

  /** For positive a, b, k: a / b <= 1 / k exactly when b / a >= k. */
  lemma ReciprocalThreshold(a: real, b: real, k: real)
    requires a > 0.0 && b > 0.0 && k > 0.0
    ensures a / b <= 1.0 / k <==> b / a >= k
  {
    assert a / b <= 1.0 / k <==> a * k <= b by {
      assert a / b * b == a;
      assert 1.0 / k * k == 1.0;
      if a / b <= 1.0 / k {
        assert a / b * (b * k) <= 1.0 / k * (b * k);
      }
      if a * k <= b {
        assert (a * k) / (b * k) <= b / (b * k);
        assert (a * k) / (b * k) == a / b;
        assert b / (b * k) == 1.0 / k;
      }
    }
    assert b / a >= k <==> b >= a * k by {
      assert b / a * a == b;
      if b / a >= k {
        assert b / a * a >= k * a;
      }
      if b >= a * k {
        assert b / a >= (a * k) / a;
      }
    }
  }

  /**
   * haveContrast: compares the ratio with 1/4.5 (AA, small text), 1/3 (AA,
   * large text), 1/7 (any other level, small text) or 1/4.5 (any other level,
   * large text). The source's defaults are level 'AAA' and small text.
   */
  function HaveContrast(color1: RGB, color2: RGB, condition: string, smallText: bool,
                        luminance: RGB -> Luminance): (enough: bool)
    ensures enough <==> WcagContrastRatio(luminance(color1), luminance(color2)) >= WcagMinimum(condition, smallText)
  {
    var ratio := GetContrastRatio(color1, color2, luminance);
    var threshold := if condition == "AA" then (if smallText then 1.0 / 4.5 else 1.0 / 3.0)
                     else (if smallText then 1.0 / 7.0 else 1.0 / 4.5);
    var a := Min(luminance(color1), luminance(color2)) + 0.05;
    var b := Max(luminance(color1), luminance(color2)) + 0.05;
    ReciprocalThreshold(a, b, WcagMinimum(condition, smallText));
    assert threshold == 1.0 / WcagMinimum(condition, smallText);
    ratio <= threshold
  }

  /** Passing the stricter level implies passing the weaker one, for the same text size. */
  lemma HaveContrastAAAImpliesAA(color1: RGB, color2: RGB, smallText: bool, luminance: RGB -> Luminance)
    ensures HaveContrast(color1, color2, "AAA", smallText, luminance)
            ==> HaveContrast(color1, color2, "AA", smallText, luminance)
  {
  }

  /** Passing for small text implies passing for large text, at the same level. */
  lemma HaveContrastSmallImpliesLarge(color1: RGB, color2: RGB, condition: string, luminance: RGB -> Luminance)
    ensures HaveContrast(color1, color2, condition, true, luminance)
            ==> HaveContrast(color1, color2, condition, false, luminance)
  {
  }

  /** setsAreEqual: same size and every element of the first is in the second. */
  function SetsAreEqual<T>(set1: set<T>, set2: set<T>): (equal: bool)
    ensures equal <==> set1 == set2
  {
    var r := |set1| == |set2| && forall d | d in set1 :: d in set2;
    if r then SubsetOfSameSize(set1, set2); r else r
  }

  lemma SubsetOfSameSize<T>(set1: set<T>, set2: set<T>)
    requires set1 <= set2 && |set1| == |set2|
    ensures set1 == set2
  {
    assert |set2 - set1| == |set2| - |set1|;
  }

  /** The three fixed replacements of preProcessSVG, in the source's order. */
  function ReplaceFixedColors(svgString: string): string {
    ReplaceAll(ReplaceAll(ReplaceAll(svgString, "black", "currentcolor"),
                          "fill:none", "fill:currentcolor"),
               "stroke:none", "fill:currentcolor")
  }

  /** Replace every occurrence of each reset colour by 'currentcolor', first colour first. */
  function ResetColors(s: string, resetColors: seq<string>): string
    decreases |resetColors|
  {
    if resetColors == [] then s
    else ResetColors(ReplaceAll(s, resetColors[0], "currentcolor"), resetColors[1..])
  }

  /** The last colour in the list is replaced last. */
  lemma {:induction false} ResetColorsLast(s: string, resetColors: seq<string>, c: string)
    ensures ResetColors(s, resetColors + [c]) == ReplaceAll(ResetColors(s, resetColors), c, "currentcolor")
    decreases |resetColors|
  {
    if resetColors == [] {
      assert [] + [c] == [c];
    } else {
      assert (resetColors + [c])[1..] == resetColors[1..] + [c];
      ResetColorsLast(ReplaceAll(s, resetColors[0], "currentcolor"), resetColors[1..], c);
    }
  }

  /** preProcessSVG: the fixed replacements, then each reset colour in list order. */
  method PreProcessSVG(svgString: string, resetColors: seq<string>) returns (newString: string)
    ensures newString == ResetColors(ReplaceFixedColors(svgString), resetColors)
  {
    newString := ReplaceAll(svgString, "black", "currentcolor");
    newString := ReplaceAll(newString, "fill:none", "fill:currentcolor");
    newString := ReplaceAll(newString, "stroke:none", "fill:currentcolor");
    ghost var fixed := newString;
    for i := 0 to |resetColors|
      invariant newString == ResetColors(fixed, resetColors[..i])
    {
      assert resetColors[..i + 1] == resetColors[..i] + [resetColors[i]];
      ResetColorsLast(fixed, resetColors[..i], resetColors[i]);
      newString := ReplaceAll(newString, resetColors[i], "currentcolor");
    }
    assert resetColors[..|resetColors|] == resetColors;
  }

  /** An SVG string holding none of the three fixed patterns, with no reset colours, is returned unchanged. */
  lemma PreProcessUnchanged(svgString: string)
    requires !Occurs(svgString, "black") && !Occurs(svgString, "fill:none") && !Occurs(svgString, "stroke:none")
    ensures ResetColors(ReplaceFixedColors(svgString), []) == svgString
  {
    ReplaceAllAbsent(svgString, "black", "currentcolor");
    ReplaceAllAbsent(svgString, "fill:none", "fill:currentcolor");
    ReplaceAllAbsent(svgString, "stroke:none", "fill:currentcolor");
  }

  /** Reset colours that do not occur (and are not empty) change nothing. */
  lemma {:induction false} ResetAbsentColors(s: string, resetColors: seq<string>)
    requires forall i | 0 <= i < |resetColors| :: resetColors[i] != [] && !Occurs(s, resetColors[i])
    ensures ResetColors(s, resetColors) == s
    decreases |resetColors|
  {
    if resetColors != [] {
      ReplaceAllAbsent(s, resetColors[0], "currentcolor");
      ResetAbsentColors(s, resetColors[1..]);
    }
  }
}
