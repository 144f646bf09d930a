/**
 * Model of the label layout of src/components/sunburst/SunburstText.ts.
 *
 * The chart's collaborators are parameters: the angular scale xScale, the
 * radial scale yScale, the feature registry getFeatureInfo, the colour lookup
 * getFeatureColor, the Lato width table getLatoTextWidth and the font scale
 * already applied to the current depth window. π is a parameter too, and the
 * path strings, cos and sin are not modelled: a path is described by its
 * radius, angles and direction.
 */
module SunburstText {
  import opened Wrappers
  import opened Strings
  import Utils

  /** A sector of the partition layout: angular span [x0, x1], radial span [y0, y1], feature token `data.f`. */
  datatype HierarchyNode = HierarchyNode(x0: real, x1: real, y0: real, y1: real, f: string)

  /** What the feature registry knows of a feature token. */
  datatype FeatureInfo = FeatureInfo(name: string, value: string, nameValue: string, shortValue: string)

  datatype TextArcMode = SectorArc | MidLine

  /** The Sunburst object as this file sees it. */
  datatype Sunburst = Sunburst(
    xScale: real -> real,
    yScale: real -> real,
    getFeatureInfo: string -> FeatureInfo,
    getFeatureColor: string -> string,
    getLatoTextWidth: (string, real) -> real,
    curFontSize: real)

  /**
   * The path textArc hands to d3: a circular arc of `radius` from `startAngle`
   * to `endAngle`, or a straight segment along `angle` from the point at
   * `startRadius` to the point at `endRadius`.
   */
  datatype TextPath =
    | ArcPath(radius: real, startAngle: real, endAngle: real, anticlockwise: bool)
    | LinePath(angle: real, startRadius: real, endRadius: real)

  // ---------------------------------------------------------------- geometry

  /** The two angular bounds, turned so that angle 0 points up. */
  function StartAngle(sb: Sunburst, d: HierarchyNode, pi: real): real { sb.xScale(d.x0) - pi / 2.0 }
  function EndAngle(sb: Sunburst, d: HierarchyNode, pi: real): real { sb.xScale(d.x1) - pi / 2.0 }

  function MidAngle(sb: Sunburst, d: HierarchyNode, pi: real): real {
    (StartAngle(sb, d, pi) + EndAngle(sb, d, pi)) / 2.0
  }

  /** The mean of the two mapped radial bounds, clamped at 0. */
  function MeanRadius(sb: Sunburst, d: HierarchyNode): (radius: real)
    ensures radius >= 0.0
    ensures radius >= (sb.yScale(d.y0) + sb.yScale(d.y1)) / 2.0
    ensures radius == 0.0 || radius == (sb.yScale(d.y0) + sb.yScale(d.y1)) / 2.0
  {
    Utils.Max(0.0, (sb.yScale(d.y0) + sb.yScale(d.y1)) / 2.0)
  }

  /** The mid angle lies in the lower half of the screen, where an arc drawn clockwise reads upside down. */
  predicate NeedToInvert(midAngle: real, pi: real) { midAngle > 0.0 && midAngle < pi }

  /** The mid angle lies in the left half of the chart. */
  predicate OnLeftHalf(midAngle: real, pi: real) { midAngle >= pi / 2.0 && midAngle <= pi * 3.0 / 2.0 }

  /** textArc */
  function TextArc(sb: Sunburst, d: HierarchyNode, textArcMode: TextArcMode, pi: real): (p: TextPath)
    ensures p.ArcPath? <==> textArcMode == SectorArc
    ensures p.ArcPath? ==> p.radius >= 0.0 && p.radius == MeanRadius(sb, d)
    ensures p.ArcPath? ==> p.anticlockwise == NeedToInvert(MidAngle(sb, d, pi), pi)
    ensures p.ArcPath? ==>
      if p.anticlockwise then p.startAngle == EndAngle(sb, d, pi) && p.endAngle == StartAngle(sb, d, pi)
      else p.startAngle == StartAngle(sb, d, pi) && p.endAngle == EndAngle(sb, d, pi)
    ensures p.LinePath? ==> p.angle == MidAngle(sb, d, pi)
    ensures p.LinePath? ==>
      if OnLeftHalf(MidAngle(sb, d, pi), pi) then p.startRadius == sb.yScale(d.y1) && p.endRadius == sb.yScale(d.y0)
      else p.startRadius == sb.yScale(d.y0) && p.endRadius == sb.yScale(d.y1)
  {
    match textArcMode
    case SectorArc =>
      var angles := [sb.xScale(d.x0) - pi / 2.0, sb.xScale(d.x1) - pi / 2.0];
      var radius := Utils.Max(0.0, (sb.yScale(d.y0) + sb.yScale(d.y1)) / 2.0);
      var midAngle := (angles[0] + angles[1]) / 2.0;
      var needToInvert := midAngle > 0.0 && midAngle < pi;
      var angles' := if needToInvert then [angles[1], angles[0]] else angles;
      ArcPath(radius, angles'[0], angles'[1], needToInvert)
    case MidLine =>
      var angles := [sb.xScale(d.x0) - pi / 2.0, sb.xScale(d.x1) - pi / 2.0];
      var midAngle := (angles[0] + angles[1]) / 2.0;
      var startRadius := sb.yScale(d.y0);
      var endRadius := sb.yScale(d.y1);
      if midAngle >= pi / 2.0 && midAngle <= (pi * 3.0) / 2.0 then LinePath(midAngle, endRadius, startRadius)
      else LinePath(midAngle, startRadius, endRadius)
  }

  /**
   * For a sector whose angular bounds are in order, the arc runs over exactly
   * the sector's own angles: the end angle lies below the start angle exactly
   * when d3 is told to sweep anticlockwise, so d3 never goes the long way round.
   */
  lemma ArcSweepsOwnSector(sb: Sunburst, d: HierarchyNode, pi: real)
    requires sb.xScale(d.x0) <= sb.xScale(d.x1)
    ensures var p := TextArc(sb, d, SectorArc, pi);
      && (p.anticlockwise ==> p.endAngle <= p.startAngle)
      && (!p.anticlockwise ==> p.startAngle <= p.endAngle)
      && (p.startAngle + p.endAngle) / 2.0 == MidAngle(sb, d, pi)
      && (if p.anticlockwise then p.startAngle - p.endAngle else p.endAngle - p.startAngle)
         == sb.xScale(d.x1) - sb.xScale(d.x0)
  {
  }

  /**
   * Arc text is never upside down. On screen (y pointing down) the arc's
   * tangent at the mid angle has horizontal component -sin(mid) when swept
   * clockwise and sin(mid) when swept anticlockwise. Given only the sign of
   * sin on the two halves, that component is never negative: the label reads
   * left to right.
   */
  lemma ArcTextUpright(sb: Sunburst, d: HierarchyNode, pi: real, sinMid: real)
    requires NeedToInvert(MidAngle(sb, d, pi), pi) ==> sinMid >= 0.0
    requires !NeedToInvert(MidAngle(sb, d, pi), pi) ==> sinMid <= 0.0
    ensures var p := TextArc(sb, d, SectorArc, pi);
      (if p.anticlockwise then sinMid else -sinMid) * p.radius >= 0.0
  {
  }

  /**
   * Line text is never mirrored. Given only that cos is not positive on the
   * left half and not negative elsewhere, and that the inner bound maps
   * inside the outer one, the segment's horizontal direction
   * (endRadius - startRadius) * cos(mid) is never negative.
   */
  lemma LineTextUpright(sb: Sunburst, d: HierarchyNode, pi: real, cosMid: real)
    requires sb.yScale(d.y0) <= sb.yScale(d.y1)
    requires OnLeftHalf(MidAngle(sb, d, pi), pi) ==> cosMid <= 0.0
    requires !OnLeftHalf(MidAngle(sb, d, pi), pi) ==> cosMid >= 0.0
    ensures var p := TextArc(sb, d, MidLine, pi);
      (p.endRadius - p.startRadius) * cosMid >= 0.0
  {
    var p := TextArc(sb, d, MidLine, pi);
    if OnLeftHalf(MidAngle(sb, d, pi), pi) {
      assert p.endRadius - p.startRadius <= 0.0;
    } else {
      assert p.endRadius - p.startRadius >= 0.0;
    }
  }

  /**
   * A quarter sector x0 = 0, x1 = 0.25, y0 = 1, y1 = 2 under xScale = 2πx and
   * yScale = 100y: angles -π/2 and 0, mid angle -π/4, no flip, radius 150.
   */
  lemma QuarterSectorArc(pi: real, sb: Sunburst)
    requires pi > 0.0
    requires forall x :: sb.xScale(x) == 2.0 * pi * x
    requires forall y :: sb.yScale(y) == 100.0 * y
    ensures var d := HierarchyNode(0.0, 0.25, 1.0, 2.0, "age");
      TextArc(sb, d, SectorArc, pi) == ArcPath(150.0, -pi / 2.0, 0.0, false)
  {
    var d := HierarchyNode(0.0, 0.25, 1.0, 2.0, "age");
    assert StartAngle(sb, d, pi) == -pi / 2.0;
    assert EndAngle(sb, d, pi) == 0.0;
    assert MidAngle(sb, d, pi) == -pi / 4.0;
  }

  // ------------------------------------------------------------ arc fitting

  /** The approximate arc length: angular span times the clamped mean radius. */
  function ArcLength(sb: Sunburst, d: HierarchyNode): real {
    (sb.xScale(d.x1) - sb.xScale(d.x0)) * MeanRadius(sb, d)
  }

  /** doesTextFitArc; a `null` text stands for the feature's nameValue. */
  function DoesTextFitArc(sb: Sunburst, d: HierarchyNode, fontSize: real, text: Option<string>, padding: real): (fits: bool)
    ensures fits <==>
      sb.getLatoTextWidth(if text.None? then sb.getFeatureInfo(d.f).nameValue else text.value, fontSize)
        <= ArcLength(sb, d) - padding
  {
    var text' := if text.None? then sb.getFeatureInfo(d.f).nameValue else text.value;
    var textWidth := sb.getLatoTextWidth(text', fontSize);
    var angle := sb.xScale(d.x1) - sb.xScale(d.x0);
    var radius := Utils.Max(0.0, (sb.yScale(d.y0) + sb.yScale(d.y1)) / 2.0);
    var arcLength := angle * radius;
    textWidth <= arcLength - padding
  }

  /** The length the fit test measures is the length of the arc path actually drawn: the swept angle times its radius. */
  lemma FitMeasuresDrawnArc(sb: Sunburst, d: HierarchyNode, pi: real, fontSize: real, text: string, padding: real)
    requires sb.xScale(d.x0) <= sb.xScale(d.x1)
    ensures var p := TextArc(sb, d, SectorArc, pi);
      var swept := if p.anticlockwise then p.startAngle - p.endAngle else p.endAngle - p.startAngle;
      (DoesTextFitArc(sb, d, fontSize, Some(text), padding)
       <==> sb.getLatoTextWidth(text, fontSize) <= swept * p.radius - padding)
  {
    ArcSweepsOwnSector(sb, d, pi);
  }

  /** A text that fits with some padding fits with any smaller padding. */
  lemma FitMonotoneInPadding(sb: Sunburst, d: HierarchyNode, fontSize: real, text: Option<string>, padding: real, smaller: real)
    requires smaller <= padding
    ensures DoesTextFitArc(sb, d, fontSize, text, padding) ==> DoesTextFitArc(sb, d, fontSize, text, smaller)
  {
  }

  // ------------------------------------------------------------ text colour

  const WhiteRGB := Utils.RGB(252, 252, 252)
  const BlackRGB := Utils.RGB(74, 74, 74)
  const CurrentColor := "currentcolor"
  const LightText := "hsla(0, 0%, 99%, 1)"

  /**
   * getTextColor. `parseColor` stands for d3.color(...).rgb(), None when the
   * colour string does not parse.
   */
  function GetTextColor(getFeatureColor: string -> string, parseColor: string -> Option<Utils.RGB>,
                        luminance: Utils.RGB -> Utils.Luminance, d: HierarchyNode): (foreground: string)
    ensures foreground == LightText || foreground == CurrentColor
    ensures parseColor(getFeatureColor(d.f)).None? ==> foreground == CurrentColor
    ensures foreground == LightText <==>
      && parseColor(getFeatureColor(d.f)).Some?
      && Utils.GetContrastRatio(WhiteRGB, parseColor(getFeatureColor(d.f)).value, luminance)
         < Utils.GetContrastRatio(BlackRGB, parseColor(getFeatureColor(d.f)).value, luminance)
  {
    var background := parseColor(getFeatureColor(d.f));
    if background.Some? then
      var backgroundRGB := background.value;
      if Utils.GetContrastRatio(WhiteRGB, backgroundRGB, luminance) < Utils.GetContrastRatio(BlackRGB, backgroundRGB, luminance)
      then LightText
      else CurrentColor
    else CurrentColor
  }

  /**
   * Because getContrastRatio is the reciprocal of the WCAG 2.1 contrast ratio,
   * the light text is chosen exactly when it gives the background STRICTLY
   * more contrast than the dark reference would.
   */
  lemma {:induction false} TextColorPicksHigherContrast(getFeatureColor: string -> string, parseColor: string -> Option<Utils.RGB>,
                                     luminance: Utils.RGB -> Utils.Luminance, d: HierarchyNode)
    requires parseColor(getFeatureColor(d.f)).Some?
    ensures var bg := parseColor(getFeatureColor(d.f)).value;
      (GetTextColor(getFeatureColor, parseColor, luminance, d) == LightText
       <==> Utils.WcagContrastRatio(luminance(WhiteRGB), luminance(bg))
            > Utils.WcagContrastRatio(luminance(BlackRGB), luminance(bg)))
  {
    Utils.ContrastOrder(WhiteRGB, BlackRGB, parseColor(getFeatureColor(d.f)).value, luminance);
  }

  /** A background no lighter than the dark reference gets the light text. */
  lemma DarkBackgroundGetsLightText(getFeatureColor: string -> string, parseColor: string -> Option<Utils.RGB>,
                                    luminance: Utils.RGB -> Utils.Luminance, d: HierarchyNode)
    requires parseColor(getFeatureColor(d.f)).Some?
    requires luminance(BlackRGB) < luminance(WhiteRGB)
    requires luminance(parseColor(getFeatureColor(d.f)).value) <= luminance(BlackRGB)
    ensures GetTextColor(getFeatureColor, parseColor, luminance, d) == LightText
  {
    var l := luminance(parseColor(getFeatureColor(d.f)).value) + 0.05;
    var lw := luminance(WhiteRGB) + 0.05;
    var lb := luminance(BlackRGB) + 0.05;
    Utils.DivideByLarger(l, lb, lw);
  }

  /** A background no darker than the light reference keeps the inherited colour. */
  lemma LightBackgroundKeepsCurrentColor(getFeatureColor: string -> string, parseColor: string -> Option<Utils.RGB>,
                                         luminance: Utils.RGB -> Utils.Luminance, d: HierarchyNode)
    requires parseColor(getFeatureColor(d.f)).Some?
    requires luminance(BlackRGB) < luminance(WhiteRGB)
    requires luminance(parseColor(getFeatureColor(d.f)).value) >= luminance(WhiteRGB)
    ensures GetTextColor(getFeatureColor, parseColor, luminance, d) == CurrentColor
  {
    var l := luminance(parseColor(getFeatureColor(d.f)).value) + 0.05;
    var lw := luminance(WhiteRGB) + 0.05;
    var lb := luminance(BlackRGB) + 0.05;
    Utils.DivideOrdered(lb, lw, l);
  }

  // ------------------------------------------------------------ drawText

  const SectorPadding := 15.0
  const ArcPadding := 10.0
  const MaxTextHeight := 18.5
  const Ellipsis := "..."

  /** The font size every measurement in drawText uses: 16 times the current font scale. */
  function FontSize(sb: Sunburst): real { 16.0 * sb.curFontSize }

  /** The width of `text` in Lato at that font size, as every measurement of the shrink loop takes it. */
  function TextWidth(sb: Sunburst, text: string): real { sb.getLatoTextWidth(text, FontSize(sb)) }

  /** sectorRadius: the radial extent of the FIRST sector less 15, reused for every sector. */
  function SectorRadius(sb: Sunburst, first: HierarchyNode): real {
    sb.yScale(first.y1) - sb.yScale(first.y0) - SectorPadding
  }

  function NameOf(sb: Sunburst, d: HierarchyNode): string { sb.getFeatureInfo(d.f).name }

  /** The candidate text: the whole label while the name is not yet drawn, the bare value after. */
  function Label(info: FeatureInfo, drawnFeatureNames: set<string>): string {
    if info.name in drawnFeatureNames then info.value else info.nameValue
  }

  // Pass 1: layout.

  /** The names pass 1 has recorded before sector `i`: every earlier sector's, whatever its branch. */
  function NamesBefore(sb: Sunburst, sectors: seq<HierarchyNode>, i: nat): set<string>
    requires i <= |sectors|
  {
    set j | 0 <= j < i :: NameOf(sb, sectors[j])
  }

  /** The layout pass 1 picks for one sector, given the names drawn before it. */
  function ChooseLayout(sb: Sunburst, d: HierarchyNode, sectorRadius: real, drawnFeatureNames: set<string>): TextArcMode {
    var featureInfo := sb.getFeatureInfo(d.f);
    var text := Label(featureInfo, drawnFeatureNames);
    var featureNameExists := featureInfo.name in drawnFeatureNames;
    if TextWidth(sb, text) < sectorRadius then MidLine
    else if !featureNameExists && DoesTextFitArc(sb, d, FontSize(sb), Some(text), ArcPadding) then SectorArc
    else MidLine
  }

  /** The layout of every sector, in order. */
  function Layout(sb: Sunburst, sectors: seq<HierarchyNode>, sectorRadius: real): (modes: seq<TextArcMode>)
    ensures |modes| == |sectors|
  {
    seq(|sectors|, i requires 0 <= i < |sectors| =>
      ChooseLayout(sb, sectors[i], sectorRadius, NamesBefore(sb, sectors, i)))
  }

  // Pass 2: text.

  /** The sector's outer arc length, compared with the text height. */
  function InnerArcLength(sb: Sunburst, d: HierarchyNode): real {
    sb.yScale(d.y1) * (sb.xScale(d.x1) - sb.xScale(d.x0))
  }

  /** A line-laid sector too narrow for any text: pass 2 returns '' for it before recording its name. */
  predicate Suppressed(sb: Sunburst, d: HierarchyNode, mode: TextArcMode) {
    mode == MidLine && InnerArcLength(sb, d) < MaxTextHeight
  }

  /** The names pass 2 has recorded before sector `i`: those of earlier sectors that were not suppressed. */
  function ShownNamesBefore(sb: Sunburst, sectors: seq<HierarchyNode>, modes: seq<TextArcMode>, i: nat): set<string>
    requires |modes| == |sectors| && i <= |sectors|
  {
    set j | 0 <= j < i && !Suppressed(sb, sectors[j], modes[j]) :: NameOf(sb, sectors[j])
  }

  /** The outcome of the shrink loop: the text it leaves, or the fact that it never leaves. */
  datatype ShrinkResult = Shrunk(text: string) | LoopsForever

  /** One turn of the shrink loop: drop the first '...', drop the last character, append '...'. */
  function ShrinkStep(text: string): string {
    DropLast(ReplaceFirst(text, Ellipsis, "")) + Ellipsis
  }

  lemma OccursLength(s: string, pat: string)
    requires Occurs(s, pat)
    ensures |pat| <= |s|
  {
  }

  /** The text ends in '...', as every text after the first turn does. */
  predicate EndsInEllipsis(text: string) {
    |text| >= 3 && text[|text| - 3..] == Ellipsis
  }

  /** A measure that every turn of the shrink loop lowers, except a turn on '...' itself. */
  function ShrinkMeasure(text: string): nat {
    if EndsInEllipsis(text) then |text| else |text| + 4
  }

  /** A text of length 3 holding '...' is '...'. */
  lemma ShortEllipsis(text: string)
    requires Occurs(text, Ellipsis) && |text| == 3
    ensures text == Ellipsis
  {
    var i: nat :| i <= |text| && OccursAt(text, Ellipsis, i);
    assert i == 0;
    assert text == text[0..3];
  }

  /**
   * What one turn does to the text: the result ends in '...'; if the text
   * already held '...' it loses exactly one character; '...' is the only
   * text the turn leaves unchanged.
   */
  lemma {:induction false} ShrinkStepShape(text: string)
    ensures Occurs(ShrinkStep(text), Ellipsis)
    ensures EndsInEllipsis(ShrinkStep(text))
    ensures text == Ellipsis ==> ShrinkStep(text) == Ellipsis
    ensures text != Ellipsis && Occurs(text, Ellipsis) ==> |ShrinkStep(text)| == |text| - 1
    ensures text != Ellipsis && !Occurs(text, Ellipsis) ==> |ShrinkStep(text)| == |DropLast(text)| + 3
    ensures text != Ellipsis ==> ShrinkMeasure(ShrinkStep(text)) < ShrinkMeasure(text)
  {
    var removed := ReplaceFirst(text, Ellipsis, "");
    OccursAtEnd(DropLast(removed), Ellipsis);
    if text == Ellipsis {
      assert OccursAt(text, Ellipsis, 0);
      assert IndexOf(text, Ellipsis) == 0;
      assert removed == [];
    } else if Occurs(text, Ellipsis) {
      OccursLength(text, Ellipsis);
      if |text| == 3 { ShortEllipsis(text); }
      assert |removed| == |text| - 3 >= 1;
    } else if |text| >= 3 {
      assert !OccursAt(text, Ellipsis, |text| - 3);
    }
  }

  /** The turns other than the one on '...' lower the measure. */
  lemma ShrinkStepDecreases(text: string)
    requires text != Ellipsis
    ensures ShrinkMeasure(ShrinkStep(text)) < ShrinkMeasure(text)
  {
    ShrinkStepShape(text);
  }

  /** Every turn leaves a text ending in '...'. */
  lemma ShrinkStepEndsInEllipsis(text: string)
    ensures EndsInEllipsis(ShrinkStep(text))
  {
    ShrinkStepShape(text);
  }

  /**
   * The shrink loop of pass 2, as a function: it stops on the first text whose
   * width is at most `sectorRadius`; once at '...' and still too wide it
   * never stops.
   */
  function Shrink(sb: Sunburst, text: string, sectorRadius: real): ShrinkResult
    decreases ShrinkMeasure(text)
  {
    if TextWidth(sb, text) <= sectorRadius then Shrunk(text)
    else if text == Ellipsis then LoopsForever
    else ShrinkStepDecreases(text); Shrink(sb, ShrinkStep(text), sectorRadius)
  }

  /** The text after `k` turns of the loop body. */
  ghost function Iterate(text: string, k: nat): string
    decreases k
  {
    if k == 0 then text else Iterate(ShrinkStep(text), k - 1)
  }

  /** The text pass 2 gives one sector, given its layout and the names pass 2 drew before it. */
  function SectorText(sb: Sunburst, d: HierarchyNode, mode: TextArcMode, sectorRadius: real,
                      drawnFeatureNames: set<string>): ShrinkResult
  {
    var featureInfo := sb.getFeatureInfo(d.f);
    var text := Label(featureInfo, drawnFeatureNames);
    var onlyShowValue := featureInfo.name in drawnFeatureNames;
    if mode != MidLine then Shrunk(text)
    else if InnerArcLength(sb, d) < MaxTextHeight then Shrunk("")
    else if TextWidth(sb, text) > sectorRadius && !onlyShowValue then Shrink(sb, featureInfo.shortValue, sectorRadius)
    else Shrunk(text)
  }

  /** What drawText leaves behind: every sector's text, or the index of the sector whose shrink loop never ends. */
  datatype TextOutcome = Rendered(texts: seq<string>) | Hangs(at: nat)

  /** Pass 2 from sector `i` on, `texts` holding the texts of the sectors before it. */
  function TextPassFrom(sb: Sunburst, sectors: seq<HierarchyNode>, modes: seq<TextArcMode>, sectorRadius: real,
                        i: nat, texts: seq<string>): (outcome: TextOutcome)
    requires |modes| == |sectors| && i <= |sectors|
    ensures outcome.Rendered? ==> |outcome.texts| == |texts| + |sectors| - i
    ensures outcome.Hangs? ==> i <= outcome.at < |sectors|
    decreases |sectors| - i
  {
    if i == |sectors| then Rendered(texts)
    else match SectorText(sb, sectors[i], modes[i], sectorRadius, ShownNamesBefore(sb, sectors, modes, i))
      case LoopsForever => Hangs(i)
      case Shrunk(text) => TextPassFrom(sb, sectors, modes, sectorRadius, i + 1, texts + [text])
  }

  function TextPass(sb: Sunburst, sectors: seq<HierarchyNode>, modes: seq<TextArcMode>, sectorRadius: real): (outcome: TextOutcome)
    requires |modes| == |sectors|
    ensures outcome.Rendered? ==> |outcome.texts| == |sectors|
    ensures outcome.Hangs? ==> outcome.at < |sectors|
  {
    TextPassFrom(sb, sectors, modes, sectorRadius, 0, [])
  }

  lemma NamesBeforeNext(sb: Sunburst, sectors: seq<HierarchyNode>, i: nat)
    requires i < |sectors|
    ensures NamesBefore(sb, sectors, i + 1) == NamesBefore(sb, sectors, i) + {NameOf(sb, sectors[i])}
  {
  }

  lemma ShownNamesBeforeNext(sb: Sunburst, sectors: seq<HierarchyNode>, modes: seq<TextArcMode>, i: nat)
    requires |modes| == |sectors| && i < |sectors|
    ensures ShownNamesBefore(sb, sectors, modes, i + 1)
            == ShownNamesBefore(sb, sectors, modes, i)
               + (if Suppressed(sb, sectors[i], modes[i]) then {} else {NameOf(sb, sectors[i])})
  {
  }

  /** A turn on a text other than '...' that is too wide leaves the outcome of the loop as it was. */
  lemma ShrinkTurn(sb: Sunburst, text: string, sectorRadius: real)
    requires TextWidth(sb, text) > sectorRadius && text != Ellipsis
    ensures ShrinkMeasure(ShrinkStep(text)) < ShrinkMeasure(text)
    ensures Shrink(sb, ShrinkStep(text), sectorRadius) == Shrink(sb, text, sectorRadius)
  {
    ShrinkStepDecreases(text);
  }

  /** The shrink loop of pass 2 (the `while` of drawText). */
  method ShrinkText(sb: Sunburst, shortValue: string, sectorRadius: real) returns (result: ShrinkResult)
    ensures result == Shrink(sb, shortValue, sectorRadius)
  {
    var text := shortValue;
    var textWidth := TextWidth(sb, text);
    while textWidth > sectorRadius
      invariant textWidth == TextWidth(sb, text)
      invariant Shrink(sb, shortValue, sectorRadius) == Shrink(sb, text, sectorRadius)
      decreases ShrinkMeasure(text)
    {
      if text == Ellipsis {
        // '...' turns into '...' again: the loop of the source never ends here
        return LoopsForever;
      }
      ShrinkTurn(sb, text, sectorRadius);
      text := ReplaceFirst(text, Ellipsis, "");
      text := DropLast(text);
      text := text + Ellipsis;
      textWidth := TextWidth(sb, text);
    }
    return Shrunk(text);
  }

  /**
   * The callback of pass 1 (the `xlink:href` of each text path): picks the
   * layout of one sector and records its name in the drawn set it shares with
   * the other sectors.
   */
  method LayoutSector(sb: Sunburst, d: HierarchyNode, sectorRadius: real, drawnFeatureNames: set<string>)
    returns (mode: TextArcMode, drawnAfter: set<string>)
    ensures mode == ChooseLayout(sb, d, sectorRadius, drawnFeatureNames)
    ensures drawnAfter == drawnFeatureNames + {NameOf(sb, d)}
  {
    var featureInfo := sb.getFeatureInfo(d.f);
    var text := featureInfo.nameValue;
    var featureNameExists := false;
    // If the feature is drawn once, only its value is drawn
    if featureInfo.name in drawnFeatureNames {
      text := featureInfo.value;
      featureNameExists := true;
    }
    drawnAfter := drawnFeatureNames + {featureInfo.name};

    var textWidth := sb.getLatoTextWidth(text, 16.0 * sb.curFontSize);
    if textWidth < sectorRadius {
      mode := MidLine;
    } else if !featureNameExists && DoesTextFitArc(sb, d, 16.0 * sb.curFontSize, Some(text), 10.0) {
      mode := SectorArc;
    } else {
      mode := MidLine;
    }
  }

  /**
   * The callback of pass 2 (the `text` of each text path): the text of one
   * sector, and the drawn set after it; a suppressed sector returns before
   * recording its name.
   */
  method TextSector(sb: Sunburst, d: HierarchyNode, mode: TextArcMode, sectorRadius: real, drawnFeatureNames: set<string>)
    returns (result: ShrinkResult, drawnAfter: set<string>)
    ensures result == SectorText(sb, d, mode, sectorRadius, drawnFeatureNames)
    ensures drawnAfter == drawnFeatureNames + (if Suppressed(sb, d, mode) then {} else {NameOf(sb, d)})
  {
    var featureInfo := sb.getFeatureInfo(d.f);
    var text := featureInfo.nameValue;
    var onlyShowValue := false;
    if featureInfo.name in drawnFeatureNames {
      text := featureInfo.value;
      onlyShowValue := true;
    }
    // Only the middle-line layout is checked and shortened
    if mode == MidLine {
      // a label taller than the inner arc is long is not drawn at all
      var innerArcLength := sb.yScale(d.y1) * (sb.xScale(d.x1) - sb.xScale(d.x0));
      if innerArcLength < MaxTextHeight {
        return Shrunk(""), drawnFeatureNames;
      }
      // a label wider than the sector radius is shortened
      var textWidth := sb.getLatoTextWidth(text, 16.0 * sb.curFontSize);
      if textWidth > sectorRadius {
        if !onlyShowValue {
          text := featureInfo.shortValue;
          var shrunk := ShrinkText(sb, text, sectorRadius);
          if shrunk.LoopsForever? {
            return LoopsForever, drawnFeatureNames + {featureInfo.name};
          }
          text := shrunk.text;
        }
      }
    }
    drawnAfter := drawnFeatureNames + {featureInfo.name};
    result := Shrunk(text);
  }

  /**
   * Pass 1 of drawText (the `d` of every text path): each sector's layout, in
   * order, recorded in the layout map, and the names drawn by the end.
   */
  method LayoutPass(sb: Sunburst, sectors: seq<HierarchyNode>, sectorRadius: real)
    returns (modes: seq<TextArcMode>, textLayoutMap: map<int, TextArcMode>, drawnFeatureNames: set<string>)
    ensures modes == Layout(sb, sectors, sectorRadius)
    ensures forall j :: j in textLayoutMap <==> 0 <= j < |sectors|
    ensures forall j | 0 <= j < |sectors| :: textLayoutMap[j] == modes[j]
    ensures drawnFeatureNames == NamesBefore(sb, sectors, |sectors|)
  {
    drawnFeatureNames := {};
    textLayoutMap := map[];
    modes := [];
    for i := 0 to |sectors|
      invariant drawnFeatureNames == NamesBefore(sb, sectors, i)
      invariant |modes| == i
      invariant forall j | 0 <= j < i :: modes[j] == ChooseLayout(sb, sectors[j], sectorRadius, NamesBefore(sb, sectors, j))
      invariant forall j :: j in textLayoutMap <==> 0 <= j < i
      invariant forall j | 0 <= j < i :: textLayoutMap[j] == modes[j]
    {
      var mode;
      NamesBeforeNext(sb, sectors, i);
      mode, drawnFeatureNames := LayoutSector(sb, sectors[i], sectorRadius, drawnFeatureNames);
      textLayoutMap := textLayoutMap[i := mode];
      modes := modes + [mode];
    }
  }

  /**
   * Pass 2 of drawText (the `text` of every text path), starting from an
   * empty set of drawn names: every sector's text, or the first sector whose
   * shrink loop never ends.
   */
  method TextFillPass(sb: Sunburst, sectors: seq<HierarchyNode>, textLayoutMap: map<int, TextArcMode>,
                      ghost modes: seq<TextArcMode>, sectorRadius: real) returns (outcome: TextOutcome)
    requires |modes| == |sectors|
    requires forall j | 0 <= j < |sectors| :: j in textLayoutMap && textLayoutMap[j] == modes[j]
    ensures outcome == TextPass(sb, sectors, modes, sectorRadius)
  {
    var drawnFeatureNames: set<string> := {};
    var texts: seq<string> := [];
    for i := 0 to |sectors|
      invariant drawnFeatureNames == ShownNamesBefore(sb, sectors, modes, i)
      invariant TextPass(sb, sectors, modes, sectorRadius) == TextPassFrom(sb, sectors, modes, sectorRadius, i, texts)
    {
      var result;
      ShownNamesBeforeNext(sb, sectors, modes, i);
      result, drawnFeatureNames := TextSector(sb, sectors[i], textLayoutMap[i], sectorRadius, drawnFeatureNames);
      if result.LoopsForever? {
        return Hangs(i);
      }
      texts := texts + [result.text];
    }
    outcome := Rendered(texts);
  }

  /**
   * drawText on the visible sectors of the innermost ring, in document order.
   * `modes` is the path each label is attached to (pass 1), `outcome` the text
   * of each label (pass 2), or the sector at which the shrink loop never ends.
   */
  method DrawText(sb: Sunburst, sectors: seq<HierarchyNode>) returns (modes: seq<TextArcMode>, outcome: TextOutcome)
    ensures |modes| == |sectors|
    ensures |sectors| == 0 ==> outcome == Rendered([])
    ensures |sectors| > 0 ==>
      && modes == Layout(sb, sectors, SectorRadius(sb, sectors[0]))
      && outcome == TextPass(sb, sectors, modes, SectorRadius(sb, sectors[0]))
  {
    if |sectors| == 0 {
      return [], Rendered([]);
    }
    var sectorRadius := sb.yScale(sectors[0].y1) - sb.yScale(sectors[0].y0) - SectorPadding;
    assert sectorRadius == SectorRadius(sb, sectors[0]);
    var textLayoutMap, drawnFeatureNames;
    modes, textLayoutMap, drawnFeatureNames := LayoutPass(sb, sectors, sectorRadius);
    // the drawn names are cleared before pass 2, which starts from {}
    outcome := TextFillPass(sb, sectors, textLayoutMap, modes, sectorRadius);
  }
}
