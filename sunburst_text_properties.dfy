/**
 * Properties of the label layout of src/components/sunburst/SunburstText.ts:
 * the shrink loop, the de-duplication of feature names, and what the two
 * passes of drawText guarantee about the labels they produce.
 */
module SunburstTextProperties {
  import opened Wrappers
  import opened Strings
  import opened SunburstText

  // ------------------------------------------------------------ shrink loop

  /** '...' is the fixed point of the loop body. */
  lemma {:induction false} IterateEllipsis(k: nat)
    ensures Iterate(Ellipsis, k) == Ellipsis
    decreases k
  {
    if k > 0 {
      ShrinkStepShape(Ellipsis);
      assert ShrinkStep(Ellipsis) == Ellipsis;
      IterateEllipsis(k - 1);
    }
  }

  /** Every text the loop visits, when it never ends, is wider than the sector radius. */
  lemma {:induction false} LoopsForeverAllWide(sb: Sunburst, text: string, sectorRadius: real)
    requires Shrink(sb, text, sectorRadius) == LoopsForever
    ensures forall k: nat :: TextWidth(sb, Iterate(text, k)) > sectorRadius
    decreases ShrinkMeasure(text)
  {
    if text == Ellipsis {
      forall k: nat ensures TextWidth(sb, Iterate(text, k)) > sectorRadius {
        IterateEllipsis(k);
      }
    } else {
      ShrinkStepDecreases(text);
      var next := ShrinkStep(text);
      LoopsForeverAllWide(sb, next, sectorRadius);
      forall k: nat ensures TextWidth(sb, Iterate(text, k)) > sectorRadius {
        if k > 0 {
          assert Iterate(text, k) == Iterate(next, k - 1);
        }
      }
    }
  }

  /** A loop that visits only texts wider than the sector radius never ends. */
  lemma {:induction false} AllWideLoopsForever(sb: Sunburst, text: string, sectorRadius: real)
    requires forall k: nat :: TextWidth(sb, Iterate(text, k)) > sectorRadius
    ensures Shrink(sb, text, sectorRadius) == LoopsForever
    decreases ShrinkMeasure(text)
  {
    assert Iterate(text, 0) == text;
    if text != Ellipsis {
      ShrinkStepDecreases(text);
      var next := ShrinkStep(text);
      forall k: nat ensures TextWidth(sb, Iterate(next, k)) > sectorRadius {
        assert Iterate(text, k + 1) == Iterate(next, k);
      }
      AllWideLoopsForever(sb, next, sectorRadius);
    }
  }

  /** Every text the loop visits is wider than the sector radius. */
  ghost predicate AllTooWide(sb: Sunburst, text: string, sectorRadius: real) {
    forall k: nat :: TextWidth(sb, Iterate(text, k)) > sectorRadius
  }

  /** The loop never ends exactly when every text it visits is wider than the sector radius. */
  lemma ShrinkLoopsForeverIff(sb: Sunburst, text: string, sectorRadius: real)
    ensures Shrink(sb, text, sectorRadius) == LoopsForever <==> AllTooWide(sb, text, sectorRadius)
  {
    if Shrink(sb, text, sectorRadius) == LoopsForever {
      LoopsForeverAllWide(sb, text, sectorRadius);
    }
    if AllTooWide(sb, text, sectorRadius) {
      AllWideLoopsForever(sb, text, sectorRadius);
    }
  }

  /** A loop that never ends has reached '...' and found it too wide. */
  lemma {:induction false} LoopsForeverEllipsisTooWide(sb: Sunburst, text: string, sectorRadius: real)
    requires Shrink(sb, text, sectorRadius) == LoopsForever
    ensures TextWidth(sb, Ellipsis) > sectorRadius
    decreases ShrinkMeasure(text)
  {
    if text != Ellipsis {
      ShrinkStepDecreases(text);
      LoopsForeverEllipsisTooWide(sb, ShrinkStep(text), sectorRadius);
    }
  }

  /** `k` turns lead to the first text along the loop that fits the sector radius. */
  ghost predicate FirstFit(sb: Sunburst, text: string, sectorRadius: real, k: nat) {
    && TextWidth(sb, Iterate(text, k)) <= sectorRadius
    && forall j: nat | j < k :: TextWidth(sb, Iterate(text, j)) > sectorRadius
  }

  /** When the loop ends, it leaves the first text along the way that fits the sector radius. */
  lemma {:induction false} ShrunkIsFirstFitIterate(sb: Sunburst, text: string, sectorRadius: real)
    requires Shrink(sb, text, sectorRadius).Shrunk?
    ensures exists k: nat | k <= ShrinkMeasure(text) ::
      FirstFit(sb, text, sectorRadius, k) && Shrink(sb, text, sectorRadius).text == Iterate(text, k)
    decreases ShrinkMeasure(text)
  {
    var s := Shrink(sb, text, sectorRadius).text;
    if TextWidth(sb, text) <= sectorRadius {
      assert FirstFit(sb, text, sectorRadius, 0) && s == Iterate(text, 0);
    } else {
      ShrinkStepDecreases(text);
      var next := ShrinkStep(text);
      assert Shrink(sb, text, sectorRadius) == Shrink(sb, next, sectorRadius);
      ShrunkIsFirstFitIterate(sb, next, sectorRadius);
      var k: nat :| k <= ShrinkMeasure(next) && FirstFit(sb, next, sectorRadius, k) && s == Iterate(next, k);
      assert Iterate(text, k + 1) == Iterate(next, k);
      forall j: nat | j < k + 1 ensures TextWidth(sb, Iterate(text, j)) > sectorRadius {
        if j > 0 { assert Iterate(text, j) == Iterate(next, j - 1); }
      }
      assert FirstFit(sb, text, sectorRadius, k + 1);
    }
  }

  /**
   * When the loop ends, the text it leaves fits the sector radius, and it is
   * the FIRST text along the loop that does, reached within |text| + 4 turns.
   */
  lemma ShrunkTextIsFirstFit(sb: Sunburst, text: string, sectorRadius: real)
    requires Shrink(sb, text, sectorRadius).Shrunk?
    ensures TextWidth(sb, Shrink(sb, text, sectorRadius).text) <= sectorRadius
    ensures exists k: nat | k <= |text| + 4 ::
      FirstFit(sb, text, sectorRadius, k) && Shrink(sb, text, sectorRadius).text == Iterate(text, k)
  {
    ShrunkIsFirstFitIterate(sb, text, sectorRadius);
  }

  /** If '...' alone fits, the loop always ends. */
  lemma ShrinkEndsWhenEllipsisFits(sb: Sunburst, text: string, sectorRadius: real)
    requires TextWidth(sb, Ellipsis) <= sectorRadius
    ensures Shrink(sb, text, sectorRadius).Shrunk?
  {
    if Shrink(sb, text, sectorRadius) == LoopsForever {
      LoopsForeverEllipsisTooWide(sb, text, sectorRadius);
    }
  }

  /**
   * If '...' alone is wider than the sector radius and no text ending in
   * '...' is narrower than '...' alone, a text that starts too wide sends the
   * loop round forever.
   */
  lemma ShrinkLoopsWhenEllipsisTooWide(sb: Sunburst, text: string, sectorRadius: real)
    requires forall prefix :: TextWidth(sb, prefix + Ellipsis) >= TextWidth(sb, Ellipsis)
    requires TextWidth(sb, Ellipsis) > sectorRadius
    requires TextWidth(sb, text) > sectorRadius
    ensures Shrink(sb, text, sectorRadius) == LoopsForever
  {
    forall k: nat ensures TextWidth(sb, Iterate(text, k)) > sectorRadius {
      if k > 0 {
        IterateEndsInEllipsis(text, k);
        var it := Iterate(text, k);
        assert it == it[..|it| - 3] + Ellipsis;
      }
    }
    ShrinkLoopsForeverIff(sb, text, sectorRadius);
  }

  lemma {:induction false} IterateEndsInEllipsis(text: string, k: nat)
    requires k > 0
    ensures EndsInEllipsis(Iterate(text, k))
    decreases k
  {
    if k > 1 {
      IterateEndsInEllipsis(ShrinkStep(text), k - 1);
    } else {
      ShrinkStepEndsInEllipsis(text);
    }
  }

  // ------------------------------------------------------------ pass 1

  /**
   * De-duplication in pass 1: a sector's candidate text is the full label
   * exactly when no earlier sector has the same feature name, and the bare
   * value otherwise.
   */
  lemma LayoutLabelIsFirstOccurrence(sb: Sunburst, sectors: seq<HierarchyNode>, i: nat)
    requires i < |sectors|
    ensures var info := sb.getFeatureInfo(sectors[i].f);
      Label(info, NamesBefore(sb, sectors, i))
        == if exists j | 0 <= j < i :: NameOf(sb, sectors[j]) == info.name then info.value else info.nameValue
  {
  }

  /**
   * A sector is laid on its arc only when its name is shown for the first
   * time, its full label is too wide for the line, and the label fits the arc
   * with a padding of 10.
   */
  lemma ArcLayoutOnlyForFirstOccurrence(sb: Sunburst, sectors: seq<HierarchyNode>, sectorRadius: real, i: nat)
    requires i < |sectors|
    requires Layout(sb, sectors, sectorRadius)[i] == SectorArc
    ensures var info := sb.getFeatureInfo(sectors[i].f);
      && (forall j | 0 <= j < i :: NameOf(sb, sectors[j]) != info.name)
      && TextWidth(sb, info.nameValue) >= sectorRadius
      && DoesTextFitArc(sb, sectors[i], FontSize(sb), Some(info.nameValue), ArcPadding)
  {
    var info := sb.getFeatureInfo(sectors[i].f);
    forall j | 0 <= j < i ensures NameOf(sb, sectors[j]) != info.name {
      assert NameOf(sb, sectors[j]) in NamesBefore(sb, sectors, i);
    }
  }

  /** Of the sectors sharing a feature name, only the first can be laid on its arc. */
  lemma AtMostOneArcPerName(sb: Sunburst, sectors: seq<HierarchyNode>, sectorRadius: real, i: nat, j: nat)
    requires i < j < |sectors|
    requires NameOf(sb, sectors[i]) == NameOf(sb, sectors[j])
    ensures Layout(sb, sectors, sectorRadius)[j] == MidLine
  {
    if Layout(sb, sectors, sectorRadius)[j] == SectorArc {
      ArcLayoutOnlyForFirstOccurrence(sb, sectors, sectorRadius, j);
    }
  }

  // ------------------------------------------------------------ pass 2

  /** Pass 2 records no more names than pass 1 did: only the suppressed sectors' names are missing. */
  lemma ShownNamesWithinNames(sb: Sunburst, sectors: seq<HierarchyNode>, modes: seq<TextArcMode>, i: nat)
    requires |modes| == |sectors| && i <= |sectors|
    ensures ShownNamesBefore(sb, sectors, modes, i) <= NamesBefore(sb, sectors, i)
  {
  }

  /** Pass 2 produces a text for every sector in order, or stops at the first sector whose loop never ends. */
  lemma {:induction false} TextPassFromShape(sb: Sunburst, sectors: seq<HierarchyNode>, modes: seq<TextArcMode>,
                                             sectorRadius: real, i: nat, texts: seq<string>)
    requires |modes| == |sectors| && i <= |sectors| && |texts| == i
    ensures var outcome := TextPassFrom(sb, sectors, modes, sectorRadius, i, texts);
      && (outcome.Rendered? <==>
            forall j | i <= j < |sectors| :: SectorText(sb, sectors[j], modes[j], sectorRadius,
                                                        ShownNamesBefore(sb, sectors, modes, j)).Shrunk?)
      && (outcome.Rendered? ==>
            && |outcome.texts| == |sectors| && outcome.texts[..i] == texts
            && forall j | i <= j < |sectors| ::
                 SectorText(sb, sectors[j], modes[j], sectorRadius, ShownNamesBefore(sb, sectors, modes, j))
                 == Shrunk(outcome.texts[j]))
      && (outcome.Hangs? ==>
            && i <= outcome.at < |sectors|
            && SectorText(sb, sectors[outcome.at], modes[outcome.at], sectorRadius,
                          ShownNamesBefore(sb, sectors, modes, outcome.at)) == LoopsForever
            && forall j | i <= j < outcome.at :: SectorText(sb, sectors[j], modes[j], sectorRadius,
                                                           ShownNamesBefore(sb, sectors, modes, j)).Shrunk?)
  {
    TextPassFromRenders(sb, sectors, modes, sectorRadius, i, texts);
    TextPassFromTexts(sb, sectors, modes, sectorRadius, i, texts);
    TextPassFromHangs(sb, sectors, modes, sectorRadius, i, texts);
  }

  lemma {:induction false} TextPassFromRenders(sb: Sunburst, sectors: seq<HierarchyNode>, modes: seq<TextArcMode>,
                                               sectorRadius: real, i: nat, texts: seq<string>)
    requires |modes| == |sectors| && i <= |sectors|
    ensures TextPassFrom(sb, sectors, modes, sectorRadius, i, texts).Rendered? <==>
            forall j | i <= j < |sectors| :: SectorText(sb, sectors[j], modes[j], sectorRadius,
                                                        ShownNamesBefore(sb, sectors, modes, j)).Shrunk?
    decreases |sectors| - i
  {
    if i < |sectors| {
      var r := SectorText(sb, sectors[i], modes[i], sectorRadius, ShownNamesBefore(sb, sectors, modes, i));
      if r.Shrunk? {
        TextPassFromRenders(sb, sectors, modes, sectorRadius, i + 1, texts + [r.text]);
      }
    }
  }

  lemma {:induction false} TextPassFromTexts(sb: Sunburst, sectors: seq<HierarchyNode>, modes: seq<TextArcMode>,
                                             sectorRadius: real, i: nat, texts: seq<string>)
    requires |modes| == |sectors| && i <= |sectors| && |texts| == i
    ensures var outcome := TextPassFrom(sb, sectors, modes, sectorRadius, i, texts);
      outcome.Rendered? ==>
        && |outcome.texts| == |sectors| && outcome.texts[..i] == texts
        && forall j | i <= j < |sectors| ::
             SectorText(sb, sectors[j], modes[j], sectorRadius, ShownNamesBefore(sb, sectors, modes, j))
             == Shrunk(outcome.texts[j])
    decreases |sectors| - i
  {
    if i < |sectors| {
      var r := SectorText(sb, sectors[i], modes[i], sectorRadius, ShownNamesBefore(sb, sectors, modes, i));
      if r.Shrunk? {
        TextPassFromTexts(sb, sectors, modes, sectorRadius, i + 1, texts + [r.text]);
        var outcome := TextPassFrom(sb, sectors, modes, sectorRadius, i + 1, texts + [r.text]);
        if outcome.Rendered? {
          assert outcome.texts[..i + 1][..i] == outcome.texts[..i];
        }
      }
    }
  }

  lemma {:induction false} TextPassFromHangs(sb: Sunburst, sectors: seq<HierarchyNode>, modes: seq<TextArcMode>,
                                             sectorRadius: real, i: nat, texts: seq<string>)
    requires |modes| == |sectors| && i <= |sectors|
    ensures var outcome := TextPassFrom(sb, sectors, modes, sectorRadius, i, texts);
      outcome.Hangs? ==>
        && SectorText(sb, sectors[outcome.at], modes[outcome.at], sectorRadius,
                      ShownNamesBefore(sb, sectors, modes, outcome.at)) == LoopsForever
        && forall j | i <= j < outcome.at :: SectorText(sb, sectors[j], modes[j], sectorRadius,
                                                       ShownNamesBefore(sb, sectors, modes, j)).Shrunk?
    decreases |sectors| - i
  {
    if i < |sectors| {
      var r := SectorText(sb, sectors[i], modes[i], sectorRadius, ShownNamesBefore(sb, sectors, modes, i));
      if r.Shrunk? {
        TextPassFromHangs(sb, sectors, modes, sectorRadius, i + 1, texts + [r.text]);
        var outcome := TextPassFrom(sb, sectors, modes, sectorRadius, i + 1, texts + [r.text]);
        assert TextPassFrom(sb, sectors, modes, sectorRadius, i, texts) == outcome;
        if outcome.Hangs? {
          forall j | i <= j < outcome.at
            ensures SectorText(sb, sectors[j], modes[j], sectorRadius, ShownNamesBefore(sb, sectors, modes, j)).Shrunk?
          {
            if j == i {
              assert SectorText(sb, sectors[j], modes[j], sectorRadius, ShownNamesBefore(sb, sectors, modes, j)) == r;
            }
          }
        }
      }
    }
  }

  /** The text of sector `i` in a complete pass 2. */
  lemma RenderedText(sb: Sunburst, sectors: seq<HierarchyNode>, modes: seq<TextArcMode>, sectorRadius: real, i: nat)
    requires |modes| == |sectors| && i < |sectors|
    requires TextPass(sb, sectors, modes, sectorRadius).Rendered?
    ensures |TextPass(sb, sectors, modes, sectorRadius).texts| == |sectors|
    ensures SectorText(sb, sectors[i], modes[i], sectorRadius, ShownNamesBefore(sb, sectors, modes, i))
            == Shrunk(TextPass(sb, sectors, modes, sectorRadius).texts[i])
  {
    TextPassFromShape(sb, sectors, modes, sectorRadius, 0, []);
  }

  /**
   * Arc labels are never re-checked in pass 2, and need not be: a sector laid
   * on its arc gets its full label, which pass 1 measured to fit the arc with a
   * padding of 10.
   */
  lemma ArcLabelIsFullAndFits(sb: Sunburst, sectors: seq<HierarchyNode>, sectorRadius: real, i: nat)
    requires i < |sectors|
    requires Layout(sb, sectors, sectorRadius)[i] == SectorArc
    requires TextPass(sb, sectors, Layout(sb, sectors, sectorRadius), sectorRadius).Rendered?
    ensures var text := TextPass(sb, sectors, Layout(sb, sectors, sectorRadius), sectorRadius).texts[i];
      && text == sb.getFeatureInfo(sectors[i].f).nameValue
      && DoesTextFitArc(sb, sectors[i], FontSize(sb), Some(text), ArcPadding)
  {
    var modes := Layout(sb, sectors, sectorRadius);
    RenderedText(sb, sectors, modes, sectorRadius, i);
    ArcLayoutOnlyForFirstOccurrence(sb, sectors, sectorRadius, i);
    ShownNamesWithinNames(sb, sectors, modes, i);
    var info := sb.getFeatureInfo(sectors[i].f);
    assert info.name !in NamesBefore(sb, sectors, i);
  }

  /** A line-laid sector whose outer arc is shorter than the text height gets no text, whatever its label. */
  lemma NarrowLineIsBlank(sb: Sunburst, sectors: seq<HierarchyNode>, modes: seq<TextArcMode>, sectorRadius: real, i: nat)
    requires |modes| == |sectors| && i < |sectors|
    requires modes[i] == MidLine && InnerArcLength(sb, sectors[i]) < MaxTextHeight
    requires TextPass(sb, sectors, modes, sectorRadius).Rendered?
    ensures TextPass(sb, sectors, modes, sectorRadius).texts[i] == ""
  {
    RenderedText(sb, sectors, modes, sectorRadius, i);
  }

  /**
   * A line label wider than the sector radius is always a bare value left
   * untruncated: every label that shows the name is shortened until it fits.
   */
  lemma WideLineLabelIsValueOnly(sb: Sunburst, sectors: seq<HierarchyNode>, modes: seq<TextArcMode>, sectorRadius: real, i: nat)
    requires |modes| == |sectors| && i < |sectors|
    requires modes[i] == MidLine && InnerArcLength(sb, sectors[i]) >= MaxTextHeight
    requires TextPass(sb, sectors, modes, sectorRadius).Rendered?
    requires TextWidth(sb, TextPass(sb, sectors, modes, sectorRadius).texts[i]) > sectorRadius
    ensures var info := sb.getFeatureInfo(sectors[i].f);
      && TextPass(sb, sectors, modes, sectorRadius).texts[i] == info.value
      && info.name in ShownNamesBefore(sb, sectors, modes, i)
  {
    RenderedText(sb, sectors, modes, sectorRadius, i);
    var info := sb.getFeatureInfo(sectors[i].f);
    var drawn := ShownNamesBefore(sb, sectors, modes, i);
    if TextWidth(sb, Label(info, drawn)) > sectorRadius && info.name !in drawn {
      ShrunkTextIsFirstFit(sb, info.shortValue, sectorRadius);
    }
  }

  /**
   * De-duplication in pass 2: the full label is shown unless an earlier sector
   * with the same name was given text; names of suppressed sectors do not count.
   */
  lemma TextLabelIsFirstShown(sb: Sunburst, sectors: seq<HierarchyNode>, modes: seq<TextArcMode>, i: nat)
    requires |modes| == |sectors| && i < |sectors|
    ensures var info := sb.getFeatureInfo(sectors[i].f);
      Label(info, ShownNamesBefore(sb, sectors, modes, i))
        == if exists j | 0 <= j < i :: !Suppressed(sb, sectors[j], modes[j]) && NameOf(sb, sectors[j]) == info.name
           then info.value else info.nameValue
  {
  }

  /** If '...' alone fits the sector radius, drawText always finishes. */
  lemma NoHangWhenEllipsisFits(sb: Sunburst, sectors: seq<HierarchyNode>, modes: seq<TextArcMode>, sectorRadius: real)
    requires |modes| == |sectors|
    requires TextWidth(sb, Ellipsis) <= sectorRadius
    ensures TextPass(sb, sectors, modes, sectorRadius).Rendered?
  {
    TextPassFromShape(sb, sectors, modes, sectorRadius, 0, []);
    forall j | 0 <= j < |sectors|
      ensures SectorText(sb, sectors[j], modes[j], sectorRadius, ShownNamesBefore(sb, sectors, modes, j)).Shrunk?
    {
      ShrinkEndsWhenEllipsisFits(sb, sb.getFeatureInfo(sectors[j].f).shortValue, sectorRadius);
    }
  }

  /**
   * drawText hangs only at a line-laid, legible sector that shows its name
   * for the first time, whose full label is too wide, and whose short label
   * stays too wide at every turn of the loop, '...' included.
   */
  lemma HangCause(sb: Sunburst, sectors: seq<HierarchyNode>, modes: seq<TextArcMode>, sectorRadius: real)
    requires |modes| == |sectors|
    requires TextPass(sb, sectors, modes, sectorRadius).Hangs?
    ensures var h := TextPass(sb, sectors, modes, sectorRadius).at;
      && h < |sectors|
      && var info := sb.getFeatureInfo(sectors[h].f);
      && modes[h] == MidLine
      && InnerArcLength(sb, sectors[h]) >= MaxTextHeight
      && info.name !in ShownNamesBefore(sb, sectors, modes, h)
      && TextWidth(sb, info.nameValue) > sectorRadius
      && TextWidth(sb, Ellipsis) > sectorRadius
      && AllTooWide(sb, info.shortValue, sectorRadius)
  {
    TextPassFromShape(sb, sectors, modes, sectorRadius, 0, []);
    var h := TextPass(sb, sectors, modes, sectorRadius).at;
    var info := sb.getFeatureInfo(sectors[h].f);
    ShrinkLoopsForeverIff(sb, info.shortValue, sectorRadius);
    LoopsForeverEllipsisTooWide(sb, info.shortValue, sectorRadius);
  }

  /**
   * Three sectors whose tokens are 'age:>30', 'age:>30' and 'income:high',
   * with room for every label on its line: the repeated name is dropped from
   * the second label.
   */
  lemma RepeatedNameShowsValueOnly(sb: Sunburst)
    requires forall text, size :: sb.getLatoTextWidth(text, size) == 0.0
    requires forall x :: sb.xScale(x) == 10.0 * x
    requires forall y :: sb.yScale(y) == 100.0 * y
    requires forall f :: (sb.getFeatureInfo(f) ==
                           if f == "income:high" then FeatureInfo("income", "high", "income: high", "inc: high")
                           else FeatureInfo("age", ">30", "age: >30", "age: >30"))
    ensures var sectors := [HierarchyNode(0.0, 0.25, 1.0, 2.0, "age:>30"),
                            HierarchyNode(0.25, 0.5, 1.0, 2.0, "age:>30"),
                            HierarchyNode(0.5, 1.0, 1.0, 2.0, "income:high")];
      var radius := SectorRadius(sb, sectors[0]);
      && Layout(sb, sectors, radius) == [MidLine, MidLine, MidLine]
      && TextPass(sb, sectors, Layout(sb, sectors, radius), radius) == Rendered(["age: >30", ">30", "income: high"])
  {
    var sectors := [HierarchyNode(0.0, 0.25, 1.0, 2.0, "age:>30"),
                    HierarchyNode(0.25, 0.5, 1.0, 2.0, "age:>30"),
                    HierarchyNode(0.5, 1.0, 1.0, 2.0, "income:high")];
    var radius := SectorRadius(sb, sectors[0]);
    assert radius == 85.0;
    var modes := Layout(sb, sectors, radius);
    assert NameOf(sb, sectors[0]) == "age" && NameOf(sb, sectors[2]) == "income";
    assert NamesBefore(sb, sectors, 1) == {"age"};
    assert NamesBefore(sb, sectors, 2) == {"age"};
    assert modes == [MidLine, MidLine, MidLine];
    assert InnerArcLength(sb, sectors[0]) == 500.0;
    assert InnerArcLength(sb, sectors[1]) == 500.0;
    assert InnerArcLength(sb, sectors[2]) == 1000.0;
    assert ShownNamesBefore(sb, sectors, modes, 0) == {};
    assert ShownNamesBefore(sb, sectors, modes, 1) == {"age"};
    assert ShownNamesBefore(sb, sectors, modes, 2) == {"age"};
    assert TextPassFrom(sb, sectors, modes, radius, 3, ["age: >30", ">30", "income: high"])
           == Rendered(["age: >30", ">30", "income: high"]);
    assert TextPassFrom(sb, sectors, modes, radius, 2, ["age: >30", ">30"])
           == Rendered(["age: >30", ">30", "income: high"]);
    assert TextPassFrom(sb, sectors, modes, radius, 1, ["age: >30"])
           == Rendered(["age: >30", ">30", "income: high"]);
  }
}
