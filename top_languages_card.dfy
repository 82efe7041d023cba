/**
 * Card 1, the top-five languages card: one row per language among the first
 * five entries, each a label, a grey track of fixed width and a coloured fill
 * whose width is the language's percentage of the track, then the percentage.
 */
module TopLanguagesCard {
  import opened Svg
  import opened Aggregation
  import opened Percentages

  /** `len(items[:5])`. */
  function RowCount(n: nat): nat
  {
    if n < 5 then n else 5
  }

  /** Baseline of row `i`: `title_y + 22 + i * row_h`. */
  function Baseline(i: nat): real
  {
    (54 + 34 * i) as real
  }

  /** What row `i` draws for entry `it`: label, track, fill, percentage. */
  function BarRow(i: nat, it: Item): seq<Primitive>
  {
    var y := Baseline(i);
    [ SvgText(20.0, y, Plain(it.lang), 13, 600),
      Rect(150.0, y - 10.0, 270.0, 10.0, 5.0, TrackColor),
      Rect(150.0, y - 10.0, it.pct / 100.0 * 270.0, 10.0, 5.0, PaletteColor(i)),
      SvgText(428.0, y, Percent(it.pct), 13, 600) ]
  }

  /** The layout of the card, in closed form. */
  function TopCard(items: seq<Item>): Card
  {
    var rows := RowCount(|items|);
    Card(CardWidth, 102 + 34 * rows,
         [Background(12.0, DarkBg), Title("Most Used Languages")],
         seq(rows, i requires 0 <= i < rows => BarRow(i, items[i])),
         [])
  }

  /** `render_top_languages_card`, less the markup text and the file write. */
  method RenderTopLanguagesCard(items: seq<Item>) returns (card: Card)
    ensures card == TopCard(items)
  {
    var top := if |items| <= 5 then items else items[..5];
    var rows := |top|;

    var width := CardWidth;
    var padding := 20;
    var titleY := 32;
    var rowH := 34;
    var barH := 10;

    var barX := padding + 130;
    var barW := width - barX - padding - 60;

    var height := padding + titleY + rows * rowH + 50;

    var head := [Background(12.0, DarkBg)];
    head := head + [SvgText(padding as real, titleY as real, Plain("Most Used Languages"), 20, 700, TitleColor)];

    var y0 := titleY + 22;

    var body: seq<seq<Primitive>> := [];
    for i := 0 to rows
      invariant |body| == i
      invariant forall j :: 0 <= j < i ==> body[j] == BarRow(j, items[j])
    {
      var it := top[i];
      var y := y0 + i * rowH;
      assert it == items[i] && y == 54 + 34 * i && barW == 270;
      assert y as real == Baseline(i) && (y - 10) as real == Baseline(i) - 10.0;

      var row := [SvgText(padding as real, y as real, Plain(it.lang), 13, 600)];

      var trackY := y - 10;
      row := row + [Rect(barX as real, trackY as real, barW as real, barH as real, 5.0, TrackColor)];

      var fillW := (it.pct / 100.0) * barW as real;
      row := row + [Rect(barX as real, trackY as real, fillW, barH as real, 5.0, Palette[i % |Palette|])];

      row := row + [SvgText((barX + barW + 8) as real, y as real, Percent(it.pct), 13, 600)];
      assert row[0] == BarRow(i, items[i])[0];
      assert row[1] == BarRow(i, items[i])[1];
      assert row[2] == BarRow(i, items[i])[2];
      assert row[3] == BarRow(i, items[i])[3];
      assert row == BarRow(i, items[i]);
      body := body + [row];
    }
    card := Card(width, height, head, body, []);
  }

  // ---------------------------------------------------------------------------
  // Properties

  /** The card shows the first `min(5, n)` entries; its height grows by 34 per row. */
  lemma TopCardRows(items: seq<Item>)
    ensures |TopCard(items).rows| == RowCount(|items|) <= 5
    ensures |items| >= 5 ==> |TopCard(items).rows| == 5
    ensures |items| < 5 ==> |TopCard(items).rows| == |items|
    ensures TopCard(items).width == 500
    ensures TopCard(items).height == 102 + 34 * |TopCard(items).rows|
    ensures forall i :: 0 <= i < |TopCard(items).rows| ==>
      var text := TopCard(items).rows[i][0];
      text.Text? && text.y == (54 + 34 * i) as real && text.content == Plain(items[i].lang)
  {
  }

  /** With a percentage in [0, 100], the fill sits at the track's origin and is
      between 0 and the track's full width of 270; it is coloured by the row's
      palette slot. */
  lemma FillWithinTrack(items: seq<Item>, i: nat)
    requires i < |TopCard(items).rows|
    requires 0.0 <= items[i].pct <= 100.0
    ensures var track, fill := TopCard(items).rows[i][1], TopCard(items).rows[i][2];
      && track.Rect? && fill.Rect?
      && fill.x == track.x == 150.0 && fill.y == track.y && fill.h == track.h
      && track.w == 270.0
      && 0.0 <= fill.w <= track.w
      && fill.fill == Palette[i % 8]
  {
    var p := items[i].pct;
    assert 0.0 <= p / 100.0 <= 1.0;
    assert p / 100.0 * 270.0 <= 270.0;
  }

  /** Every row's track, and with it the fill it bounds, lies inside the card:
      below the title, above the bottom margin of 50, and left of the
      percentage column. */
  lemma TrackInsideCard(items: seq<Item>, i: nat)
    requires i < |TopCard(items).rows|
    ensures var c := TopCard(items);
      var track := c.rows[i][1];
      && track.Rect?
      && 32.0 < track.y
      && track.y + track.h + 50.0 <= c.height as real
      && 0.0 <= track.x
      && track.x + track.w < c.rows[i][3].x < c.width as real
  {
  }

  /** Rows are stacked 34 apart and their tracks never overlap. */
  lemma RowsStacked(items: seq<Item>, i: nat, j: nat)
    requires i < j < |TopCard(items).rows|
    ensures var c := TopCard(items);
      && c.rows[i][1].Rect? && c.rows[j][1].Rect?
      && c.rows[i][1].y + c.rows[i][1].h < c.rows[j][1].y
      && c.rows[j][0].y - c.rows[i][0].y == (34 * (j - i)) as real
  {
  }

  /** The card emits its background and title, four primitives per row and
      nothing after the rows. */
  lemma TopCardPrimitiveCount(items: seq<Item>)
    ensures |Primitives(TopCard(items))| == 2 + 4 * RowCount(|items|)
  {
    FlattenLength(TopCard(items).rows, 4);
  }

  /** Fed by `compute_percentages`, the card shows the largest languages: no
      entry left off the card has more bytes than one shown, and every fill
      stays within its track. */
  lemma TopCardOfPercentages(d: LangBytes)
    ensures var items := ComputePercentages(d);
      forall i, k :: 0 <= i < |TopCard(items).rows| <= k < |items| ==> items[i].bytes >= items[k].bytes
    ensures var items := ComputePercentages(d);
      forall i :: 0 <= i < |TopCard(items).rows| ==>
        TopCard(items).rows[i][2].Rect? &&
        0.0 <= TopCard(items).rows[i][2].w <= TopCard(items).rows[i][1].w
  {
    var items := ComputePercentages(d);
    PercentagesInRange(d);
    forall i | 0 <= i < |TopCard(items).rows|
      ensures TopCard(items).rows[i][2].Rect?
      ensures 0.0 <= TopCard(items).rows[i][2].w <= TopCard(items).rows[i][1].w
    {
      FillWithinTrack(items, i);
    }
  }
}
