/**
 * Card 3, the full two-column language list: entry `idx` goes to column 0 when
 * `idx < per_col` with `per_col = (n + 1) // 2`, otherwise to column 1; each
 * entry is a coloured dot, the language name and its right-aligned percentage.
 */
module LanguagesListCard {
  import opened Svg
  import opened Percentages

  /** `per_col = (len(items) + 1) // 2`: the rows of the taller column. */
  function PerColumn(n: nat): nat
  {
    (n + 1) / 2
  }

  /** `col = 0 if idx < per_col else 1`. */
  function Column(idx: nat, n: nat): nat
  {
    if idx < PerColumn(n) then 0 else 1
  }

  /** `row = idx if col == 0 else idx - per_col`. */
  function RowOf(idx: nat, n: nat): nat
  {
    if idx < PerColumn(n) then idx else idx - PerColumn(n)
  }

  /** `col_x = [padding, width // 2 + 10]`. */
  function ColumnX(col: nat): int
  {
    if col == 0 then 20 else 260
  }

  /** What entry `idx` of `n` draws: dot, name, right-aligned percentage. */
  function ListEntry(idx: nat, n: nat, it: Item): seq<Primitive>
  {
    var x := ColumnX(Column(idx, n));
    var y := 54 + 24 * RowOf(idx, n);
    [ Dot((x + 6) as real, (y - 6) as real, 5.0, PaletteColor(idx)),
      SvgText((x + 20) as real, (y - 2) as real, Plain(it.lang), 12, 600),
      SvgText((x + 224) as real, (y - 2) as real, Percent(it.pct), 12, 600, TextColor, End) ]
  }

  /** The layout of the card, in closed form. */
  function ListCard(items: seq<Item>): Card
  {
    var n := |items|;
    Card(CardWidth, 102 + 24 * PerColumn(n),
         [Background(12.0, DarkBg), Title("Languages Breakdown")],
         seq(n, idx requires 0 <= idx < n => ListEntry(idx, n, items[idx])),
         [])
  }

  /** `render_languages_list_card`, less the markup text and the file write. */
  method RenderLanguagesListCard(items: seq<Item>) returns (card: Card)
    ensures card == ListCard(items)
  {
    var padding := 20;
    var titleY := 32;
    var rowH := 24;

    var perCol := (|items| + 1) / 2;

    var height := padding + titleY + perCol * rowH + 50;
    var width := CardWidth;

    var head := [Background(12.0, DarkBg)];
    head := head + [SvgText(padding as real, titleY as real, Plain("Languages Breakdown"), 20, 700, TitleColor)];

    var colX := [padding, width / 2 + 10];
    var startY := titleY + 22;

    var body: seq<seq<Primitive>> := [];
    for idx := 0 to |items|
      invariant |body| == idx
      invariant forall j :: 0 <= j < idx ==> body[j] == ListEntry(j, |items|, items[j])
    {
      var it := items[idx];
      var col := if idx < perCol then 0 else 1;
      var row := if col == 0 then idx else idx - perCol;

      var x := colX[col];
      var y := startY + row * rowH;

      var color := Palette[idx % |Palette|];
      var entry := [Dot((x + 6) as real, (y - 6) as real, 5.0, color)];
      entry := entry + [SvgText((x + 20) as real, (y - 2) as real, Plain(it.lang), 12, 600)];
      entry := entry + [SvgText((x + (width / 2 - padding) - 6) as real, (y - 2) as real, Percent(it.pct),
                                12, 600, anchor := End)];
      body := body + [entry];
    }
    card := Card(width, height, head, body, []);
  }

  // ---------------------------------------------------------------------------
  // The split into columns

  /** How many of the entries `0 .. k-1` of `n` land in column `col`. */
  function CountInColumn(n: nat, col: nat, k: nat): nat
  {
    if k == 0 then 0
    else CountInColumn(n, col, k - 1) + (if Column(k - 1, n) == col then 1 else 0)
  }

  lemma {:induction false} CountPrefix(n: nat, k: nat)
    requires k <= n
    ensures CountInColumn(n, 0, k) == if k < PerColumn(n) then k else PerColumn(n)
    ensures CountInColumn(n, 1, k) == if k < PerColumn(n) then 0 else k - PerColumn(n)
  {
    if k > 0 {
      CountPrefix(n, k - 1);
    }
  }

  /** Column 0 receives `ceil(n / 2)` entries and column 1 `floor(n / 2)`;
      a single entry leaves column 1 empty. */
  lemma ColumnSizes(n: nat)
    ensures CountInColumn(n, 0, n) == PerColumn(n) == n / 2 + n % 2
    ensures CountInColumn(n, 1, n) == n / 2
    ensures n == 1 ==> CountInColumn(n, 1, n) == 0
  {
    CountPrefix(n, n);
  }

  /** Every entry's row is below `per_col`, column 1 only holds rows below
      `n / 2`, and no two entries share a (column, row) slot. */
  lemma SlotsArePartition(n: nat)
    ensures forall idx :: 0 <= idx < n ==> Column(idx, n) <= 1 && RowOf(idx, n) < PerColumn(n)
    ensures forall idx :: 0 <= idx < n && Column(idx, n) == 1 ==> RowOf(idx, n) < n / 2
    ensures forall idx, idx' :: 0 <= idx < idx' < n ==>
      (Column(idx, n), RowOf(idx, n)) != (Column(idx', n), RowOf(idx', n))
  {
  }

  /** Conversely, every slot is filled: each row below `per_col` of column 0,
      and each row below `n / 2` of column 1, holds an entry. */
  lemma SlotFilled(n: nat, col: nat, r: nat) returns (idx: nat)
    requires col <= 1
    requires r < if col == 0 then PerColumn(n) else n / 2
    ensures idx < n && Column(idx, n) == col && RowOf(idx, n) == r
  {
    if col == 0 {
      idx := r;
    } else {
      idx := PerColumn(n) + r;
    }
  }

  // ---------------------------------------------------------------------------
  // Geometry

  /** The card is 500 wide and its height grows by 24 per row of the taller column. */
  lemma ListCardSize(items: seq<Item>)
    ensures ListCard(items).width == 500
    ensures ListCard(items).height == 102 + 24 * PerColumn(|items|)
    ensures |ListCard(items).rows| == |items|
  {
  }

  /** The two columns start at x = 20 and x = 260; everything an entry draws
      stays within its column's 224-wide band, the bands are disjoint and lie
      inside the card, and every dot lies between the title and the card's
      bottom margin. */
  lemma EntryInsideItsColumn(items: seq<Item>, idx: nat)
    requires idx < |items|
    ensures var n, e := |items|, ListCard(items).rows[idx];
      var x := ColumnX(Column(idx, n)) as real;
      && (x == 20.0 || x == 260.0)
      && e[0].Dot? && e[1].Text? && e[2].Text?
      && x <= e[0].cx - e[0].r && e[0].cx + e[0].r < e[1].x < e[2].x <= x + 224.0
      && (Column(idx, n) == 0 ==> e[2].x < 260.0)
      && e[2].x < ListCard(items).width as real
      && 32.0 < e[0].cy - e[0].r
      && e[0].cy + e[0].r + 50.0 <= ListCard(items).height as real
  {
    var n := |items|;
    assert RowOf(idx, n) < PerColumn(n);
  }

  /** The card emits its background and title, then three primitives per
      entry. */
  lemma ListCardPrimitiveCount(items: seq<Item>)
    ensures |Primitives(ListCard(items))| == 2 + 3 * |items|
  {
    FlattenLength(ListCard(items).rows, 3);
  }

  /** Entries in different slots have their dots at different centres, at
      least 10 apart, so no two dots overlap. */
  lemma DotsDoNotOverlap(items: seq<Item>, idx: nat, idx': nat)
    requires idx < idx' < |items|
    ensures var a, b := ListCard(items).rows[idx][0], ListCard(items).rows[idx'][0];
      a.Dot? && b.Dot? &&
      (a.cx - b.cx >= 2.0 * a.r || b.cx - a.cx >= 2.0 * a.r ||
       a.cy - b.cy >= 2.0 * a.r || b.cy - a.cy >= 2.0 * a.r)
  {
    SlotsArePartition(|items|);
  }
}
