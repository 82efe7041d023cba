/**
 * Card 2, the GitHub stats card: five labelled counters, one per row, and the
 * activity grade drawn inside a faint ring at the right of the card.
 */
module StatsCard {
  import opened Svg
  import opened Grading

  /** The five rows of the card, top to bottom: label and counter. */
  function StatRows(c: Counters): seq<(string, nat)>
  {
    [ ("\U{2605} Stars", c.stars),
      ("\U{1F501} Commits (this year)", c.commits),
      ("\U{1F500} Pull Requests", c.prs),
      ("\U{1F41E} Issues", c.issues),
      ("\U{1F9E9} Contributed repos", c.contribs) ]
  }

  /** What row `i` draws: its label at the left, its counter right-aligned. */
  function StatRow(i: nat, row: (string, nat)): seq<Primitive>
  {
    var y := (56 + 34 * i) as real;
    [ SvgText(20.0, y, Plain(row.0), 13, 600),
      SvgText(480.0, y, Number(row.1), 13, 700, TextColor, End) ]
  }

  /** The grade ring and the grade letter centred in it. */
  function GradeBadge(g: Grade): seq<Primitive>
  {
    [ Ring(430.0, 133.0, 32.0, "#2b6cb0", 6.0, 0.18),
      SvgText(430.0, 139.0, Plain(Label(g)), 20, 800, TitleColor, Middle) ]
  }

  /** The layout of the card, in closed form. */
  function Stats(c: Counters): Card
  {
    var rows := StatRows(c);
    Card(CardWidth, 272,
         [Background(12.0, DarkBg), Title("GitHub Stats")],
         seq(|rows|, i requires 0 <= i < |rows| => StatRow(i, rows[i])),
         GradeBadge(GradeOf(Score(c))))
  }

  /** `render_github_stats_card`, less the markup text and the file write. */
  method RenderGithubStatsCard(stars: nat, commits: nat, prs: nat, issues: nat, contribs: nat)
    returns (card: Card)
    ensures card == Stats(Counters(stars, commits, prs, issues, contribs))
  {
    var width := CardWidth;
    var padding := 20;
    var lineH := 34;
    var titleY := 32;

    var rows := StatRows(Counters(stars, commits, prs, issues, contribs));

    var height := padding + titleY + |rows| * lineH + 50;

    var head := [Background(12.0, DarkBg)];
    head := head + [SvgText(padding as real, titleY as real, Plain("GitHub Stats"), 20, 700, TitleColor)];

    var baseY := titleY + 24;

    var body: seq<seq<Primitive>> := [];
    for i := 0 to |rows|
      invariant |body| == i
      invariant forall j :: 0 <= j < i ==> body[j] == StatRow(j, rows[j])
    {
      var y := baseY + i * lineH;
      var row := [SvgText(padding as real, y as real, Plain(rows[i].0), 13, 600)];
      row := row + [SvgText((width - padding) as real, y as real, Number(rows[i].1), 13, 700, anchor := End)];
      body := body + [row];
    }

    var grade := BuildGrade(stars, commits, prs, issues, contribs);
    var cx := width - 70;
    var cy := baseY as real + (|rows| * lineH) as real / 2.0 - 8.0;

    var tail := [Ring(cx as real, cy, 32.0, "#2b6cb0", 6.0, 0.18)];
    tail := tail + [SvgText(cx as real, cy + 6.0, Plain(Label(grade)), 20, 800, TitleColor, Middle)];
    card := Card(width, height, head, body, tail);
  }

  // ---------------------------------------------------------------------------
  // Properties

  /** Five rows 34 apart in a card 500 by 272; row `i` shows the `i`-th
      counter, in the order stars, commits, pull requests, issues,
      contributed repositories, right-aligned at x = 480. */
  lemma StatsLayout(c: Counters)
    ensures Stats(c).width == 500 && Stats(c).height == 272
    ensures |Stats(c).rows| == 5
    ensures forall i :: 0 <= i < 5 ==>
      var row := Stats(c).rows[i];
      |row| == 2 && row[0].Text? && row[1].Text?
      && row[0].y == row[1].y == (56 + 34 * i) as real
      && row[0].x == 20.0 && row[1].x == 480.0 && row[1].anchor == End
    ensures Stats(c).rows[0][1].content == Number(c.stars)
    ensures Stats(c).rows[1][1].content == Number(c.commits)
    ensures Stats(c).rows[2][1].content == Number(c.prs)
    ensures Stats(c).rows[3][1].content == Number(c.issues)
    ensures Stats(c).rows[4][1].content == Number(c.contribs)
  {
  }

  /** The card emits its background and title, two primitives for each of
      the five rows, then the ring and the grade letter. */
  lemma StatsPrimitiveCount(c: Counters)
    ensures |Primitives(Stats(c))| == 14
  {
    FlattenLength(Stats(c).rows, 2);
  }

  /** The badge shows the grade `build_grade` gives the same five counters;
      the letter is centred horizontally in the ring, 6 below its centre. */
  lemma StatsShowGrade(c: Counters)
    ensures var t := Stats(c).tail;
      |t| == 2 && t[0].Ring? && t[1].Text?
      && t[1].content == Plain(Label(GradeOf(Score(c))))
      && t[1].x == t[0].cx && t[1].y == t[0].cy + 6.0 && t[1].anchor == Middle
  {
  }

  /** The ring, stroke included, lies inside the card, below the title and
      vertically centred (less 8) on the block of rows: its centre is
      `56 + 5 * 34 / 2 - 8`. */
  lemma RingInsideCard(c: Counters)
    ensures var ring, card := Stats(c).tail[0], Stats(c);
      && ring.Ring?
      && ring.cy == 56.0 + (|card.rows| * 34) as real / 2.0 - 8.0
      && 32.0 < ring.cy - ring.r - ring.strokeWidth / 2.0
      && ring.cy + ring.r + ring.strokeWidth / 2.0 < card.height as real
      && 0.0 < ring.cx - ring.r - ring.strokeWidth / 2.0
      && ring.cx + ring.r + ring.strokeWidth / 2.0 < card.width as real
  {
  }

  /** The card's badge reads "A+" once every counter reaches its ceiling, and
      raising counters never shows a lower letter. */
  lemma StatsBadgeAtCeiling(c: Counters, c': Counters)
    requires c.stars <= c'.stars && c.commits <= c'.commits && c.prs <= c'.prs
    requires c.issues <= c'.issues && c.contribs <= c'.contribs
    ensures c.stars >= 50 && c.commits >= 200 && c.prs >= 20 && c.contribs >= 10 && c.issues >= 30
      ==> Stats(c).tail[1].content == Plain("A+")
    ensures Rank(GradeOf(Score(c))) <= Rank(GradeOf(Score(c')))
  {
    if c.stars >= 50 && c.commits >= 200 && c.prs >= 20 && c.contribs >= 10 && c.issues >= 30 {
      FullCountersGiveTopGrade(c);
    }
    GradeMonotoneInCounters(c, c');
  }
}
