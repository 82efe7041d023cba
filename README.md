# Tech-Stack-Visualizer core in Dafny

This project models the computational core of `src/generate_tech_stack.py`.
That script builds three cards for a GitHub profile. It takes a user's
repositories, adds up the bytes each language has across them, turns the
totals into percentages, and grades the user's activity. It then lays out
three cards:

- a top-five "Most Used Languages" card of progress bars;
- a "GitHub Stats" card of five counters, with the grade in a ring;
- a two-column "Languages Breakdown" card.

The model covers these parts of the script:

- **Language aggregation** (`aggregate_languages`). The merge loop over the
  repositories' language dictionaries. A repository whose fetch raised is
  skipped. Dictionaries keep insertion order: an ordered dictionary is a
  sequence of `(language, bytes)` pairs in which `Get` is `d.get(k, 0)` and
  `Set` is `d[k] = v`.
- **Percentages** (`compute_percentages`). One `(language, percentage,
  bytes)` entry per language, with the exact share of the total. The list is
  stably sorted by byte count, largest first. A zero total gives the empty
  list.
- **Grading** (`build_grade`). Five counters, each capped at its ceiling and
  weighted 40/25/15/15/5, are summed into a score. The letter grade follows
  from the thresholds 90, 80, 70, 60 and 50.
- **Card geometry** for the three `render_*` functions. A card is its width,
  its height and its drawing primitives, in the order they are emitted. Each
  group of primitives is what one loop iteration appends. Every render method
  is proved equal to a closed-form layout function. The geometric properties
  are then proved about that function.
- **Contributor matching** in `count_contributed_repos`: a case-insensitive
  login comparison, and the counting loop.
- **Commit counting** in `count_commits_in_year`: the `Link` header's
  `rel="last"` page number when the pattern matches, otherwise the body's
  length, summed over the repositories.

Percentages, scores and coordinates are exact reals. Byte counts and
counters are natural numbers.

Some facts about the code that the model relies on:

- `compute_percentages` has no threshold and no "Other" entry: every
  language gets its own entry.
- A progress bar's fill has no minimum width. It is exactly
  `pct / 100 * 270`.
- The grade sits in a plain stroked circle of fixed opacity. Its size does not
  depend on the score.
- There is one grading formula. Its lowest grade is "C".

Modules and files:

| file | module | models |
|---|---|---|
| `wrappers.dfy` | `Wrappers` | `Option` |
| `aggregation.dfy` | `Aggregation` | ordered dictionary, `aggregate_languages` |
| `percentages.dfy` | `Percentages` | `compute_percentages` and its stable sort |
| `grading.dfy` | `Grading` | `build_grade` |
| `svg.dfy` | `Svg` | styling constants, drawing primitives, `svg_text` |
| `top_languages_card.dfy` | `TopLanguagesCard` | `render_top_languages_card` |
| `stats_card.dfy` | `StatsCard` | `render_github_stats_card` |
| `languages_list_card.dfy` | `LanguagesListCard` | `render_languages_list_card` |
| `contributors.dfy` | `Contributors` | the login match and loop of `count_contributed_repos` |
| `commit_count.dfy` | `CommitCount` | the `Link` fallback and loop of `count_commits_in_year` |

## Model

| member | source | states |
|---|---|---|
| Aggregation.SetGet | src/generate_tech_stack.py:106 | after `totals[lang] = v`, `lang` maps to `v` and every other key keeps its value |
| Aggregation.SetKeys | src/generate_tech_stack.py:106 | assigning an existing key keeps the key order; a new key is appended at the end |
| Aggregation.SetUnique | src/generate_tech_stack.py:106 | assignment never creates a duplicate key |
| Aggregation.AggregateLanguages | src/generate_tech_stack.py:95-108 | the loop's totals equal the fold `Aggregate` over the fetch results, and each language's total is its byte sum over the successful repositories |
| Aggregation.MergeRepository | src/generate_tech_stack.py:105-106 | the inner loop's result equals `Merge`, and every language's total grows by exactly the bytes this repository reports for it |
| Aggregation.MergeGet | src/generate_tech_stack.py:105-106 | merging one repository adds its reported bytes to each language's previous total |
| Aggregation.MergeKeys | src/generate_tech_stack.py:105-106 | merging appends the repository's new languages in the order it reports them |
| Aggregation.MergeUnique | src/generate_tech_stack.py:105-106 | merging keeps the totals a dictionary |
| Aggregation.AggregateIsSum | src/generate_tech_stack.py:95-108 | each language's total is the sum of its bytes over the repositories whose fetch succeeded |
| Aggregation.AggregateSums | src/generate_tech_stack.py:95-108 | the same for all languages at once |
| Aggregation.AggregateKeyOrder | src/generate_tech_stack.py:95-108 | the totals' keys are the successful repositories' languages in order of first report |
| Aggregation.AggregateKeySet | src/generate_tech_stack.py:95-108 | a language is in the totals if and only if some successful repository reports it |
| Aggregation.AggregateUnique | src/generate_tech_stack.py:95-108 | the totals have no duplicate language |
| Aggregation.AggregateSkipsFailures | src/generate_tech_stack.py:100-103 | skipping failed repositories gives the same totals as leaving them out of the list |
| Percentages.Insert | src/generate_tech_stack.py:119 | one insertion step of the sort adds exactly one element and keeps all the others |
| Percentages.InsertSorted | src/generate_tech_stack.py:119 | inserting into a list sorted by bytes (largest first) keeps it sorted |
| Percentages.SortByBytesDesc | src/generate_tech_stack.py:119 | the sort returns a permutation of its input, ordered by bytes from largest to smallest |
| Percentages.SortStable | src/generate_tech_stack.py:119 | the sort is stable: entries with equal byte counts keep their input order |
| Percentages.ComputePercentages | src/generate_tech_stack.py:111-120 | the result is empty if and only if the total is zero; otherwise it is a permutation of the comprehension's entries (one per dictionary entry), sorted by bytes, largest first |
| Percentages.PercentagesFromTotals | src/generate_tech_stack.py:116-117 | every output entry comes from some entry of the totals |
| Percentages.PercentagesInRange | src/generate_tech_stack.py:116-117 | each entry's percentage is exactly `bytes / total * 100` and lies in [0, 100] |
| Percentages.PercentagesSumTo100 | src/generate_tech_stack.py:111-120 | with a positive total, the percentages add up to exactly 100 |
| Percentages.PercentagesStable | src/generate_tech_stack.py:116-119 | languages with equal byte counts appear in the totals' insertion order |
| Percentages.PercentagesOnePerLanguage | src/generate_tech_stack.py:111-120 | for a dictionary, the list holds each language exactly once, with that language's total, and no other language |
| Percentages.Origin | src/generate_tech_stack.py:116-117 | each output entry is `(lang, share, bytes)` of the dictionary entry it comes from |
| Percentages.PercentagesDistinct | src/generate_tech_stack.py:111-120 | no language appears twice in the list |
| Percentages.PercentagesCoverKeys | src/generate_tech_stack.py:111-120 | every language of the dictionary appears in the list |
| Percentages.ItemsSum | src/generate_tech_stack.py:116-117 | the comprehension's percentages add up to the share of the sum of its bytes |
| Grading.Capped | src/generate_tech_stack.py:258-262 | each capped term `min(count / cap, 1) * weight` lies between 0 and its weight |
| Grading.Score | src/generate_tech_stack.py:257-262 | the score lies in [0, 100] however large the counters grow |
| Grading.GradeOf | src/generate_tech_stack.py:264-269 | each grade other than C means the score reaches that grade's threshold; each grade other than A+ means the score is below the next grade's threshold |
| Grading.BuildGrade | src/generate_tech_stack.py:256-269 | the accumulated score and early returns give `GradeOf(Score(counters))` |
| Grading.CappedMonotone | src/generate_tech_stack.py:258-262 | a capped term never decreases as its counter grows |
| Grading.ScoreMonotone | src/generate_tech_stack.py:256-262 | raising any counter, or several, never lowers the score |
| Grading.CappedFull | src/generate_tech_stack.py:258-262 | a capped term equals its weight if and only if the counter reaches its ceiling |
| Grading.ScoreFullIffCapped | src/generate_tech_stack.py:256-262 | the score is exactly 100 if and only if stars ≥ 50, commits ≥ 200, PRs ≥ 20, contributed repos ≥ 10 and issues ≥ 30 |
| Grading.FullCountersGiveTopGrade | src/generate_tech_stack.py:256-269 | all counters at their ceilings give "A+" |
| Grading.GradeMonotone | src/generate_tech_stack.py:264-269 | a higher score never yields a lower grade |
| Grading.GradeMonotoneInCounters | src/generate_tech_stack.py:256-269 | raising counters never lowers the grade |
| Svg.PaletteColor | src/generate_tech_stack.py:24-25 | a row's colour is one of the eight palette colours |
| Svg.FlattenLength | src/generate_tech_stack.py:235-247 | rows of equal size emit that size times the row count primitives |
| TopLanguagesCard.RenderTopLanguagesCard | src/generate_tech_stack.py:213-250 | the render loop builds exactly the closed-form layout `TopCard` of the items |
| TopLanguagesCard.TopCardRows | src/generate_tech_stack.py:214-238 | the card has min(5, n) rows, width 500, height 102 + 34·rows; row i's label shows entry i at baseline 54 + 34·i |
| TopLanguagesCard.FillWithinTrack | src/generate_tech_stack.py:240-245 | for a percentage in [0, 100], the fill starts at the track origin (x = 150) with width between 0 and the track's 270, in colour `PALETTE[i % 8]` |
| TopLanguagesCard.TrackInsideCard | src/generate_tech_stack.py:219-247 | every row's track, one-row cards included, lies inside the card: below the title, above the 50-unit bottom margin, and left of the row's percentage, which is left of the card's right edge |
| TopLanguagesCard.RowsStacked | src/generate_tech_stack.py:226-241 | rows are 34 apart and their tracks do not overlap |
| TopLanguagesCard.TopCardPrimitiveCount | src/generate_tech_stack.py:229-247 | the card emits its background and title, then four primitives per shown language |
| TopLanguagesCard.TopCardOfPercentages | src/generate_tech_stack.py:111-120 | fed by `compute_percentages`, the card shows entries with at least as many bytes as any entry left off, and every fill stays within its track |
| StatsCard.RenderGithubStatsCard | src/generate_tech_stack.py:272-308 | the render steps build exactly the closed-form layout `Stats` of the counters, with the grade from `build_grade` |
| StatsCard.StatsLayout | src/generate_tech_stack.py:272-295 | the card is 500 by 272 with five rows 34 apart from y = 56; row i shows the i-th counter in the order stars, commits, PRs, issues, contributed repos, right-aligned at x = 480 |
| StatsCard.StatsPrimitiveCount | src/generate_tech_stack.py:289-305 | the card emits exactly 14 primitives: background, title, two per counter row, the ring and the grade letter |
| StatsCard.StatsShowGrade | src/generate_tech_stack.py:297-305 | the badge text is the grade of the same counters, centred on the ring, 6 below its centre |
| StatsCard.RingInsideCard | src/generate_tech_stack.py:298-303 | the ring's centre is `56 + 5·34/2 − 8`, and the ring with its stroke lies inside the card, below the title |
| StatsCard.StatsBadgeAtCeiling | src/generate_tech_stack.py:297-305 | all counters at their ceilings show "A+", and raising counters never shows a lower letter |
| LanguagesListCard.RenderLanguagesListCard | src/generate_tech_stack.py:314-345 | the render loop builds exactly the closed-form layout `ListCard` of the items |
| LanguagesListCard.ColumnSizes | src/generate_tech_stack.py:320-334 | column 0 gets ⌈n/2⌉ entries and column 1 gets ⌊n/2⌋; one entry leaves column 1 empty |
| LanguagesListCard.SlotsArePartition | src/generate_tech_stack.py:320-334 | every entry's row is below `per_col`, column 1's rows are below n/2, and no two entries share a (column, row) slot |
| LanguagesListCard.SlotFilled | src/generate_tech_stack.py:320-334 | every slot of column 0 below `per_col`, and of column 1 below n/2, holds an entry |
| LanguagesListCard.ListCardSize | src/generate_tech_stack.py:320-323 | the card is 500 wide and 102 + 24·`per_col` high, with one row group per entry |
| LanguagesListCard.ListCardPrimitiveCount | src/generate_tech_stack.py:326-342 | the card emits its background and title, then three primitives per language |
| LanguagesListCard.EntryInsideItsColumn | src/generate_tech_stack.py:329-342 | columns start at x = 20 and 260; an entry's dot and the anchors of its name and percentage lie within its column's 224-wide band (text width is not modelled), the bands are disjoint and inside the card, and the dot lies between the title and the bottom margin |
| LanguagesListCard.DotsDoNotOverlap | src/generate_tech_stack.py:333-340 | the dots of two different entries do not overlap |
| Contributors.LowerEqualIff | src/generate_tech_stack.py:160 | comparing lower-cased strings is exactly comparing them ignoring letter case |
| Contributors.LowerIdempotent | src/generate_tech_stack.py:160 | lower-casing leaves no upper-case letter, and doing it twice changes nothing |
| Contributors.CountContributedRepos | src/generate_tech_stack.py:148-163 | the loop's count equals `ContributedCount` and never exceeds the number of repositories |
| Contributors.CountBounds | src/generate_tech_stack.py:148-163 | the count reaches the number of repositories if and only if every list contains the user, and is zero if and only if none does |
| Contributors.CountIgnoresCase | src/generate_tech_stack.py:160 | user names that are equal ignoring case give the same count |
| Contributors.SingleContributor | src/generate_tech_stack.py:160 | a single contributor matches if and only if their login equals the user name ignoring case |
| Contributors.MissingLogin | src/generate_tech_stack.py:160 | a contributor without a login (read as "") matches only the empty user name |
| CommitCount.DigitRunSpec | src/generate_tech_stack.py:187 | the digit run is all digits and maximal |
| CommitCount.PatternAtIsMaximal | src/generate_tech_stack.py:187 | the pattern matches at a position with j digits if and only if j is the maximal digit run there |
| CommitCount.Group | src/generate_tech_stack.py:187-188 | the captured group is a non-empty string of digits |
| CommitCount.SearchFrom | src/generate_tech_stack.py:187 | a position the search returns is one where the pattern matches |
| CommitCount.SearchFromLeftmost | src/generate_tech_stack.py:187 | the search finds no match before the position it returns, and returns nothing only when nothing matches |
| CommitCount.SearchFindsFirst | src/generate_tech_stack.py:187 | conversely, a match with no match before it is the position the search returns |
| CommitCount.LastPageSpec | src/generate_tech_stack.py:185-188 | there is a page number if and only if the pattern occurs; it is the whole digit group of the leftmost occurrence |
| CommitCount.FallbackToBody | src/generate_tech_stack.py:185-190 | without a `Link` header, or with one lacking `>; rel="last"`, a repository counts its body's length |
| CommitCount.MatchShift | src/generate_tech_stack.py:187 | whether the pattern matches at a position, and what it captures, depends only on the text from that position on |
| CommitCount.LastPageShift | src/generate_tech_stack.py:187-188 | a front part in which nothing matches does not change the page number |
| CommitCount.NoPrefixNoMatch | src/generate_tech_stack.py:187 | a front part without `&page=`, followed by text that starts with `&`, holds no match start |
| CommitCount.SkipNoPrefix | src/generate_tech_stack.py:187-188 | such a front part does not change the page number |
| CommitCount.TwoLinksTakeLast | src/generate_tech_stack.py:185-188 | for a header with a `rel="next"` link followed by a `rel="last"` link, whose URLs have no `&page=` of their own, the count is the last link's page number |
| CommitCount.QueryUrlHasNoPage | src/generate_tech_stack.py:179-180 | the URL of the `since` / `per_page=1` request, before the page parameter, has no `&page=` in it |
| CommitCount.QueryHeaderTakesLast | src/generate_tech_stack.py:179-188 | for the header answering that request, with next and last page URLs, the count is the last page number |
| CommitCount.TwoLinkHeader | src/generate_tech_stack.py:179-188 | such a header with next page 2 and last page 34 counts 34 commits |
| CommitCount.CountCommitsInYear | src/generate_tech_stack.py:169-192 | the loop's total equals `TotalCommits` over the responses |
| CommitCount.TotalSplit | src/generate_tech_stack.py:174-192 | the total over two groups of repositories is the sum of their totals |

## Left out

- HTTP, authentication and the retry without a token (`gh_get`, `TokenInvalid`). Pagination (`fetch_repos_dynamic`) and the per-repository fetches (`fetch_repo_languages`, `search_count`, `count_prs`, `count_issues`) are also out. These are remote calls; only their results enter the model, as parameters.
- Aggregation.AggregateLanguages: a fetch that raised any exception becomes `None`, and the loop runs over these fetch results, one per repository. The repository records themselves and the `r["owner"]["login"]` / `r["name"]` lookups are not modelled. Those lookups sit outside the `try`, so a missing key would abort the run.
- `write_file` and the file system.
- The markup text: `svg_text`'s string, the other f-strings, and `f"{pct:.2f}%"`. A card's primitives carry the numbers and contents that would be printed. Floating-point rounding is not modelled: percentages, scores and coordinates are exact reals.
- `main`: environment variables, `sys.exit`, `datetime.utcnow()`, and the undefined `count_stars`, which makes the star count an input.
- `count_commits_in_year`'s year (`min(utcnow().year, 2024)`) is not modelled. The request enters the model only as the shape of the URLs in the `Link` header: a path and a `since` date without `&`, then `&per_page=1`.
- `count_commits_in_year`: `len(resp.json())` is taken as the input `bodyLength`.
- Contributors.Lower: models `str.lower()` on ASCII letters only. Non-ASCII case mappings are not modelled.
- CommitCount.DigitRun: models `\d` and `int()` on ASCII digits only. Python's `\d` also accepts other Unicode decimal digits.
- Contributors.CountContributedRepos: each repository's contributor list is an input. A contributor whose `login` is present but not a string, and a failing contributor fetch (the source does not catch it), are not modelled.
