# IMDB Top 250 dashboard: the data pipeline, modelled in Dafny

The dashboard (`app.py`) loads a table of the IMDB Top 250 movies and derives two numeric
columns from the free-text budget and box-office cells. It filters the table by year range,
genre and certificate, and then shows five views: the top 5 by rating, the top 5 by box office,
the ten most frequent directors, the highest-rated movie per genre, and the details of one
chosen movie. This project models that pipeline and proves what each step promises.

Shared helper modules (`Wrappers`, `Sequences`, `Ordering`, `Text`), then one module per stage of the script (`Currency`, `Movies`, `Filters`, `Views`):

- `Wrappers`: `Option`, standing for pandas' missing cells.
- `Sequences`: selecting rows by a boolean mask (`Keep`), order-preserving subsequences, and distinct values.
- `Ordering`: sorting by a total preorder and taking the first *n* rows (`sort_values(...).head(n)`).
- `Text`: ASCII case-insensitive substring search, and Python's code-point string order (used for `groupby` keys).
- `Currency`: `clean_currency`. It keeps only digits and `.` and then reads the text as an exact decimal, `Decimal(mantissa, scale)` = mantissa / 10^scale.
- `Movies`: the `Movie` row and `LoadData`, which adds `budget_clean` and `box_office_clean`.
- `Filters`: `ApplyFilters` narrows the table stage by stage, as the script does. It is proved equal to `FilterView`, which is one selection by the conjunction of the active filters.
- `Views`: the derived views.

Ratings are integers in tenths of a point, so all comparisons are exact. Box-office amounts are
compared by their exact value as a `real`.

Two points where the model deliberately says less than one might expect:

- `sort_values` uses its default algorithm, which is not stable, so the model promises no order among equal keys.
- `float` gives IEEE doubles; the model keeps the exact decimal (see "Left out").

The detail lookup searches the whole table, not the filtered view. When two movies share a name,
it therefore shows the first of them, even if the filters exclude that one.
`Views.MovieDetails` states this behaviour as written.

## Model

| member | source | states |
|---|---|---|
| `Currency.Clean` | app.py:17 | every character of the cleaned text is a digit or `.` |
| `Currency.CleanSelectsNumeric` | app.py:17 | the cleaned text is an order-preserving subsequence of the cell; every digit and `.` is kept as often as it occurs, and nothing else is kept |
| `Currency.CleanIdempotent` | app.py:17 | cleaning already-cleaned text changes nothing |
| `Currency.ParseDecimal` | app.py:18-21 | on cleaned text, the reading succeeds exactly when there is at least one digit and at most one `.`; the mantissa is the number formed by all the digits, in order |
| `Currency.ParseWhole` | app.py:19 | a digit string without a point reads as the whole number it denotes, with scale 0 |
| `Currency.ParseFractional` | app.py:19 | `a.b` reads as mantissa `ab` with scale `|b|`, i.e. the value a + b/10^len(b); covers `1.` and `.5` |
| `Currency.CleanCurrency` | app.py:14-21 | a missing cell gives no value; otherwise a value exists exactly when the cell has a digit and at most one `.`, and its mantissa is all the cell's digits concatenated |
| `Currency.NoDigitsNoValue` | app.py:17-21 | a cell without any digit gives no value |
| `Currency.DollarAmount` | app.py:14-21 | `"$1,234,567"` cleans to exactly 1234567 |
| `Movies.LoadData` | app.py:23-24 | every row keeps its file cells, and gets `budget_clean` / `box_office_clean` equal to the cleaned budget / box-office cell |
| `Filters.FilterView` | app.py:35-43 | the view is an order-preserving subsequence of the table; every row the active filters admit is kept as many times as it occurs in the table, and no other row is kept |
| `Filters.ApplyFilters` | app.py:35-43 | the year stage, then the genre stage (only when genres are chosen), then the certificate stage (only when the choice is not `All`) together give exactly `FilterView`, the single selection by the conjunction |
| `Filters.FilterViewSound` | app.py:35-43 | every kept row is a row of the table and has lo <= year <= hi; with genres chosen, its genre is present and contains a chosen genre ignoring case; with a certificate chosen, its certificate equals the choice (a missing one never matches) |
| `Filters.FilterViewComplete` | app.py:35-43 | every row of the table that the active filters admit appears in the view |
| `Filters.YearsOnly` | app.py:35-43 | with no genre chosen and certificate `All`, the view is the year-range selection alone |
| `Text.OccursAt` | app.py:40 | the substring test is exactly "some slice of the text equals the pattern" |
| `Text.ContainsIgnoringCase` | app.py:40 | `str.contains(..., case=False)` holds exactly when some slice of the lower-cased text equals the lower-cased pattern |
| `Ordering.Top` | app.py:53 | the first n rows of a sort: min(n, length) rows drawn from the input, in order; no row left out may rank ahead of a row taken |
| `Views.TopRated` | app.py:53 | length min(5, rows); drawn from the filtered rows; ratings non-increasing; every row left out is rated no higher than every row shown |
| `Views.TopBoxOffice` | app.py:56 | length min(5, rows); drawn from the filtered rows; amounts non-increasing; rows without an amount come after every row with one; a row left out that has an amount earned no more than every row shown |
| `Views.Occurrences` | app.py:60 | the count for a director is the number of rows carrying exactly that `directors` value |
| `Views.Tally` | app.py:60 | one entry per distinct present director value, with its true row count; missing directors get no entry |
| `Views.TopDirectors` | app.py:60 | at most 10 distinct directors of the whole (unfiltered) table, each with its true count, in descending count order; a director left out has no more rows than any listed one, and is left out only when the list holds 10 |
| `Views.GenreKeys` | app.py:67 | the group keys are the distinct present genre values of the filtered rows, each once, in ascending string order |
| `Views.BestFrom` | app.py:67 | `idxmax` within one genre: the first position holding that genre's highest rating, or none if the genre does not occur |
| `Views.GroupBest` | app.py:67 | for each genre key, a row of that genre whose rating is the group maximum, and the earliest such row |
| `Views.OneRowPerGenre` | app.py:67 | every genre of the filtered rows has a row in the per-genre table, and no genre has two |
| `Views.HighestRatedPerGenre` | app.py:65-68 | the table is shown exactly when genres are chosen; it has one row per genre key, each a filtered row of that genre; the k-th row is the row `GroupBest` picks, no row of its genre is rated higher, and every earlier row of its genre is rated strictly lower (the earliest row on ties) |
| `Views.FirstNamed` | app.py:75 | the first position in the table holding a row with the given name, or none when no row has it |
| `Views.MovieDetails` | app.py:72-75 | an empty filtered view gives the no-results notice; an empty name gives nothing; otherwise the lookup always finds a row, namely the first row of the full table with the chosen name |
| `Views.DetailsIgnoreFilters` | app.py:72-75 | the details shown for a name do not depend on which filters made it selectable |

## Left out

- Rendering: page configuration, titles, the row-count caption, the column projections of the displayed tables, the bar chart and the markdown detail panel (app.py:7, 30-33, 46-91). The model computes what these display, not how.
- Widget behaviour: the slider's bounds and its default `(2000, 2025)`, the option lists of the selectors, and the selector's default pick. Selections are parameters (`Filters.Selection`, the chosen name).
- Reading `movie_ratings.csv` and the `@st.cache_data` memoisation (app.py:10-12). `Movies.LoadData` takes the file's rows as a parameter.
- The unused seaborn/matplotlib imports (app.py:3-4).
- `Currency.ParseDecimal`: IEEE rounding of `float` is not modelled; the value is the exact decimal. Neither is the rest of `float`'s grammar (signs, exponents, whitespace, `inf`/`nan`), because cleaning removes every character it would need.
- Cells are strings or missing. What `str()` does to a non-string cell (for example a numeric budget) is not modelled.
- `Filters.GenreMatches`: `'|'.join(genres)` is a regular expression. The model treats each chosen genre as plain text, so a genre name with regex metacharacters would behave differently.
- `\d` and `case=False` are modelled for ASCII only. Unicode digits and Unicode case folding are not.
- `Views.TopRated`, `Views.TopBoxOffice`, `Views.TopDirectors`: the order among equal keys is not promised. pandas' default sort is not stable, and the order of `value_counts` among equal counts is an implementation detail.
- Missing (NaN) ratings, years and names are not modelled. Ratings are exact tenths of a point.
