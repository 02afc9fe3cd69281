/**
 * The movie table and `load_data`: the rows of the CSV file, to which the loader adds the two
 * derived columns `budget_clean` and `box_office_clean`.
 */
module Movies {

  import opened Wrappers
  import opened Currency

  /**
   * One row of the table. `rating` is kept in tenths of a point (8.7 is 87) so that comparisons
   * are exact; cells that can be missing are options. `budgetClean` and `boxOfficeClean` are the
   * columns the loader derives.
   */
  datatype Movie = Movie(
    rank: int,
    name: string,
    year: int,
    rating: int,
    genre: Option<string>,
    certificate: Option<string>,
    runTime: Option<string>,
    tagline: Option<string>,
    budget: Option<string>,
    boxOffice: Option<string>,
    directors: Option<string>,
    writers: Option<string>,
    casts: Option<string>,
    budgetClean: Option<Decimal>,
    boxOfficeClean: Option<Decimal>)

  /** The row as the file gives it: the derived columns are blanked. */
  function FileRow(m: Movie): Movie {
    m.(budgetClean := None, boxOfficeClean := None)
  }

  /** The derived columns hold the cleaned currency cells of the same row. */
  predicate Derived(m: Movie) {
    && m.budgetClean == CleanCurrency(m.budget)
    && m.boxOfficeClean == CleanCurrency(m.boxOffice)
  }

  /**
   * `load_data` after the file has been read: the table gets `budget_clean`, then
   * `box_office_clean`, each computed row by row from its currency cell. Whatever the rows held
   * in those two columns before is overwritten.
   */
  method LoadData(rows: seq<Movie>) returns (df: seq<Movie>)
    ensures |df| == |rows|
    ensures forall i :: 0 <= i < |df| ==> FileRow(df[i]) == FileRow(rows[i])
    ensures forall i :: 0 <= i < |df| ==> Derived(df[i])
  {
    df := rows;
    df := seq(|df|, i requires 0 <= i < |df| => df[i].(budgetClean := CleanCurrency(df[i].budget)));
    df := seq(|df|, i requires 0 <= i < |df| => df[i].(boxOfficeClean := CleanCurrency(df[i].boxOffice)));
  }
}
