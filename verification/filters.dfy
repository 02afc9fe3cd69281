/**
 * The sidebar filters: an inclusive year range, an optional set of genres matched as
 * case-insensitive substrings of the genre cell, and a certificate that is ignored when it is
 * `"All"`.
 */
module Filters {

  import opened Wrappers
  import opened Sequences
  import opened Text
  import opened Movies

  /** What the sidebar controls hold. */
  datatype Selection = Selection(lo: int, hi: int, genres: seq<string>, certificate: string)

  const ALL: string := "All"

  predicate InYears(m: Movie, lo: int, hi: int) {
    lo <= m.year <= hi
  }

  /** The genre cell is present and contains one of the chosen genres, ignoring case. */
  predicate GenreMatches(m: Movie, genres: seq<string>) {
    m.genre.Some? && exists g :: g in genres && ContainsIgnoringCase(m.genre.value, g)
  }

  /** Equality with a missing certificate is false. */
  predicate CertificateIs(m: Movie, certificate: string) {
    m.certificate == Some(certificate)
  }

  /** The conjunction of the active filters; an empty genre choice and `"All"` switch theirs off. */
  predicate Admits(sel: Selection, m: Movie) {
    && InYears(m, sel.lo, sel.hi)
    && (sel.genres == [] || GenreMatches(m, sel.genres))
    && (sel.certificate == ALL || CertificateIs(m, sel.certificate))
  }

  /**
   * The rows of `df` the selection admits, in table order: every admitted row is kept as often as
   * it occurs in the table, and no other row is kept.
   */
  function FilterView(df: seq<Movie>, sel: Selection): (r: seq<Movie>)
    ensures IsSubsequence(r, df)
    ensures forall m :: multiset(r)[m] == if Admits(sel, m) then multiset(df)[m] else 0
  {
    KeepIsSubsequence(df, m => Admits(sel, m));
    KeepCounts(df, m => Admits(sel, m));
    Keep(df, m => Admits(sel, m))
  }

  /**
   * The filter block: `filtered_df` starts as the rows in the year range and is narrowed by the
   * genre stage when genres are chosen, then by the certificate stage unless `"All"` is chosen.
   */
  method ApplyFilters(df: seq<Movie>, sel: Selection) returns (filtered: seq<Movie>)
    ensures filtered == FilterView(df, sel)
  {
    var years := m => InYears(m, sel.lo, sel.hi);
    var genre := m => GenreMatches(m, sel.genres);
    var cert := m => CertificateIs(m, sel.certificate);
    ghost var admitted: Movie -> bool := years;
    filtered := Keep(df, years);
    if sel.genres != [] {
      ghost var next: Movie -> bool := m => admitted(m) && genre(m);
      KeepKeep(df, admitted, genre, next);
      filtered := Keep(filtered, genre);
      admitted := next;
    }
    if sel.certificate != ALL {
      ghost var next: Movie -> bool := m => admitted(m) && cert(m);
      KeepKeep(df, admitted, cert, next);
      filtered := Keep(filtered, cert);
      admitted := next;
    }
    KeepSame(df, admitted, m => Admits(sel, m));
  }

  /** The view keeps only rows of the table that every active filter admits. */
  lemma FilterViewSound(df: seq<Movie>, sel: Selection)
    ensures forall m :: m in FilterView(df, sel) ==> m in df && sel.lo <= m.year <= sel.hi
    ensures sel.genres != [] ==> forall m :: m in FilterView(df, sel) ==>
      m.genre.Some? && exists g :: g in sel.genres && ContainsIgnoringCase(m.genre.value, g)
    ensures sel.certificate != ALL ==> forall m :: m in FilterView(df, sel) ==> m.certificate == Some(sel.certificate)
  {
    KeepMembers(df, m => Admits(sel, m));
  }

  /** Every row of the table that the active filters admit appears in the view. */
  lemma FilterViewComplete(df: seq<Movie>, sel: Selection)
    ensures forall i :: 0 <= i < |df| && Admits(sel, df[i]) ==> df[i] in FilterView(df, sel)
  {
    KeepMembers(df, m => Admits(sel, m));
  }

  /** With no genre chosen and certificate `"All"`, the view is the year range alone. */
  lemma YearsOnly(df: seq<Movie>, lo: int, hi: int)
    ensures FilterView(df, Selection(lo, hi, [], ALL)) == Keep(df, m => InYears(m, lo, hi))
  {
    KeepSame(df, m => Admits(Selection(lo, hi, [], ALL), m), m => InYears(m, lo, hi));
  }
}
