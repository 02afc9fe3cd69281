/**
 * The views the dashboard derives: the two top-5 tables, the director ranking, the highest-rated
 * movie per genre (`groupby('genre')['rating'].idxmax()`) and the movie detail lookup.
 */
module Views {

  import opened Wrappers
  import opened Sequences
  import opened Ordering
  import opened Text
  import opened Currency
  import opened Movies
  import opened Filters

  // ----- Top 5 by rating and by box office -----

  predicate RatedAtLeast(a: Movie, b: Movie) {
    a.rating >= b.rating
  }

  /** Descending box office, missing amounts after every present one. */
  predicate EarnedAtLeast(a: Movie, b: Movie) {
    if b.boxOfficeClean.None? then true
    else if a.boxOfficeClean.None? then false
    else Value(a.boxOfficeClean.value) >= Value(b.boxOfficeClean.value)
  }

  lemma RatingOrder()
    ensures TotalPreorder(RatedAtLeast)
  {
  }

  lemma BoxOfficeOrder()
    ensures TotalPreorder(EarnedAtLeast)
  {
  }

  /** `filtered_df.sort_values(by='rating', ascending=False).head(5)`. */
  function TopRated(f: seq<Movie>): (r: seq<Movie>)
    ensures |r| == if |f| < 5 then |f| else 5
    ensures multiset(r) <= multiset(f)
    ensures forall i, j :: 0 <= i < j < |r| ==> r[i].rating >= r[j].rating
    ensures forall m :: m in multiset(f) - multiset(r) ==> forall k :: 0 <= k < |r| ==> m.rating <= r[k].rating
  {
    RatingOrder();
    Top(f, 5, RatedAtLeast)
  }

  /** `filtered_df.sort_values(by='box_office_clean', ascending=False).head(5)`. */
  function TopBoxOffice(f: seq<Movie>): (r: seq<Movie>)
    ensures |r| == if |f| < 5 then |f| else 5
    ensures multiset(r) <= multiset(f)
    ensures forall i, j :: 0 <= i < j < |r| && r[j].boxOfficeClean.Some? ==>
      r[i].boxOfficeClean.Some? && Value(r[i].boxOfficeClean.value) >= Value(r[j].boxOfficeClean.value)
    ensures forall m :: m in multiset(f) - multiset(r) && m.boxOfficeClean.Some? ==>
      forall k :: 0 <= k < |r| ==>
        r[k].boxOfficeClean.Some? && Value(m.boxOfficeClean.value) <= Value(r[k].boxOfficeClean.value)
  {
    BoxOfficeOrder();
    Top(f, 5, EarnedAtLeast)
  }

  // ----- Director ranking -----

  /** A bar of the director chart: a `directors` value and the number of rows that carry it. */
  datatype DirectorCount = DirectorCount(directors: string, films: nat)

  function DirectorColumn(df: seq<Movie>): (col: seq<Option<string>>)
    ensures |col| == |df|
    ensures forall i :: 0 <= i < |df| ==> col[i] == df[i].directors
  {
    seq(|df|, i requires 0 <= i < |df| => df[i].directors)
  }

  /** The present values of a column, in order. */
  function Present(col: seq<Option<string>>): (r: seq<string>)
    ensures forall d :: d in r ==> Some(d) in col
    ensures forall d :: Some(d) in col ==> d in r
  {
    if col == [] then []
    else (if col[0].Some? then [col[0].value] else []) + Present(col[1..])
  }

  /** How many cells of the column hold `d`. */
  function Occurrences(col: seq<Option<string>>, d: string): (n: nat)
    ensures n == multiset(col)[Some(d)]
  {
    if col == [] then 0
    else
      assert col == [col[0]] + col[1..];
      (if col[0] == Some(d) then 1 else 0) + Occurrences(col[1..], d)
  }

  predicate MoreFilms(a: DirectorCount, b: DirectorCount) {
    a.films >= b.films
  }

  lemma FilmsOrder()
    ensures TotalPreorder(MoreFilms)
  {
  }

  /** `value_counts()`: one entry per distinct present value, with its number of rows. */
  function Tally(df: seq<Movie>): (t: seq<DirectorCount>)
    ensures NoDups(t)
    ensures forall e :: e in t ==> Some(e.directors) in DirectorColumn(df)
    ensures forall e :: e in t ==> e.films == multiset(DirectorColumn(df))[Some(e.directors)]
    ensures forall d :: Some(d) in DirectorColumn(df) ==> DirectorCount(d, multiset(DirectorColumn(df))[Some(d)]) in t
  {
    var col := DirectorColumn(df);
    var names := Distinct(Present(col));
    var t := seq(|names|, i requires 0 <= i < |names| => DirectorCount(names[i], Occurrences(col, names[i])));
    assert forall d :: Some(d) in col ==> DirectorCount(d, multiset(col)[Some(d)]) in t by {
      forall d | Some(d) in col ensures DirectorCount(d, multiset(col)[Some(d)]) in t {
        var i :| 0 <= i < |names| && names[i] == d;
        assert t[i] == DirectorCount(d, multiset(col)[Some(d)]);
      }
    }
    t
  }

  /**
   * `df['directors'].value_counts().head(10)` over the whole table: at most ten distinct
   * directors, each with its true number of rows, by descending count; a director left out has
   * no more rows than any listed one, and is left out only when the list is full.
   */
  function TopDirectors(df: seq<Movie>): (r: seq<DirectorCount>)
    ensures |r| <= 10
    ensures forall k :: 0 <= k < |r| ==>
      Some(r[k].directors) in DirectorColumn(df) &&
      r[k].films == multiset(DirectorColumn(df))[Some(r[k].directors)]
    ensures forall i, j :: 0 <= i < j < |r| ==> r[i].films >= r[j].films && r[i].directors != r[j].directors
    ensures forall d :: Some(d) in DirectorColumn(df) && (forall k :: 0 <= k < |r| ==> r[k].directors != d) ==>
      |r| == 10 && forall k :: 0 <= k < |r| ==> multiset(DirectorColumn(df))[Some(d)] <= r[k].films
  {
    var t := Tally(df);
    FilmsOrder();
    var r := Top(t, 10, MoreFilms);
    TopOfTally(df, t, r);
    r
  }

  lemma TopOfTally(df: seq<Movie>, t: seq<DirectorCount>, r: seq<DirectorCount>)
    requires t == Tally(df)
    requires TotalPreorder(MoreFilms)
    requires r == Top(t, 10, MoreFilms)
    ensures forall k :: 0 <= k < |r| ==>
      Some(r[k].directors) in DirectorColumn(df) &&
      r[k].films == multiset(DirectorColumn(df))[Some(r[k].directors)]
    ensures forall i, j :: 0 <= i < j < |r| ==> r[i].directors != r[j].directors
    ensures forall d :: Some(d) in DirectorColumn(df) && (forall k :: 0 <= k < |r| ==> r[k].directors != d) ==>
      |r| == 10 && forall k :: 0 <= k < |r| ==> multiset(DirectorColumn(df))[Some(d)] <= r[k].films
  {
    DrawnFromTally(t, r);
    DistinctDirectors(df, t, r);
    LeftOutDirectors(df, t, r);
  }

  lemma DrawnFromTally(t: seq<DirectorCount>, r: seq<DirectorCount>)
    requires multiset(r) <= multiset(t)
    ensures forall k :: 0 <= k < |r| ==> r[k] in t
  {
    forall k | 0 <= k < |r| ensures r[k] in t {
      assert r[k] in multiset(r);
    }
  }

  lemma DistinctDirectors(df: seq<Movie>, t: seq<DirectorCount>, r: seq<DirectorCount>)
    requires t == Tally(df)
    requires multiset(r) <= multiset(t)
    ensures forall i, j :: 0 <= i < j < |r| ==> r[i].directors != r[j].directors
  {
    SubmultisetNoDups(r, t);
    DrawnFromTally(t, r);
    forall i, j | 0 <= i < j < |r| ensures r[i].directors != r[j].directors {
      assert r[i] in t && r[j] in t && r[i] != r[j];
    }
  }

  lemma LeftOutDirectors(df: seq<Movie>, t: seq<DirectorCount>, r: seq<DirectorCount>)
    requires t == Tally(df)
    requires multiset(r) <= multiset(t)
    requires |r| == if 10 < |t| then 10 else |t|
    requires forall x :: x in multiset(t) - multiset(r) ==> forall k :: 0 <= k < |r| ==> MoreFilms(r[k], x)
    ensures forall d :: Some(d) in DirectorColumn(df) && (forall k :: 0 <= k < |r| ==> r[k].directors != d) ==>
      |r| == 10 && forall k :: 0 <= k < |r| ==> multiset(DirectorColumn(df))[Some(d)] <= r[k].films
  {
    var col := DirectorColumn(df);
    forall d | Some(d) in col && (forall k :: 0 <= k < |r| ==> r[k].directors != d)
      ensures |r| == 10 && forall k :: 0 <= k < |r| ==> multiset(col)[Some(d)] <= r[k].films
    {
      var e := DirectorCount(d, multiset(col)[Some(d)]);
      assert e in t;
      assert e !in r;
      assert e in multiset(t) - multiset(r);
      LeftOutMeansFull(r, t, e);
    }
  }

  /** A sub-multiset that misses an element is strictly smaller. */
  lemma LeftOutMeansFull<T>(r: seq<T>, s: seq<T>, x: T)
    requires multiset(r) <= multiset(s)
    requires x in multiset(s) - multiset(r)
    ensures |r| < |s|
  {
    var rest := multiset(s) - multiset(r);
    assert multiset(s) == multiset(r) + rest;
    assert |rest| >= 1;
  }

  // ----- Highest rated movie per genre -----

  function GenreColumn(f: seq<Movie>): (col: seq<Option<string>>)
    ensures |col| == |f|
    ensures forall i :: 0 <= i < |f| ==> col[i] == f[i].genre
  {
    seq(|f|, i requires 0 <= i < |f| => f[i].genre)
  }

  /** The `groupby('genre')` keys: each present genre value once, in ascending string order. */
  function GenreKeys(f: seq<Movie>): (keys: seq<string>)
    ensures NoDups(keys)
    ensures forall g :: g in keys ==> Some(g) in GenreColumn(f)
    ensures forall g :: Some(g) in GenreColumn(f) ==> g in keys
    ensures SortedBy(keys, LexLeq)
  {
    LexOrder();
    var d := Distinct(Present(GenreColumn(f)));
    var keys := SortBy(d, LexLeq);
    SubmultisetNoDups(keys, d);
    assert forall g :: g in keys <==> g in d by {
      forall g ensures g in keys <==> g in d {
        assert g in keys <==> g in multiset(keys);
        assert g in d <==> g in multiset(d);
      }
    }
    keys
  }

  /**
   * `idxmax` over the rows of genre `g` from position `i` on: the first position holding the
   * highest rating of that genre, if the genre occurs.
   */
  function BestFrom(f: seq<Movie>, g: string, i: nat): (k: Option<nat>)
    requires i <= |f|
    decreases |f| - i
    ensures k.None? <==> forall j :: i <= j < |f| ==> f[j].genre != Some(g)
    ensures k.Some? ==> i <= k.value < |f| && f[k.value].genre == Some(g)
    ensures k.Some? ==> forall j :: i <= j < |f| && f[j].genre == Some(g) ==> f[j].rating <= f[k.value].rating
    ensures k.Some? ==> forall j :: i <= j < k.value && f[j].genre == Some(g) ==> f[j].rating < f[k.value].rating
  {
    if i == |f| then None
    else
      var rest := BestFrom(f, g, i + 1);
      if f[i].genre != Some(g) then rest
      else if rest.None? || f[rest.value].rating <= f[i].rating then Some(i)
      else rest
  }

  /**
   * `filtered_df.groupby('genre')['rating'].idxmax()`: for the k-th genre key, the position of
   * the first row of that genre with the genre's highest rating.
   */
  function GroupBest(f: seq<Movie>): (idx: seq<nat>)
    ensures |idx| == |GenreKeys(f)|
    ensures forall k :: 0 <= k < |idx| ==> idx[k] < |f| && f[idx[k]].genre == Some(GenreKeys(f)[k])
    ensures forall k, j :: 0 <= k < |idx| && 0 <= j < |f| && f[j].genre == f[idx[k]].genre ==>
      f[j].rating <= f[idx[k]].rating
    ensures forall k, j :: 0 <= k < |idx| && 0 <= j < idx[k] && f[j].genre == f[idx[k]].genre ==>
      f[j].rating < f[idx[k]].rating
  {
    var keys := GenreKeys(f);
    assert forall k :: 0 <= k < |keys| ==> BestFrom(f, keys[k], 0).Some? by {
      forall k | 0 <= k < |keys| ensures BestFrom(f, keys[k], 0).Some? {
        assert Some(keys[k]) in GenreColumn(f);
        var j :| 0 <= j < |f| && GenreColumn(f)[j] == Some(keys[k]);
        assert f[j].genre == Some(keys[k]);
      }
    }
    seq(|keys|, k requires 0 <= k < |keys| => BestFrom(f, keys[k], 0).value)
  }

  /** Every genre of the filtered rows has exactly one row in the per-genre table. */
  lemma OneRowPerGenre(f: seq<Movie>, g: string)
    requires exists i :: 0 <= i < |f| && f[i].genre == Some(g)
    ensures exists k :: 0 <= k < |GroupBest(f)| && f[GroupBest(f)[k]].genre == Some(g)
    ensures forall k, l :: 0 <= k < l < |GroupBest(f)| ==> f[GroupBest(f)[k]].genre != f[GroupBest(f)[l]].genre
  {
    var idx := GroupBest(f);
    GenreHasRow(f, idx, g);
    GenreRowsDiffer(f, idx);
  }

  lemma GenreHasRow(f: seq<Movie>, idx: seq<nat>, g: string)
    requires idx == GroupBest(f)
    requires exists i :: 0 <= i < |f| && f[i].genre == Some(g)
    ensures exists k :: 0 <= k < |idx| && f[idx[k]].genre == Some(g)
  {
    var keys := GenreKeys(f);
    var i :| 0 <= i < |f| && f[i].genre == Some(g);
    assert GenreColumn(f)[i] == Some(g);
    var k :| 0 <= k < |keys| && keys[k] == g;
    assert f[idx[k]].genre == Some(g);
  }

  lemma GenreRowsDiffer(f: seq<Movie>, idx: seq<nat>)
    requires idx == GroupBest(f)
    ensures forall k, l :: 0 <= k < l < |idx| ==> f[idx[k]].genre != f[idx[l]].genre
  {
    var keys := GenreKeys(f);
    forall k, l | 0 <= k < l < |idx| ensures f[idx[k]].genre != f[idx[l]].genre {
      assert f[idx[k]].genre == Some(keys[k]) && f[idx[l]].genre == Some(keys[l]);
      assert keys[k] != keys[l];
    }
  }

  /**
   * The per-genre table, shown only when genres are chosen: for the k-th genre key, the row at
   * `idxmax`, which has the highest rating of its genre and is the earliest row with that rating.
   */
  function HighestRatedPerGenre(f: seq<Movie>, genres: seq<string>): (r: Option<seq<Movie>>)
    ensures r.None? <==> genres == []
    ensures r.Some? ==> |r.value| == |GenreKeys(f)|
    ensures r.Some? ==> forall k :: 0 <= k < |r.value| ==> r.value[k] in f && r.value[k].genre == Some(GenreKeys(f)[k])
    ensures r.Some? ==> forall k :: 0 <= k < |r.value| ==> r.value[k] == f[GroupBest(f)[k]]
    ensures r.Some? ==> forall k, j :: 0 <= k < |r.value| && 0 <= j < |f| && f[j].genre == r.value[k].genre ==>
      f[j].rating <= r.value[k].rating
    ensures r.Some? ==> forall k, j :: 0 <= k < |r.value| && 0 <= j < GroupBest(f)[k] && f[j].genre == r.value[k].genre ==>
      f[j].rating < r.value[k].rating
  {
    if genres == [] then None
    else
      var idx := GroupBest(f);
      Some(seq(|idx|, k requires 0 <= k < |idx| => f[idx[k]]))
  }

  // ----- Movie detail lookup -----

  /** The first position at or after `i` holding a row named `name`. */
  function FirstNamed(df: seq<Movie>, name: string, i: nat): (k: Option<nat>)
    requires i <= |df|
    decreases |df| - i
    ensures k.None? <==> forall j :: i <= j < |df| ==> df[j].name != name
    ensures k.Some? ==> i <= k.value < |df| && df[k.value].name == name
    ensures k.Some? ==> forall j :: i <= j < k.value ==> df[j].name != name
  {
    if i == |df| then None
    else if df[i].name == name then Some(i)
    else FirstNamed(df, name, i + 1)
  }

  /** What the detail panel shows. */
  datatype DetailPanel = NoMatches | NoSelection | Details(movie: Movie)

  /** The movie selector offers the names of the filtered rows. */
  predicate Selectable(df: seq<Movie>, sel: Selection, choice: string) {
    exists m :: m in FilterView(df, sel) && m.name == choice
  }

  /**
   * The detail viewer: a notice when no row passes the filters, nothing for an empty name, and
   * otherwise the first row of the whole table with the chosen name, which always exists.
   */
  function MovieDetails(df: seq<Movie>, sel: Selection, choice: string): (v: DetailPanel)
    requires FilterView(df, sel) != [] ==> Selectable(df, sel, choice)
    ensures v == NoMatches <==> FilterView(df, sel) == []
    ensures v == NoSelection <==> FilterView(df, sel) != [] && choice == ""
    ensures v.Details? ==> v.movie.name == choice
    ensures v.Details? ==> exists i :: 0 <= i < |df| && df[i] == v.movie && forall j :: 0 <= j < i ==> df[j].name != choice
  {
    if FilterView(df, sel) == [] then NoMatches
    else if choice == "" then NoSelection
    else
      var k := FirstNamed(df, choice, 0);
      assert k.Some? by {
        var m :| m in FilterView(df, sel) && m.name == choice;
        KeepMembers(df, m => Admits(sel, m));
        var i :| 0 <= i < |df| && df[i] == m;
      }
      Details(df[k.value])
  }

  /** The details of a selectable name do not depend on the filters that made it selectable. */
  lemma DetailsIgnoreFilters(df: seq<Movie>, s1: Selection, s2: Selection, choice: string)
    requires Selectable(df, s1, choice) && Selectable(df, s2, choice)
    ensures MovieDetails(df, s1, choice) == MovieDetails(df, s2, choice)
  {
  }
}
