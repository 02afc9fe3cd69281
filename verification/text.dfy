/**
 * String matching used by the genre filter (case-insensitive substring search, ASCII only) and
 * the code-point order in which pandas' `groupby` lists string keys.
 */
module Text {

  import opened Ordering

  function LowerChar(c: char): (d: char)
    ensures 'A' <= c <= 'Z' ==> d as int == c as int + 32
    ensures !('A' <= c <= 'Z') ==> d == c
    ensures !('A' <= d <= 'Z')
  {
    if 'A' <= c <= 'Z' then (c as int + 32) as char else c
  }

  /** ASCII lower-casing, character by character. */
  function Lower(s: string): (r: string)
    ensures |r| == |s|
    ensures forall i :: 0 <= i < |s| ==> r[i] == LowerChar(s[i])
  {
    seq(|s|, i requires 0 <= i < |s| => LowerChar(s[i]))
  }

  /** `pattern` occurs in `text` at some position. */
  predicate Occurs(pattern: string, text: string)
    decreases |text|
  {
    pattern <= text || (text != [] && Occurs(pattern, text[1..]))
  }

  /** `Occurs` is exactly "some slice of `text` equals `pattern`". */
  lemma {:induction false} OccursAt(pattern: string, text: string)
    ensures Occurs(pattern, text) <==>
      exists i :: 0 <= i <= |text| - |pattern| && text[i..][..|pattern|] == pattern
  {
    if text != [] {
      OccursAt(pattern, text[1..]);
    }
    if exists i :: 0 <= i <= |text| - |pattern| && text[i..][..|pattern|] == pattern {
      var i :| 0 <= i <= |text| - |pattern| && text[i..][..|pattern|] == pattern;
      if i == 0 {
        assert text[..|pattern|] == pattern;
      } else {
        assert text[1..][i - 1..] == text[i..];
      }
    }
    if Occurs(pattern, text) {
      if pattern <= text {
        assert text[0..][..|pattern|] == pattern;
      } else {
        var i :| 0 <= i <= |text[1..]| - |pattern| && text[1..][i..][..|pattern|] == pattern;
        assert text[1..][i..] == text[i + 1..];
      }
    }
  }

  /**
   * `str.contains(pattern, case=False)` for a pattern without regular-expression metacharacters:
   * after lower-casing both, some slice of the text equals the pattern.
   */
  function ContainsIgnoringCase(text: string, pattern: string): (b: bool)
    ensures b <==> exists i :: 0 <= i <= |text| - |pattern| && Lower(text)[i..][..|pattern|] == Lower(pattern)
  {
    OccursAt(Lower(pattern), Lower(text));
    Occurs(Lower(pattern), Lower(text))
  }

  /** Python's `<=` on strings: lexicographic by code point, a proper prefix first. */
  predicate LexLeq(a: string, b: string) {
    if a == [] then true
    else if b == [] then false
    else a[0] < b[0] || (a[0] == b[0] && LexLeq(a[1..], b[1..]))
  }

  lemma {:induction false} LexLeqTotal(a: string, b: string)
    ensures LexLeq(a, b) || LexLeq(b, a)
  {
    if a != [] && b != [] && a[0] == b[0] {
      LexLeqTotal(a[1..], b[1..]);
    }
  }

  lemma {:induction false} LexLeqTransitive(a: string, b: string, c: string)
    requires LexLeq(a, b) && LexLeq(b, c)
    ensures LexLeq(a, c)
  {
    if a != [] && b != [] && c != [] && a[0] == b[0] && b[0] == c[0] {
      LexLeqTransitive(a[1..], b[1..], c[1..]);
    }
  }

  lemma LexOrder()
    ensures TotalPreorder(LexLeq)
  {
    forall a, b ensures LexLeq(a, b) || LexLeq(b, a) {
      LexLeqTotal(a, b);
    }
    forall a, b, c | LexLeq(a, b) && LexLeq(b, c) ensures LexLeq(a, c) {
      LexLeqTransitive(a, b, c);
    }
  }
}
