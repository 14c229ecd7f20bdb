/**
 * The manifest order: descending by the pair (date, filename), with both
 * strings compared the way Python compares `str` values, code point by code
 * point with a proper prefix first. Dates are compared as raw text.
 */
module Ordering {
  import opened Photos

  /** Lexicographic order spelled out: `a` is a proper prefix of `b`, or at the
      first position where they differ `a` has the smaller code point. */
  ghost predicate LexLess(a: string, b: string) {
    || (|a| < |b| && a == b[..|a|])
    || exists k :: 0 <= k < |a| && k < |b| && a[..k] == b[..k] && a[k] < b[k]
  }

  /** Python's `a < b` on strings. */
  function StrLt(a: string, b: string): bool
    decreases |a|
  {
    if |a| == 0 then |b| > 0
    else if |b| == 0 then false
    else if a[0] == b[0] then StrLt(a[1..], b[1..])
    else a[0] < b[0]
  }

  /** The code-point-by-code-point comparison is the lexicographic order. */
  lemma {:induction false} StrLtIsLexicographic(a: string, b: string)
    ensures StrLt(a, b) <==> LexLess(a, b)
    decreases |a|
  {
    if |a| == 0 {
      if |b| > 0 { assert a == b[..0]; }
    } else if |b| == 0 {
    } else if a[0] == b[0] {
      StrLtIsLexicographic(a[1..], b[1..]);
      if LexLess(a[1..], b[1..]) {
        if |a[1..]| < |b[1..]| && a[1..] == b[1..][..|a[1..]|] {
          assert a == b[..|a|];
        } else {
          var k :| 0 <= k < |a[1..]| && k < |b[1..]| && a[1..][..k] == b[1..][..k] && a[1..][k] < b[1..][k];
          assert a[..k + 1] == [a[0]] + a[1..][..k];
          assert b[..k + 1] == [b[0]] + b[1..][..k];
          assert a[k + 1] < b[k + 1];
        }
      }
      if LexLess(a, b) {
        if |a| < |b| && a == b[..|a|] {
          assert a[1..] == b[1..][..|a[1..]|];
        } else {
          var k :| 0 <= k < |a| && k < |b| && a[..k] == b[..k] && a[k] < b[k];
          assert k > 0;
          assert a[1..][..k - 1] == a[..k][1..] == b[..k][1..] == b[1..][..k - 1];
          assert a[1..][k - 1] < b[1..][k - 1];
        }
      }
    } else {
      if a[0] < b[0] { assert a[..0] == b[..0]; }
      // a common prefix that is not empty would share the first code point
      assert forall k :: 0 < k <= |a| ==> a[..k][0] == a[0];
      assert forall k :: 0 < k <= |b| ==> b[..k][0] == b[0];
    }
  }

  lemma {:induction false} StrLtIrreflexive(a: string)
    ensures !StrLt(a, a)
    decreases |a|
  {
    if |a| > 0 { StrLtIrreflexive(a[1..]); }
  }

  lemma {:induction false} StrLtTransitive(a: string, b: string, c: string)
    requires StrLt(a, b) && StrLt(b, c)
    ensures StrLt(a, c)
    decreases |a|
  {
    if |a| > 0 && a[0] == b[0] && b[0] == c[0] {
      StrLtTransitive(a[1..], b[1..], c[1..]);
    }
  }

  /** Two different strings are ordered one way or the other. */
  lemma {:induction false} StrLtTotal(a: string, b: string)
    requires a != b
    ensures StrLt(a, b) || StrLt(b, a)
    decreases |a|
  {
    if |a| > 0 && |b| > 0 && a[0] == b[0] {
      assert a == [a[0]] + a[1..] && b == [b[0]] + b[1..];
      StrLtTotal(a[1..], b[1..]);
    }
  }

  lemma {:induction false} StrLtAsymmetric(a: string, b: string)
    requires StrLt(a, b)
    ensures !StrLt(b, a)
  {
    if StrLt(b, a) {
      StrLtTransitive(a, b, a);
      StrLtIrreflexive(a);
    }
  }

  /** Python's `<` on the tuples `(date, filename)`: the first component that
      differs decides, and equal tuples are not ordered. */
  predicate KeyLt(p: Photo, q: Photo): (r: bool)
    ensures p.date != q.date ==> (r <==> StrLt(p.date, q.date))
    ensures p.date == q.date ==> (r <==> StrLt(p.filename, q.filename))
    ensures p.date == q.date && p.filename == q.filename ==> !r
  {
    StrLtIrreflexive(p.date);
    StrLtIrreflexive(p.filename);
    StrLt(p.date, q.date) || (p.date == q.date && StrLt(p.filename, q.filename))
  }

  /** `p` may come before `q` in descending order. */
  predicate KeyGe(p: Photo, q: Photo) {
    !KeyLt(p, q)
  }

  lemma KeyLtAsymmetric(p: Photo, q: Photo)
    requires KeyLt(p, q)
    ensures !KeyLt(q, p)
  {
    if StrLt(p.date, q.date) {
      StrLtAsymmetric(p.date, q.date);
      if q.date == p.date { StrLtIrreflexive(p.date); }
    } else {
      StrLtAsymmetric(p.filename, q.filename);
      StrLtIrreflexive(p.date);
    }
  }

  lemma KeyLtTransitive(p: Photo, q: Photo, r: Photo)
    requires KeyLt(p, q) && KeyLt(q, r)
    ensures KeyLt(p, r)
  {
    if StrLt(p.date, q.date) && StrLt(q.date, r.date) {
      StrLtTransitive(p.date, q.date, r.date);
    } else if p.date == q.date && q.date == r.date {
      StrLtTransitive(p.filename, q.filename, r.filename);
    }
  }

  /** Records with different keys are strictly ordered one way or the other. */
  lemma KeyLtTotal(p: Photo, q: Photo)
    requires p.date != q.date || p.filename != q.filename
    ensures KeyLt(p, q) || KeyLt(q, p)
  {
    if p.date != q.date {
      StrLtTotal(p.date, q.date);
    } else {
      StrLtTotal(p.filename, q.filename);
    }
  }

  lemma KeyGeTransitive(p: Photo, q: Photo, r: Photo)
    requires KeyGe(p, q) && KeyGe(q, r)
    ensures KeyGe(p, r)
  {
    if KeyLt(p, r) {
      if p.date != q.date || p.filename != q.filename {
        KeyLtTotal(p, q);
        // q < p < r, so q < r
        KeyLtTransitive(q, p, r);
      }
      // with p and q sharing a key, p < r means q < r
    }
  }

  /** Non-increasing order: no record is smaller than one after it. */
  ghost predicate Sorted(s: seq<Photo>) {
    forall i, j :: 0 <= i < j < |s| ==> KeyGe(s[i], s[j])
  }

  /** No two records share a file name. */
  ghost predicate DistinctNames(s: seq<Photo>) {
    forall i, j :: 0 <= i < j < |s| ==> s[i].filename != s[j].filename
  }

  /** Places `x` before the first element not greater than it; equal keys keep
      their relative order, as in Python's stable sort with `reverse=True`. */
  function Insert(x: Photo, s: seq<Photo>): (r: seq<Photo>)
    ensures multiset(r) == multiset(s) + multiset{x}
  {
    if |s| == 0 then [x]
    else if KeyGe(x, s[0]) then [x] + s
    else
      assert s == [s[0]] + s[1..];
      [s[0]] + Insert(x, s[1..])
  }

  lemma {:induction false} InsertSorted(x: Photo, s: seq<Photo>)
    requires Sorted(s)
    ensures Sorted(Insert(x, s))
  {
    if |s| == 0 {
    } else if KeyGe(x, s[0]) {
      var r := [x] + s;
      forall i, j | 0 <= i < j < |r|
        ensures KeyGe(r[i], r[j])
      {
        if i == 0 {
          if j > 1 { KeyGeTransitive(x, s[0], s[j - 1]); }
        } else {
          assert r[i] == s[i - 1] && r[j] == s[j - 1];
        }
      }
    } else {
      var tail := Insert(x, s[1..]);
      assert Sorted(s[1..]) by {
        forall i, j | 0 <= i < j < |s[1..]|
          ensures KeyGe(s[1..][i], s[1..][j])
        {
          assert s[1..][i] == s[i + 1] && s[1..][j] == s[j + 1];
        }
      }
      InsertSorted(x, s[1..]);
      var r := [s[0]] + tail;
      forall j | 0 < j < |r|
        ensures KeyGe(s[0], r[j])
      {
        var y := r[j];
        assert y == tail[j - 1];
        assert y in multiset(tail);
        if y == x {
          KeyLtAsymmetric(x, s[0]);
        } else {
          assert y in multiset(s[1..]);
          var k :| 0 <= k < |s[1..]| && s[1..][k] == y;
          assert s[k + 1] == y;
        }
      }
      forall i, j | 0 <= i < j < |r|
        ensures KeyGe(r[i], r[j])
      {
        if i > 0 { assert r[i] == tail[i - 1] && r[j] == tail[j - 1]; }
      }
    }
  }

  /** Python's stable sort, descending by `(date, filename)`. */
  function Sort(s: seq<Photo>): (r: seq<Photo>)
    ensures Sorted(r)
    ensures multiset(r) == multiset(s)
  {
    if |s| == 0 then []
    else
      assert s == [s[0]] + s[1..];
      var rest := Sort(s[1..]);
      InsertSorted(s[0], rest);
      Insert(s[0], rest)
  }

  /** Records that share a file name are the same record. */
  ghost predicate NameDetermines(s: seq<Photo>) {
    forall i, j :: 0 <= i < |s| && 0 <= j < |s| && s[i].filename == s[j].filename ==> s[i] == s[j]
  }

  lemma NameDeterminesPermutation(a: seq<Photo>, b: seq<Photo>)
    requires multiset(a) == multiset(b) && NameDetermines(a)
    ensures NameDetermines(b)
  {
    forall i, j | 0 <= i < |b| && 0 <= j < |b| && b[i].filename == b[j].filename
      ensures b[i] == b[j]
    {
      assert b[i] in multiset(a) && b[j] in multiset(a);
      var m :| 0 <= m < |a| && a[m] == b[i];
      var n :| 0 <= n < |a| && a[n] == b[j];
    }
  }

  lemma SortedTail(s: seq<Photo>)
    requires Sorted(s) && |s| > 0
    ensures Sorted(s[1..])
  {
  }

  /** Two sorted arrangements of the same records start with the same record. */
  lemma SortedHeadsAgree(a: seq<Photo>, b: seq<Photo>)
    requires Sorted(a) && Sorted(b) && multiset(a) == multiset(b) && NameDetermines(a)
    requires |a| > 0
    ensures |b| > 0 && a[0] == b[0]
  {
    assert a[0] in multiset(b);
    var k :| 0 <= k < |b| && b[k] == a[0];
    assert b[0] in multiset(a);
    var m :| 0 <= m < |a| && a[m] == b[0];
    assert m == 0 || KeyGe(a[0], a[m]);
    assert k == 0 || KeyGe(b[0], b[k]);
    if a[0] != b[0] {
      KeyLtTotal(a[0], b[0]);
    }
  }

  lemma NameDeterminesTail(s: seq<Photo>)
    requires NameDetermines(s) && |s| > 0
    ensures NameDetermines(s[1..])
  {
  }

  lemma MultisetTails(a: seq<Photo>, b: seq<Photo>)
    requires |a| > 0 && |b| > 0 && a[0] == b[0] && multiset(a) == multiset(b)
    ensures multiset(a[1..]) == multiset(b[1..])
  {
    assert a == [a[0]] + a[1..] && b == [b[0]] + b[1..];
    assert multiset(a[1..]) == multiset(a) - multiset{a[0]};
    assert multiset(b[1..]) == multiset(b) - multiset{b[0]};
  }

  /** When a file name identifies its record, there is only one sorted
      arrangement of a collection of records. */
  lemma {:induction false} SortedPermutationUnique(a: seq<Photo>, b: seq<Photo>)
    requires Sorted(a) && Sorted(b) && multiset(a) == multiset(b) && NameDetermines(a)
    ensures a == b
    decreases |a|
  {
    if |a| == 0 {
      assert |multiset(b)| == 0;
    } else {
      SortedHeadsAgree(a, b);
      MultisetTails(a, b);
      SortedTail(a);
      SortedTail(b);
      NameDeterminesTail(a);
      SortedPermutationUnique(a[1..], b[1..]);
      assert a == [a[0]] + a[1..] && b == [b[0]] + b[1..];
    }
  }

  /** The sort yields the one non-increasing arrangement of its input. */
  lemma SortIsUnique(s: seq<Photo>, t: seq<Photo>)
    requires NameDetermines(s) && Sorted(t) && multiset(t) == multiset(s)
    ensures t == Sort(s)
  {
    NameDeterminesPermutation(s, t);
    SortedPermutationUnique(t, Sort(s));
  }

  /** With distinct file names no two records share a key, so the order is
      strictly decreasing. */
  lemma StrictWhenDistinct(s: seq<Photo>)
    requires Sorted(s)
    ensures DistinctNames(s) ==> forall i, j :: 0 <= i < j < |s| ==> KeyLt(s[j], s[i])
  {
    if DistinctNames(s) {
      forall i, j | 0 <= i < j < |s|
        ensures KeyLt(s[j], s[i])
      {
        KeyLtTotal(s[i], s[j]);
      }
    }
  }
}
