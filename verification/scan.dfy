/**
 * The scanner's main loop over one directory listing: filter, read, override,
 * emit, then order the manifest.
 */
module Scan {
  import opened Nullable
  import opened Extension
  import opened Manual
  import opened Photos
  import opened Ordering

  /** A directory listing: no two entries share a name. */
  ghost predicate DistinctFiles(files: seq<PhotoFile>) {
    forall i, j :: 0 <= i < j < |files| ==> files[i].name != files[j].name
  }

  /** The records appended while walking `files` in listing order, where
      `emit` decides for one entry whether it yields a record. */
  function Collect(emit: PhotoFile -> Option<Photo>, files: seq<PhotoFile>): (r: seq<Photo>)
    ensures |r| <= |files|
  {
    if |files| == 0 then []
    else
      var rest := Collect(emit, files[1..]);
      match emit(files[0])
      case Some(p) => [p] + rest
      case None => rest
  }

  /** Every collected record comes from an entry of the listing. */
  lemma {:induction false} CollectSound(emit: PhotoFile -> Option<Photo>, files: seq<PhotoFile>)
    ensures forall p :: p in Collect(emit, files) ==>
              exists i :: 0 <= i < |files| && emit(files[i]) == Some(p)
  {
    if |files| > 0 {
      CollectSound(emit, files[1..]);
      forall p | p in Collect(emit, files)
        ensures exists i :: 0 <= i < |files| && emit(files[i]) == Some(p)
      {
        if emit(files[0]) != Some(p) {
          assert p in Collect(emit, files[1..]);
          var i :| 0 <= i < |files[1..]| && emit(files[1..][i]) == Some(p);
          assert files[1..][i] == files[i + 1];
        }
      }
    }
  }

  /** Every entry of the listing that yields a record contributes it. */
  lemma {:induction false} CollectComplete(emit: PhotoFile -> Option<Photo>, files: seq<PhotoFile>)
    ensures forall i :: 0 <= i < |files| && emit(files[i]).Some? ==>
              emit(files[i]).value in Collect(emit, files)
  {
    if |files| > 0 {
      CollectComplete(emit, files[1..]);
      forall i | 0 < i < |files| && emit(files[i]).Some?
        ensures emit(files[i]).value in Collect(emit, files)
      {
        assert files[1..][i - 1] == files[i];
      }
    }
  }

  /** A record is named after the entry it comes from. */
  ghost predicate KeepsName(emit: PhotoFile -> Option<Photo>) {
    forall f :: emit(f).Some? ==> emit(f).value.filename == f.name
  }

  /** Distinct entries of a listing yield records with distinct names. */
  lemma {:induction false} CollectDistinct(emit: PhotoFile -> Option<Photo>, files: seq<PhotoFile>)
    requires KeepsName(emit)
    ensures DistinctFiles(files) ==> DistinctNames(Collect(emit, files))
  {
    if |files| > 0 && DistinctFiles(files) {
      var tail := files[1..];
      assert DistinctFiles(tail) by {
        forall i, j | 0 <= i < j < |tail|
          ensures tail[i].name != tail[j].name
        {
          assert tail[i] == files[i + 1] && tail[j] == files[j + 1];
        }
      }
      CollectDistinct(emit, tail);
      var rest := Collect(emit, tail);
      match emit(files[0])
      case None =>
      case Some(p) =>
        CollectSound(emit, tail);
        var r := [p] + rest;
        forall i, j | 0 <= i < j < |r|
          ensures r[i].filename != r[j].filename
        {
          if i == 0 {
            assert r[j] in rest;
            var k :| 0 <= k < |tail| && emit(tail[k]) == Some(r[j]);
            assert tail[k] == files[k + 1];
          } else {
            assert r[i] == rest[i - 1] && r[j] == rest[j - 1];
          }
        }
    }
  }

  /** The scanner's decision for one entry under the table `manual`. */
  function EmitWith(manual: map<string, ManualEntry>): (emit: PhotoFile -> Option<Photo>)
    ensures KeepsName(emit)
    ensures forall f :: emit(f) == Emit(manual, f)
  {
    f => Emit(manual, f)
  }

  /** What the manifest promises for any per-entry decision that keeps names. */
  lemma SortedCollection(emit: PhotoFile -> Option<Photo>, files: seq<PhotoFile>)
    requires KeepsName(emit)
    ensures var r := Sort(Collect(emit, files));
            && |r| <= |files|
            && (forall p :: p in r ==> exists i :: 0 <= i < |files| && emit(files[i]) == Some(p))
            && (forall i :: 0 <= i < |files| && emit(files[i]).Some? ==> emit(files[i]).value in r)
            && (DistinctFiles(files) ==> forall i, j :: 0 <= i < j < |r| ==> KeyLt(r[j], r[i]))
  {
    var collected := Collect(emit, files);
    CollectSound(emit, files);
    CollectComplete(emit, files);
    CollectDistinct(emit, files);
    var r := Sort(collected);
    assert |r| == |multiset(r)| == |multiset(collected)| == |collected|;
    forall p | p in r
      ensures p in collected
    {
      assert p in multiset(r);
    }
    forall i | 0 <= i < |files| && emit(files[i]).Some?
      ensures emit(files[i]).value in r
    {
      assert emit(files[i]).value in multiset(collected);
    }
    DistinctNamesPermutation(collected, r);
    StrictWhenDistinct(r);
  }

  /** The manifest for a directory listing, in output order. The scanner runs
      it with the shipped table `ManualData`. */
  function Scan(manual: map<string, ManualEntry>, files: seq<PhotoFile>): (r: seq<Photo>)
    ensures Sorted(r)
    ensures |r| <= |files|
    // every record comes from an accepted entry of the listing
    ensures forall p :: p in r ==> exists i :: 0 <= i < |files| && Emit(manual, files[i]) == Some(p)
    // every accepted entry that yields a record appears
    ensures forall i :: 0 <= i < |files| && Emit(manual, files[i]).Some? ==> Emit(manual, files[i]).value in r
    // for a listing, the order is strictly decreasing in (date, filename)
    ensures DistinctFiles(files) ==> forall i, j :: 0 <= i < j < |r| ==> KeyLt(r[j], r[i])
  {
    var emit := EmitWith(manual);
    SortedCollection(emit, files);
    Sort(Collect(emit, files))
  }

  /** A permutation of records with distinct names has distinct names. */
  lemma DistinctNamesPermutation(a: seq<Photo>, b: seq<Photo>)
    requires multiset(a) == multiset(b)
    ensures DistinctNames(a) ==> DistinctNames(b)
  {
    if DistinctNames(a) {
      forall i, j | 0 <= i < j < |b|
        ensures b[i].filename != b[j].filename
      {
        if b[i].filename == b[j].filename {
          assert NameDetermines(a) by {
            forall m, n | 0 <= m < |a| && 0 <= n < |a| && a[m].filename == a[n].filename
              ensures a[m] == a[n]
            {
            }
          }
          NameDeterminesPermutation(a, b);
          assert b[i] == b[j];
          assert multiset(b)[b[i]] >= 2 by {
            assert b == b[..i] + [b[i]] + b[i + 1..j] + [b[j]] + b[j + 1..];
          }
          DistinctNamesCountOne(a, b[i]);
        }
      }
    }
  }

  lemma DistinctNamesCountOne(s: seq<Photo>, p: Photo)
    requires DistinctNames(s)
    ensures multiset(s)[p] <= 1
  {
    if |s| > 0 {
      assert s == [s[0]] + s[1..];
      assert DistinctNames(s[1..]) by {
        forall i, j | 0 <= i < j < |s[1..]|
          ensures s[1..][i].filename != s[1..][j].filename
        {
          assert s[1..][i] == s[i + 1] && s[1..][j] == s[j + 1];
        }
      }
      DistinctNamesCountOne(s[1..], p);
      if s[0] == p {
        assert p !in s[1..];
      }
    }
  }

  /** For a directory listing the manifest is the one non-increasing
      arrangement of the emitted records. */
  lemma ScanIsTheDescendingOrder(manual: map<string, ManualEntry>, files: seq<PhotoFile>, t: seq<Photo>)
    requires DistinctFiles(files)
    ensures Sorted(t) && multiset(t) == multiset(Collect(EmitWith(manual), files)) ==> t == Scan(manual, files)
  {
    var emit := EmitWith(manual);
    CollectDistinct(emit, files);
    assert NameDetermines(Collect(emit, files));
    if Sorted(t) && multiset(t) == multiset(Collect(emit, files)) {
      SortIsUnique(Collect(emit, files), t);
    }
  }
}
