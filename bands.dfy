/** Band-name bookkeeping: what `upsampleBands` does to an image's list of band names, and
    the band names of a monthly composite. Pixels are not modelled here. */
module BandNames {

  /** The bands `upsampleBands` reprojects to 10 m, in list order. */
  const BandsToUpsample: seq<string> := ["B5", "B6", "B7", "B8A", "B11", "B12"]

  /** The Sentinel-2 bands each scene is restricted to. */
  const CommonBands: seq<string> :=
    ["B1", "B2", "B3", "B4", "B5", "B6", "B7", "B8", "B8A", "B9", "B11", "B12", "MSK_CLDPRB"]

  /** The five index bands `addNDVI` … `addNDWI` append, in the order they are mapped. */
  const IndexBands: seq<string> := ["NDVI", "EVI", "EVI2", "SAVI", "NDWI"]

  /** The band names of one monthly composite in which at least one scene passes the
      filters: the common bands, then the indices. */
  function CompositeBandNames(): seq<string>
  {
    CommonBands + IndexBands
  }

  /** An image's band names are pairwise distinct. */
  predicate NoDup(s: seq<string>)
  {
    forall i, j :: 0 <= i < j < |s| ==> s[i] != s[j]
  }

  /** `ee.List.removeAll`: every occurrence of every name in `drop` removed, the rest in order. */
  function RemoveAll(names: seq<string>, drop: seq<string>): (r: seq<string>)
    ensures |r| <= |names|
    ensures forall x :: x in r <==> x in names && x !in drop
  {
    if names == [] then []
    else (if names[0] in drop then [] else [names[0]]) + RemoveAll(names[1..], drop)
  }

  /** A list holding none of the dropped names comes back unchanged. */
  lemma {:induction false} RemoveAllIdentity(names: seq<string>, drop: seq<string>)
    requires forall x :: x in names ==> x !in drop
    ensures RemoveAll(names, drop) == names
  {
    if names != [] {
      RemoveAllIdentity(names[1..], drop);
    }
  }

  /** Removal works piece by piece, so the kept names stay in their original order. */
  lemma {:induction false} RemoveAllConcat(a: seq<string>, b: seq<string>, drop: seq<string>)
    ensures RemoveAll(a + b, drop) == RemoveAll(a, drop) + RemoveAll(b, drop)
  {
    if a == [] {
      assert a + b == b;
    } else {
      assert (a + b)[0] == a[0];
      assert (a + b)[1..] == a[1..] + b;
      RemoveAllConcat(a[1..], b, drop);
      var head := if a[0] in drop then [] else [a[0]];
      assert RemoveAll(a + b, drop) == head + (RemoveAll(a[1..], drop) + RemoveAll(b, drop));
    }
  }

  /** Removing every name of a list from a list that holds them all leaves nothing. */
  lemma {:induction false} RemoveAllCovered(names: seq<string>, drop: seq<string>)
    requires forall x :: x in names ==> x in drop
    ensures RemoveAll(names, drop) == []
  {
    if names != [] {
      RemoveAllCovered(names[1..], drop);
    }
  }

  /** A kept name occurs as often as before; a dropped one not at all. */
  lemma {:induction false} RemoveAllCount(names: seq<string>, drop: seq<string>, x: string)
    ensures multiset(RemoveAll(names, drop))[x] == if x in drop then 0 else multiset(names)[x]
  {
    if names != [] {
      assert names == [names[0]] + names[1..];
      RemoveAllCount(names[1..], drop, x);
    }
  }

  /** In a list without duplicates every name occurs once or not at all. */
  lemma {:induction false} NoDupCount(s: seq<string>, x: string)
    requires NoDup(s)
    ensures multiset(s)[x] == if x in s then 1 else 0
  {
    if s != [] {
      assert s == [s[0]] + s[1..];
      assert NoDup(s[1..]) by {
        forall i, j | 0 <= i < j < |s[1..]| ensures s[1..][i] != s[1..][j] {
          assert s[1..][i] == s[i + 1] && s[1..][j] == s[j + 1];
        }
      }
      assert s[0] !in s[1..] by {
        forall j | 0 <= j < |s[1..]| ensures s[1..][j] != s[0] {
          assert s[1..][j] == s[j + 1];
        }
      }
      NoDupCount(s[1..], x);
    }
  }

  /** A list in which no name occurs twice has no duplicates. */
  lemma {:induction false} CountNoDup(s: seq<string>)
    requires forall x :: multiset(s)[x] <= 1
    ensures NoDup(s)
  {
    if s != [] {
      var rest := s[1..];
      assert s == [s[0]] + rest;
      assert forall x :: multiset(rest)[x] <= multiset(s)[x];
      CountNoDup(rest);
      assert multiset(s)[s[0]] == 1 + multiset(rest)[s[0]];
      assert s[0] !in rest;
      forall i, j | 0 <= i < j < |s| ensures s[i] != s[j] {
        assert s[j] == rest[j - 1];
        if 0 < i { assert s[i] == rest[i - 1]; }
      }
    }
  }

  /** Removing a list of distinct names that are all present and appending them again
      permutes a list of distinct names and keeps it free of duplicates. */
  lemma ReplacePermutation(names: seq<string>, bands: seq<string>)
    requires NoDup(names) && NoDup(bands)
    requires forall b :: b in bands ==> b in names
    ensures multiset(RemoveAll(names, bands) + bands) == multiset(names)
    ensures NoDup(RemoveAll(names, bands) + bands)
  {
    var out := RemoveAll(names, bands) + bands;
    forall x ensures multiset(out)[x] == multiset(names)[x] {
      RemoveAllCount(names, bands, x);
      NoDupCount(names, x);
      NoDupCount(bands, x);
    }
    assert multiset(out) == multiset(names);
    forall x ensures multiset(out)[x] <= 1 {
      NoDupCount(names, x);
    }
    CountNoDup(out);
  }

  /** The names `upsampleBands` handles are distinct. */
  lemma BandsToUpsampleDistinct()
    ensures NoDup(BandsToUpsample)
  {
  }

  /** The new band list, or the band whose `image.select` fails because the image lacks it. */
  datatype Upsampled = Upsampled(names: seq<string>) | MissingBand(band: string)

  /** `upsampleBands` on band names: the six bands removed and re-added at the end, in list
      order; selecting a band the image does not have is an error. */
  function UpsampleBands(names: seq<string>): (r: Upsampled)
    ensures r.MissingBand? <==> exists b :: b in BandsToUpsample && b !in names
    ensures r.MissingBand? ==> r.band in BandsToUpsample && r.band !in names
  {
    var missing := RemoveAll(BandsToUpsample, names);
    if missing != [] then
      assert missing[0] in missing;
      MissingBand(missing[0])
    else Upsampled(RemoveAll(names, BandsToUpsample) + BandsToUpsample)
  }

  /** The output ends with the six bands in list order; the names before them are exactly the
      input names outside the list, each as often as in the input. */
  lemma UpsampleShape(names: seq<string>)
    requires UpsampleBands(names).Upsampled?
    ensures var out := UpsampleBands(names).names;
      |out| >= 6 && out[|out| - 6..] == BandsToUpsample &&
      (forall y :: y in out[..|out| - 6] ==> y !in BandsToUpsample) &&
      (forall x :: x !in BandsToUpsample ==> multiset(out)[x] == multiset(names)[x])
  {
    var out := UpsampleBands(names).names;
    var kept := RemoveAll(names, BandsToUpsample);
    assert out[..|out| - 6] == kept;
    assert out[|out| - 6..] == BandsToUpsample;
    forall x | x !in BandsToUpsample ensures multiset(out)[x] == multiset(names)[x] {
      RemoveAllCount(names, BandsToUpsample, x);
    }
  }

  /** No band of the input is lost. */
  lemma UpsampleKeepsPresent(names: seq<string>, x: string)
    requires UpsampleBands(names).Upsampled?
    requires x in names
    ensures x in UpsampleBands(names).names
  {
    var out := UpsampleBands(names).names;
    assert out == RemoveAll(names, BandsToUpsample) + BandsToUpsample;
  }

  /** The names outside the list keep their relative order: removing the list from the output
      gives the same names as removing it from the input. */
  lemma UpsampleKeepsOrder(names: seq<string>)
    requires UpsampleBands(names).Upsampled?
    ensures RemoveAll(UpsampleBands(names).names, BandsToUpsample) == RemoveAll(names, BandsToUpsample)
  {
    var kept := RemoveAll(names, BandsToUpsample);
    RemoveAllConcat(kept, BandsToUpsample, BandsToUpsample);
    RemoveAllIdentity(kept, BandsToUpsample);
    RemoveAllCovered(BandsToUpsample, BandsToUpsample);
  }

  /** With distinct band names, the output is a permutation of the input and stays distinct. */
  lemma UpsamplePermutation(names: seq<string>)
    requires NoDup(names)
    requires UpsampleBands(names).Upsampled?
    ensures multiset(UpsampleBands(names).names) == multiset(names)
    ensures NoDup(UpsampleBands(names).names)
  {
    BandsToUpsampleDistinct();
    ReplacePermutation(names, BandsToUpsample);
  }

  /** Upsampling an already upsampled image leaves its band names as they are. */
  lemma UpsampleIdempotent(names: seq<string>)
    requires UpsampleBands(names).Upsampled?
    ensures UpsampleBands(UpsampleBands(names).names) == UpsampleBands(names)
  {
    var out := UpsampleBands(names).names;
    UpsampleKeepsOrder(names);
    RemoveAllCovered(BandsToUpsample, out);
  }

  /** An image without B5, the first band of the list, fails on B5. */
  lemma UpsampleMissingFirst(names: seq<string>)
    requires "B5" !in names
    ensures UpsampleBands(names) == MissingBand("B5")
  {
    var missing := RemoveAll(BandsToUpsample, names);
    assert missing == ["B5"] + RemoveAll(BandsToUpsample[1..], names);
  }

  /** A month in which no scene passes the filters gives a composite without bands, and
      upsampling it fails on B5. */
  lemma EmptyMonthFails()
    ensures UpsampleBands([]) == MissingBand("B5")
  {
    UpsampleMissingFirst([]);
  }

  /** A monthly composite upsamples without error, and its upsampled band names are distinct. */
  lemma CompositeUpsamples()
    ensures UpsampleBands(CompositeBandNames()).Upsampled?
    ensures NoDup(UpsampleBands(CompositeBandNames()).names)
    ensures |UpsampleBands(CompositeBandNames()).names| == 18
  {
    CompositeHasUpsampleBands();
    CompositeDistinct();
    UpsampleDistinctNames(CompositeBandNames());
  }

  /** An image with distinct band names that has all six bands upsamples without error to
      the same number of distinct bands. */
  lemma UpsampleDistinctNames(names: seq<string>)
    requires NoDup(names)
    requires forall b :: b in BandsToUpsample ==> b in names
    ensures UpsampleBands(names).Upsampled?
    ensures NoDup(UpsampleBands(names).names)
    ensures |UpsampleBands(names).names| == |names|
  {
    UpsamplePermutation(names);
    assert |multiset(UpsampleBands(names).names)| == |multiset(names)|;
  }

  /** The composite carries every band `upsampleBands` selects. */
  lemma CompositeHasUpsampleBands()
    ensures forall b :: b in BandsToUpsample ==> b in CompositeBandNames()
  {
    var names := CompositeBandNames();
    assert names[4] == "B5" && names[5] == "B6" && names[6] == "B7";
    assert names[8] == "B8A" && names[10] == "B11" && names[11] == "B12";
  }

  /** The composite's band names are distinct. */
  lemma CompositeDistinct()
    ensures NoDup(CompositeBandNames())
  {
  }
}
