/** The documented band list of the combined eight-month image (`Bands`) and the fixed
    18-band subset the script selects from it (`Bands_select`). */
module BandSelection {
  import opened BandNames

  /** The 15 band names per month the `Bands` list documents, in its order. */
  const MonthBases: seq<string> :=
    ["B2", "B3", "B4", "B5", "B6", "B7", "B8", "B8A", "B11", "B12", "NDVI", "EVI", "EVI2", "SAVI", "NDWI"]

  /** The six bands kept per selected month. */
  const SelectBases: seq<string> := ["B3", "B4", "B6", "B8", "B11", "NDVI"]

  /** The suffix `addBands` gives the band names of the month at position `m`
      (0 = March has none, 1 = April is `_1`, …). */
  function MonthSuffix(m: nat): (s: string)
    requires m < 8
  {
    if m == 0 then "" else ['_', "1234567"[m - 1]]
  }

  /** `Bands`, as listed in the script, one line per month (March to October). */
  const Bands: seq<string> :=
    BandsMar + BandsApr + BandsMay + BandsJun +
    BandsJul + BandsAug + BandsSep + BandsOct

  const BandsMar: seq<string> :=
    ["B2", "B3", "B4", "B5", "B6", "B7", "B8", "B8A", "B11", "B12", "NDVI", "EVI", "EVI2", "SAVI", "NDWI"]
  const BandsApr: seq<string> :=
    ["B2_1", "B3_1", "B4_1", "B5_1", "B6_1", "B7_1", "B8_1", "B8A_1", "B11_1", "B12_1", "NDVI_1", "EVI_1", "EVI2_1", "SAVI_1", "NDWI_1"]
  const BandsMay: seq<string> :=
    ["B2_2", "B3_2", "B4_2", "B5_2", "B6_2", "B7_2", "B8_2", "B8A_2", "B11_2", "B12_2", "NDVI_2", "EVI_2", "EVI2_2", "SAVI_2", "NDWI_2"]
  const BandsJun: seq<string> :=
    ["B2_3", "B3_3", "B4_3", "B5_3", "B6_3", "B7_3", "B8_3", "B8A_3", "B11_3", "B12_3", "NDVI_3", "EVI_3", "EVI2_3", "SAVI_3", "NDWI_3"]
  const BandsJul: seq<string> :=
    ["B2_4", "B3_4", "B4_4", "B5_4", "B6_4", "B7_4", "B8_4", "B8A_4", "B11_4", "B12_4", "NDVI_4", "EVI_4", "EVI2_4", "SAVI_4", "NDWI_4"]
  const BandsAug: seq<string> :=
    ["B2_5", "B3_5", "B4_5", "B5_5", "B6_5", "B7_5", "B8_5", "B8A_5", "B11_5", "B12_5", "NDVI_5", "EVI_5", "EVI2_5", "SAVI_5", "NDWI_5"]
  const BandsSep: seq<string> :=
    ["B2_6", "B3_6", "B4_6", "B5_6", "B6_6", "B7_6", "B8_6", "B8A_6", "B11_6", "B12_6", "NDVI_6", "EVI_6", "EVI2_6", "SAVI_6", "NDWI_6"]
  const BandsOct: seq<string> :=
    ["B2_7", "B3_7", "B4_7", "B5_7", "B6_7", "B7_7", "B8_7", "B8A_7", "B11_7", "B12_7", "NDVI_7", "EVI_7", "EVI2_7", "SAVI_7", "NDWI_7"]

  /** `Bands_select`, as listed in the script: April (`_1`), June (`_3`), October (`_7`). */
  const BandsSelect: seq<string> := [
    "B3_1", "B4_1", "B6_1", "B8_1", "B11_1", "NDVI_1",
    "B3_3", "B4_3", "B6_3", "B8_3", "B11_3", "NDVI_3",
    "B3_7", "B4_7", "B6_7", "B8_7", "B11_7", "NDVI_7"]

  /** The selected months, as positions in the combined image. */
  const SelectMonths: seq<nat> := [1, 3, 7]

  /** `Bands` documents 15 bands for each of the eight months. */
  lemma BandsCount()
    ensures |Bands| == 15 * 8
  {
  }

  /** `Bands` holds each month's 15 bases in order, suffixed by the month. */
  lemma BandsLayout(m: nat, k: nat)
    requires m < 8 && k < 15
    ensures 15 * m + k < |Bands|
    ensures Bands[15 * m + k] == MonthBases[k] + MonthSuffix(m)
  {
    BandsCount();
    if m < 4 {
      MarchToJuneLayout(m, k);
    } else {
      JulyToOctoberLayout(m, k);
    }
  }

  /** The lines of March to June. */
  lemma MarchToJuneLayout(m: nat, k: nat)
    requires m < 4 && k < 15
    ensures Bands[15 * m + k] == MonthBases[k] + MonthSuffix(m)
  {
    if m == 0 {
      MarchLayout(m, k);
    } else if m == 1 {
      AprilLayout(m, k);
    } else if m == 2 {
      MayLayout(m, k);
    } else {
      JuneLayout(m, k);
    }
  }

  /** The lines of July to October. */
  lemma JulyToOctoberLayout(m: nat, k: nat)
    requires 4 <= m < 8 && k < 15
    ensures Bands[15 * m + k] == MonthBases[k] + MonthSuffix(m)
  {
    if m == 4 {
      JulyLayout(m, k);
    } else if m == 5 {
      AugustLayout(m, k);
    } else if m == 6 {
      SeptemberLayout(m, k);
    } else {
      OctoberLayout(m, k);
    }
  }

  /** The March line of `Bands`. */
  lemma MarchLayout(m: nat, k: nat)
    requires m == 0 && k < 15
    ensures Bands[15 * m + k] == MonthBases[k] + MonthSuffix(m)
  {
    assert Bands[k] == BandsMar[k];
  }

  /** The April line of `Bands`. */
  lemma AprilLayout(m: nat, k: nat)
    requires m == 1 && k < 15
    ensures Bands[15 * m + k] == MonthBases[k] + MonthSuffix(m)
  {
    assert Bands[15 + k] == BandsApr[k];
  }

  /** The May line of `Bands`. */
  lemma MayLayout(m: nat, k: nat)
    requires m == 2 && k < 15
    ensures Bands[15 * m + k] == MonthBases[k] + MonthSuffix(m)
  {
    assert Bands[30 + k] == BandsMay[k];
  }

  /** The June line of `Bands`. */
  lemma JuneLayout(m: nat, k: nat)
    requires m == 3 && k < 15
    ensures Bands[15 * m + k] == MonthBases[k] + MonthSuffix(m)
  {
    assert Bands[45 + k] == BandsJun[k];
  }

  /** The July line of `Bands`. */
  lemma JulyLayout(m: nat, k: nat)
    requires m == 4 && k < 15
    ensures Bands[15 * m + k] == MonthBases[k] + MonthSuffix(m)
  {
    assert Bands[60 + k] == BandsJul[k];
  }

  /** The August line of `Bands`. */
  lemma AugustLayout(m: nat, k: nat)
    requires m == 5 && k < 15
    ensures Bands[15 * m + k] == MonthBases[k] + MonthSuffix(m)
  {
    assert Bands[75 + k] == BandsAug[k];
  }

  /** The September line of `Bands`. */
  lemma SeptemberLayout(m: nat, k: nat)
    requires m == 6 && k < 15
    ensures Bands[15 * m + k] == MonthBases[k] + MonthSuffix(m)
  {
    assert Bands[90 + k] == BandsSep[k];
  }

  /** The October line of `Bands`. */
  lemma OctoberLayout(m: nat, k: nat)
    requires m == 7 && k < 15
    ensures Bands[15 * m + k] == MonthBases[k] + MonthSuffix(m)
  {
    assert Bands[105 + k] == BandsOct[k];
  }

  /** `Bands_select` holds, for each selected month in order, the six bases in order. */
  lemma BandsSelectLayout(i: nat)
    requires i < 18
    ensures |BandsSelect| == 18
    ensures BandsSelect[i] == SelectBases[i % 6] + MonthSuffix(SelectMonths[i / 6])
  {
  }

  /** Where each selected base sits among the 15 bases of a month. */
  function BasePosition(k: nat): (p: nat)
    requires k < 6
    ensures p < 15 && MonthBases[p] == SelectBases[k]
  {
    [1, 2, 4, 6, 8, 10][k]
  }

  /** Every selected band is one of the documented bands, at a known place. */
  lemma BandsSelectInBands(i: nat)
    requires i < 18
    ensures 15 * SelectMonths[i / 6] + BasePosition(i % 6) < |Bands|
    ensures BandsSelect[i] == Bands[15 * SelectMonths[i / 6] + BasePosition(i % 6)]
    ensures BandsSelect[i] in Bands
  {
  }

  /** Each selected month carries each selected base. */
  lemma SelectedMonthHasBase(j: nat, k: nat)
    requires j < 3 && k < 6
    ensures SelectBases[k] + MonthSuffix(SelectMonths[j]) == BandsSelect[6 * j + k]
  {
    BandsSelectLayout(6 * j + k);
  }

  /** For each selected month, exactly the six selected bases carry its suffix. */
  lemma SelectedMonthBases(m: nat, base: string)
    requires m in SelectMonths
    ensures base + MonthSuffix(m) in BandsSelect <==> base in SelectBases
  {
    var suffix := MonthSuffix(m);
    var j :| 0 <= j < 3 && SelectMonths[j] == m;
    if base in SelectBases {
      var k :| 0 <= k < 6 && SelectBases[k] == base;
      SelectedMonthHasBase(j, k);
    }
    if base + suffix in BandsSelect {
      var i :| 0 <= i < 18 && BandsSelect[i] == base + suffix;
      BandsSelectLayout(i);
      assert |MonthSuffix(SelectMonths[i / 6])| == 2 == |suffix|;
      SuffixCancel(SelectBases[i % 6], MonthSuffix(SelectMonths[i / 6]), base, suffix);
    }
  }

  /** Two names whose suffixes have equal length are equal only if stems and suffixes are. */
  lemma SuffixCancel(a: string, s: string, b: string, t: string)
    requires |s| == |t| && a + s == b + t
    ensures a == b && s == t
  {
    assert |a| == |b|;
    assert a == (a + s)[..|a|];
    assert b == (b + t)[..|b|];
    assert s == (a + s)[|a|..];
    assert t == (b + t)[|b|..];
  }

  /** The six selected bases are distinct. */
  lemma SelectBasesDistinct()
    ensures NoDup(SelectBases)
  {
  }

  /** No selected band name is listed twice. */
  lemma BandsSelectDistinct()
    ensures NoDup(BandsSelect)
  {
    SelectBasesDistinct();
    forall i, j | 0 <= i < j < 18 ensures BandsSelect[i] != BandsSelect[j] {
      BandsSelectLayout(i);
      BandsSelectLayout(j);
      var a, s := SelectBases[i % 6], MonthSuffix(SelectMonths[i / 6]);
      var b, t := SelectBases[j % 6], MonthSuffix(SelectMonths[j / 6]);
      assert |s| == 2 == |t|;
      if i % 6 == j % 6 {
        assert i / 6 != j / 6;
        assert s[1] != t[1];
      } else {
        assert a != b;
      }
      if a + s == b + t {
        SuffixCancel(a, s, b, t);
      }
    }
  }

  /** Every selected base is a band of each upsampled monthly composite, so the selection
      resolves whatever month suffix the combination adds. */
  lemma SelectBasesInComposite()
    ensures UpsampleBands(CompositeBandNames()).Upsampled?
    ensures forall b :: b in SelectBases ==> b in UpsampleBands(CompositeBandNames()).names
  {
    CompositeUpsamples();
    CompositeHasSelectBases();
    forall b | b in SelectBases ensures b in UpsampleBands(CompositeBandNames()).names {
      UpsampleKeepsPresent(CompositeBandNames(), b);
    }
  }

  /** A monthly composite carries every selected base. */
  lemma CompositeHasSelectBases()
    ensures forall b :: b in SelectBases ==> b in CompositeBandNames()
  {
    var names := CompositeBandNames();
    assert names[2] == "B3" && names[3] == "B4" && names[5] == "B6";
    assert names[7] == "B8" && names[10] == "B11" && names[13] == "NDVI";
  }
}
