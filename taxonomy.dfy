/** The two-level tree-species taxonomy (level1 -> level2 -> species names)
    and the lookup that maps one species name to its (level1, level2) pair. */
module Taxonomy {

  /** A level2 key with its list of species names. */
  datatype Leaf = Leaf(level2: string, species: seq<string>)

  /** A level1 key with its level2 leaves, in key order. */
  datatype Group = Group(level1: string, leaves: seq<Leaf>)

  /** The nested object, with its keys in insertion order (the order `Object.keys` yields). */
  type Hierarchy = seq<Group>

  /** One leaf list together with both of its keys: the unit the lookup scans. */
  datatype Entry = Entry(level1: string, level2: string, species: seq<string>)

  /** What the lookup returns: the empty object `{}`, or `{level1, level2}`. */
  datatype Classification = Unclassified | Classified(level1: string, level2: string)

  /** No two groups share a level1 key, and no two leaves of a group share a level2 key,
      as in the JS object the literal builds (a repeated key in a literal would replace the
      earlier value). */
  predicate DistinctKeys(h: Hierarchy)
  {
    (forall i, j :: 0 <= i < j < |h| ==> h[i].level1 != h[j].level1) &&
    (forall i :: 0 <= i < |h| ==> forall j, k :: 0 <= j < k < |h[i].leaves| ==>
      h[i].leaves[j].level2 != h[i].leaves[k].level2)
  }

  /** The table as the script defines it. */
  function TreeHierarchy(): (h: Hierarchy)
    ensures DistinctKeys(h)
  {
    [ Group("broadleaf", [
        Leaf("beech", ["european beech"]),
        Leaf("oak", ["sessile oak", "english oak", "red oak"]),
        Leaf("long-lived deciduous", ["sycamore maple", "european ash", "linden", "cherry"]),
        Leaf("short-lived deciduous", ["alder", "poplar", "birch"])]),
      Group("needleleaf", [
        Leaf("fir", ["silver fir"]),
        Leaf("larch", ["european larch", "japanese larch"]),
        Leaf("spruce", ["norway spruce"]),
        Leaf("pine", ["scots pine", "black pine", "weymouth pine"]),
        Leaf("douglas fir", ["douglas fir"])])
    ]
  }

  /** `xs.indexOf(x)`: the first position of `x`, or -1 when it is absent. */
  function IndexOf(xs: seq<string>, x: string): (i: int)
    ensures -1 <= i < |xs|
    ensures i == -1 <==> x !in xs
    ensures 0 <= i ==> xs[i] == x && x !in xs[..i]
  {
    if xs == [] then -1
    else if xs[0] == x then 0
    else
      var k := IndexOf(xs[1..], x);
      if k == -1 then -1
      else
        assert xs[1..][..k] == xs[1..k + 1];
        k + 1
  }

  /** The entries of the leaves of one group, in key order. */
  function GroupEntries(level1: string, leaves: seq<Leaf>): (es: seq<Entry>)
    ensures |es| == |leaves|
    ensures forall j :: 0 <= j < |leaves| ==>
      es[j] == Entry(level1, leaves[j].level2, leaves[j].species)
  {
    if leaves == [] then []
    else
      var last := leaves[|leaves| - 1];
      GroupEntries(level1, leaves[..|leaves| - 1]) + [Entry(level1, last.level2, last.species)]
  }

  /** All leaves of the table, in the order the nested loops visit them. */
  function Entries(h: Hierarchy): seq<Entry>
  {
    if h == [] then []
    else Entries(h[..|h| - 1]) + GroupEntries(h[|h| - 1].level1, h[|h| - 1].leaves)
  }

  /** The lookup as a specification: the pair of the LAST entry whose list holds `name`. */
  function Resolve(es: seq<Entry>, name: string): (c: Classification)
    ensures c.Classified? ==> exists k :: (0 <= k < |es| && name in es[k].species &&
      es[k].level1 == c.level1 && es[k].level2 == c.level2)
  {
    if es == [] then Unclassified
    else
      var e := es[|es| - 1];
      if name in e.species then Classified(e.level1, e.level2)
      else Resolve(es[..|es| - 1], name)
  }

  /** Entry `k` holds `name` and no later entry does. */
  ghost predicate IsLastMatch(es: seq<Entry>, name: string, k: int)
  {
    0 <= k < |es| && name in es[k].species &&
    forall j :: k < j < |es| ==> name !in es[j].species
  }

  /** The species appears in no leaf list at all. */
  ghost predicate Unlisted(es: seq<Entry>, name: string)
  {
    forall k :: 0 <= k < |es| ==> name !in es[k].species
  }

  /** `name` is in the list `h[level1][level2]`. */
  ghost predicate InTable(h: Hierarchy, level1: string, level2: string, name: string)
  {
    exists i, j :: 0 <= i < |h| && 0 <= j < |h[i].leaves| &&
      h[i].level1 == level1 && h[i].leaves[j].level2 == level2 && name in h[i].leaves[j].species
  }

  /** `getSpeciesHierarchy`: nested loops over the level1 and level2 keys, each match
      overwriting `result`. */
  method GetSpeciesHierarchy(h: Hierarchy, speciesName: string) returns (result: Classification)
    ensures result == Resolve(Entries(h), speciesName)
  {
    result := Unclassified;
    var i := 0;
    while i < |h|
      invariant 0 <= i <= |h|
      invariant result == Resolve(Entries(h[..i]), speciesName)
    {
      var level1 := h[i].level1;
      var level2Dict := h[i].leaves;
      var j := 0;
      assert level2Dict[..0] == [];
      assert Entries(h[..i]) + GroupEntries(level1, level2Dict[..0]) == Entries(h[..i]);
      while j < |level2Dict|
        invariant 0 <= j <= |level2Dict|
        invariant result == Resolve(Entries(h[..i]) + GroupEntries(level1, level2Dict[..j]), speciesName)
      {
        var entry := Entry(level1, level2Dict[j].level2, level2Dict[j].species);
        GroupEntriesStep(Entries(h[..i]), level1, level2Dict, j);
        ResolveStep(Entries(h[..i]) + GroupEntries(level1, level2Dict[..j]), entry, speciesName);
        if IndexOf(level2Dict[j].species, speciesName) != -1 {
          result := Classified(level1, level2Dict[j].level2);
        }
        j := j + 1;
      }
      assert level2Dict[..j] == level2Dict;
      EntriesStep(h, i);
      i := i + 1;
    }
    assert h[..i] == h;
  }

  /** The leaves of a group, one more at a time, after the entries `done` already visited. */
  lemma GroupEntriesStep(done: seq<Entry>, level1: string, leaves: seq<Leaf>, j: int)
    requires 0 <= j < |leaves|
    ensures done + GroupEntries(level1, leaves[..j + 1]) ==
      (done + GroupEntries(level1, leaves[..j])) + [Entry(level1, leaves[j].level2, leaves[j].species)]
  {
    assert leaves[..j + 1][..j] == leaves[..j];
  }

  /** The groups of a table, one more at a time. */
  lemma EntriesStep(h: Hierarchy, i: int)
    requires 0 <= i < |h|
    ensures Entries(h[..i + 1]) == Entries(h[..i]) + GroupEntries(h[i].level1, h[i].leaves)
  {
    assert h[..i + 1][..i] == h[..i];
  }

  /** Scanning one more entry: a match overwrites the result, otherwise it stays. */
  lemma ResolveStep(es: seq<Entry>, e: Entry, name: string)
    ensures Resolve(es + [e], name) ==
      if name in e.species then Classified(e.level1, e.level2) else Resolve(es, name)
  {
    assert (es + [e])[..|es|] == es;
  }

  /** No match anywhere gives the empty result, and only then. */
  lemma {:induction false} ResolveUnclassifiedIff(es: seq<Entry>, name: string)
    ensures Resolve(es, name) == Unclassified <==> Unlisted(es, name)
  {
    if es != [] {
      ResolveUnclassifiedIff(es[..|es| - 1], name);
      var last := |es| - 1;
      if name !in es[last].species && Unlisted(es[..last], name) {
        forall k | 0 <= k < |es| ensures name !in es[k].species {
          if k < last { assert es[..last][k] == es[k]; }
        }
      }
      if Unlisted(es, name) {
        forall k | 0 <= k < last ensures name !in es[..last][k].species {
          assert es[..last][k] == es[k];
        }
      }
    }
  }

  /** A classified result names the keys of the last leaf list holding the species. */
  lemma {:induction false} ResolveFindsLastMatch(es: seq<Entry>, name: string)
    requires Resolve(es, name).Classified?
    ensures exists k :: (IsLastMatch(es, name, k) &&
      Resolve(es, name) == Classified(es[k].level1, es[k].level2))
  {
    var last := |es| - 1;
    if name in es[last].species {
      assert IsLastMatch(es, name, last);
    } else {
      ResolveFindsLastMatch(es[..last], name);
      var k :| IsLastMatch(es[..last], name, k) &&
        Resolve(es[..last], name) == Classified(es[..last][k].level1, es[..last][k].level2);
      assert es[..last][k] == es[k];
      forall j | k < j < |es| ensures name !in es[j].species {
        if j < last { assert es[..last][j] == es[j]; }
      }
      assert IsLastMatch(es, name, k);
    }
  }

  /** Conversely, whatever entry is the last match decides the result. */
  lemma {:induction false} LastMatchDecides(es: seq<Entry>, name: string, k: int)
    requires IsLastMatch(es, name, k)
    ensures Resolve(es, name) == Classified(es[k].level1, es[k].level2)
  {
    var last := |es| - 1;
    if k < last {
      assert name !in es[last].species;
      forall j | k < j < last ensures name !in es[..last][j].species {
        assert es[..last][j] == es[j];
      }
      assert es[..last][k] == es[k];
      LastMatchDecides(es[..last], name, k);
    }
  }

  /** A species listed in exactly one leaf list resolves to that leaf's keys. */
  lemma ListedOnceResolves(es: seq<Entry>, name: string, k: int)
    requires 0 <= k < |es| && name in es[k].species
    requires forall j :: 0 <= j < |es| && j != k ==> name !in es[j].species
    ensures Resolve(es, name) == Classified(es[k].level1, es[k].level2)
  {
    LastMatchDecides(es, name, k);
  }

  /** Every entry comes from a leaf of the table, with both of its keys. */
  lemma {:induction false} EntriesFromTable(h: Hierarchy, k: int)
    requires 0 <= k < |Entries(h)|
    ensures exists i, j :: (0 <= i < |h| && 0 <= j < |h[i].leaves| &&
      Entries(h)[k] == Entry(h[i].level1, h[i].leaves[j].level2, h[i].leaves[j].species))
  {
    var g := |h| - 1;
    var front := Entries(h[..g]);
    if k < |front| {
      EntriesFromTable(h[..g], k);
      var i, j :| 0 <= i < |h[..g]| && 0 <= j < |h[..g][i].leaves| &&
        front[k] == Entry(h[..g][i].level1, h[..g][i].leaves[j].level2, h[..g][i].leaves[j].species);
      assert h[..g][i] == h[i];
    } else {
      var j := k - |front|;
      assert Entries(h)[k] == Entry(h[g].level1, h[g].leaves[j].level2, h[g].leaves[j].species);
    }
  }

  /** Every leaf of the table appears among the entries. */
  lemma {:induction false} TableInEntries(h: Hierarchy, i: int, j: int)
    requires 0 <= i < |h| && 0 <= j < |h[i].leaves|
    ensures Entry(h[i].level1, h[i].leaves[j].level2, h[i].leaves[j].species) in Entries(h)
  {
    var g := |h| - 1;
    if i < g {
      assert h[..g][i] == h[i];
      TableInEntries(h[..g], i, j);
    } else {
      var front := Entries(h[..g]);
      assert Entries(h)[|front| + j] == Entry(h[i].level1, h[i].leaves[j].level2, h[i].leaves[j].species);
    }
  }

  /** If the lookup returns `{level1, level2}`, the species is in `h[level1][level2]`. */
  lemma LookupSound(h: Hierarchy, name: string)
    requires Resolve(Entries(h), name).Classified?
    ensures InTable(h, Resolve(Entries(h), name).level1, Resolve(Entries(h), name).level2, name)
  {
    ResolveFindsLastMatch(Entries(h), name);
    var k :| IsLastMatch(Entries(h), name, k) &&
      Resolve(Entries(h), name) == Classified(Entries(h)[k].level1, Entries(h)[k].level2);
    EntriesFromTable(h, k);
  }

  /** The lookup returns `{}` exactly when the species is in no leaf list of the table. */
  lemma LookupEmptyIff(h: Hierarchy, name: string)
    ensures Resolve(Entries(h), name) == Unclassified <==>
      forall i, j :: 0 <= i < |h| && 0 <= j < |h[i].leaves| ==> name !in h[i].leaves[j].species
  {
    ResolveUnclassifiedIff(Entries(h), name);
    if Unlisted(Entries(h), name) {
      forall i, j | 0 <= i < |h| && 0 <= j < |h[i].leaves|
        ensures name !in h[i].leaves[j].species
      {
        TableInEntries(h, i, j);
      }
    } else {
      var k :| 0 <= k < |Entries(h)| && name in Entries(h)[k].species;
      EntriesFromTable(h, k);
    }
  }

  /** The table flattened: nine leaf lists, broadleaf before needleleaf. */
  function ShippedEntries(): seq<Entry>
  {
    [ Entry("broadleaf", "beech", ["european beech"]),
      Entry("broadleaf", "oak", ["sessile oak", "english oak", "red oak"]),
      Entry("broadleaf", "long-lived deciduous", ["sycamore maple", "european ash", "linden", "cherry"]),
      Entry("broadleaf", "short-lived deciduous", ["alder", "poplar", "birch"]),
      Entry("needleleaf", "fir", ["silver fir"]),
      Entry("needleleaf", "larch", ["european larch", "japanese larch"]),
      Entry("needleleaf", "spruce", ["norway spruce"]),
      Entry("needleleaf", "pine", ["scots pine", "black pine", "weymouth pine"]),
      Entry("needleleaf", "douglas fir", ["douglas fir"]) ]
  }

  /** The nested loops visit exactly these nine leaf lists, in this order. */
  lemma ShippedEntriesAreTheTable()
    ensures Entries(TreeHierarchy()) == ShippedEntries()
  {
    var h, want := TreeHierarchy(), ShippedEntries();
    EntriesOfTwoGroups(h);
    BroadleafEntries();
    NeedleleafEntries();
    assert want == want[..4] + want[4..];
  }

  /** A table of two groups is visited group by group. */
  lemma EntriesOfTwoGroups(h: Hierarchy)
    requires |h| == 2
    ensures Entries(h) == GroupEntries(h[0].level1, h[0].leaves) + GroupEntries(h[1].level1, h[1].leaves)
  {
    var first := GroupEntries(h[0].level1, h[0].leaves);
    assert h[..1][..0] == [] && h[..1][0] == h[0];
    assert Entries(h[..1]) == Entries([]) + first == first;
    assert h[..1] == h[..|h| - 1];
  }

  /** The four broadleaf leaf lists, in key order. */
  lemma BroadleafEntries()
    ensures GroupEntries(TreeHierarchy()[0].level1, TreeHierarchy()[0].leaves) == ShippedEntries()[..4]
  {
    var g, want := TreeHierarchy()[0], ShippedEntries()[..4];
    var es := GroupEntries(g.level1, g.leaves);
    assert |es| == 4 == |want|;
    assert es[0] == want[0] && es[1] == want[1];
    assert es[2] == want[2] && es[3] == want[3];
  }

  /** The five needleleaf leaf lists, in key order. */
  lemma NeedleleafEntries()
    ensures GroupEntries(TreeHierarchy()[1].level1, TreeHierarchy()[1].leaves) == ShippedEntries()[4..]
  {
    var g, want := TreeHierarchy()[1], ShippedEntries()[4..];
    var es := GroupEntries(g.level1, g.leaves);
    assert |es| == 5 == |want|;
    assert es[0] == want[0] && es[1] == want[1] && es[2] == want[2];
    assert es[3] == want[3] && es[4] == want[4];
  }

  /** Every species of the shipped table is listed exactly once. */
  lemma ShippedListedOnce(k: int, name: string)
    requires 0 <= k < |ShippedEntries()| && name in ShippedEntries()[k].species
    ensures forall j :: 0 <= j < |ShippedEntries()| && j != k ==> name !in ShippedEntries()[j].species
  {
  }

  /** Each of the 19 listed species resolves to its own unique (level1, level2) pair. */
  lemma ShippedLookupUnique(k: int, name: string)
    requires 0 <= k < |ShippedEntries()| && name in ShippedEntries()[k].species
    ensures Resolve(Entries(TreeHierarchy()), name) ==
      Classified(ShippedEntries()[k].level1, ShippedEntries()[k].level2)
  {
    ShippedEntriesAreTheTable();
    ShippedListedOnce(k, name);
    ListedOnceResolves(ShippedEntries(), name, k);
  }

  /** 'european beech' resolves to broadleaf/beech. */
  lemma EuropeanBeech()
    ensures Resolve(Entries(TreeHierarchy()), "european beech") == Classified("broadleaf", "beech")
  {
    ShippedLookupUnique(0, "european beech");
  }
}
