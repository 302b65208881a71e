/** The per-species export loop: the job description with spaces stripped, the
    file-name prefix built from the taxonomy lookup, and one export request per species. */
module ExportNaming {
  import opened Taxonomy

  /** The number of U+0020 spaces in `s`. */
  function SpaceCount(s: string): (n: nat)
    ensures n <= |s|
  {
    if s == [] then 0 else (if s[0] == ' ' then 1 else 0) + SpaceCount(s[1..])
  }

  /** `SpaceCount` is the multiplicity of the space character. */
  lemma {:induction false} SpaceCountIsMultiplicity(s: string)
    ensures SpaceCount(s) == multiset(s)[' ']
  {
    if s != [] {
      assert s == [s[0]] + s[1..];
      SpaceCountIsMultiplicity(s[1..]);
    }
  }

  /** `species.replace(/ /g, '')`: every U+0020 space deleted, all other characters kept in order. */
  function StripSpaces(s: string): (r: string)
    ensures ' ' !in r
    ensures |r| == |s| - SpaceCount(s)
    ensures forall c :: c in r ==> c in s
  {
    if s == [] then []
    else
      assert s == [s[0]] + s[1..];
      (if s[0] == ' ' then [] else [s[0]]) + StripSpaces(s[1..])
  }

  /** A string without spaces is left as it is. */
  lemma {:induction false} StripSpacesIdentity(s: string)
    requires ' ' !in s
    ensures StripSpaces(s) == s
  {
    if s != [] {
      StripSpacesIdentity(s[1..]);
    }
  }

  /** Stripping twice gives the same name as stripping once. */
  lemma StripSpacesIdempotent(s: string)
    ensures StripSpaces(StripSpaces(s)) == StripSpaces(s)
  {
    StripSpacesIdentity(StripSpaces(s));
  }

  /** Stripping works piece by piece, so the kept characters stay in their order. */
  lemma {:induction false} StripSpacesConcat(a: string, b: string)
    ensures StripSpaces(a + b) == StripSpaces(a) + StripSpaces(b)
  {
    if a == [] {
      assert a + b == b;
    } else {
      assert (a + b)[0] == a[0];
      assert (a + b)[1..] == a[1..] + b;
      StripSpacesConcat(a[1..], b);
      var head := if a[0] == ' ' then [] else [a[0]];
      assert StripSpaces(a + b) == head + (StripSpaces(a[1..]) + StripSpaces(b));
    }
  }

  /** Every character other than a space occurs as often after stripping as before. */
  lemma {:induction false} StripSpacesKeepsOthers(s: string, c: char)
    requires c != ' '
    ensures multiset(StripSpaces(s))[c] == multiset(s)[c]
  {
    if s != [] {
      assert s == [s[0]] + s[1..];
      StripSpacesKeepsOthers(s[1..], c);
    }
  }

  /** A JS property of the lookup result: its text when concatenated, "undefined" when absent. */
  function Level1Text(c: Classification): string
  {
    if c.Classified? then c.level1 else "undefined"
  }

  function Level2Text(c: Classification): string
  {
    if c.Classified? then c.level2 else "undefined"
  }

  /** `level1 + '_' + level2 + '_' + species`, with the unstripped species name. */
  function FolderPath(c: Classification, species: string): (p: string)
    ensures |p| == |Level1Text(c)| + |Level2Text(c)| + 2 + |species|
    ensures p[|p| - |species|..] == species
    ensures c.Unclassified? ==> p[..20] == "undefined_undefined_"
  {
    Level1Text(c) + "_" + Level2Text(c) + "_" + species
  }

  /** The folder path starts with the group's prefix and ends with the species name as given. */
  lemma FolderPathParts(c: Classification, species: string)
    ensures var prefix := Level1Text(c) + "_" + Level2Text(c) + "_";
      |FolderPath(c, species)| == |prefix| + |species| &&
      FolderPath(c, species)[..|prefix|] == prefix &&
      FolderPath(c, species)[|prefix|..] == species
  {
  }

  /** An unmatched species yields a path that literally begins with "undefined_undefined_". */
  lemma UnclassifiedPath(species: string)
    ensures FolderPath(Unclassified, species)[..20] == "undefined_undefined_"
    ensures FolderPath(Unclassified, species)[20..] == species
  {
    FolderPathParts(Unclassified, species);
  }

  /** Within one (level1, level2) group, distinct species give distinct paths. */
  lemma FolderPathInjective(c: Classification, s1: string, s2: string)
    requires s1 != s2
    ensures FolderPath(c, s1) != FolderPath(c, s2)
  {
    FolderPathParts(c, s1);
    FolderPathParts(c, s2);
  }

  /** The fields of one `Export.table.toDrive` request that the script fixes. */
  datatype ExportJob = ExportJob(description: string, folder: string, fileNamePrefix: string, fileFormat: string)

  const DriveFolder := "TreeSatAI"
  const FileFormat := "GeoJSON"

  /** The request the loop body issues for one species. */
  function JobFor(h: Hierarchy, species: string): (job: ExportJob)
    ensures job.folder == "TreeSatAI" && job.fileFormat == "GeoJSON"
    ensures ' ' !in job.description && |job.description| <= |species|
    ensures |job.fileNamePrefix| >= |species| + 2
    ensures job.fileNamePrefix[|job.fileNamePrefix| - |species|..] == species
  {
    ExportJob(StripSpaces(species), DriveFolder,
              FolderPath(Resolve(Entries(h), species), species), FileFormat)
  }

  /** The description never holds a space; the file-name prefix keeps the species' spaces. */
  lemma SpacesOnlyInPrefix(h: Hierarchy, species: string)
    ensures ' ' !in JobFor(h, species).description
    ensures ' ' in species ==> ' ' in JobFor(h, species).fileNamePrefix
  {
    var c := Resolve(Entries(h), species);
    FolderPathParts(c, species);
    if ' ' in species {
      var k :| 0 <= k < |species| && species[k] == ' ';
      var n := |Level1Text(c) + "_" + Level2Text(c) + "_"|;
      assert FolderPath(c, species)[n + k] == ' ';
    }
  }

  /** Species of one group get distinct file names under the same group prefix. */
  lemma SameGroupDistinctFiles(h: Hierarchy, s1: string, s2: string)
    requires s1 != s2
    requires Resolve(Entries(h), s1) == Resolve(Entries(h), s2)
    ensures JobFor(h, s1).fileNamePrefix != JobFor(h, s2).fileNamePrefix
    ensures var c := Resolve(Entries(h), s1);
      var prefix := Level1Text(c) + "_" + Level2Text(c) + "_";
      JobFor(h, s1).fileNamePrefix[..|prefix|] == prefix &&
      JobFor(h, s2).fileNamePrefix[..|prefix|] == prefix
  {
    var c := Resolve(Entries(h), s1);
    FolderPathInjective(c, s1, s2);
    FolderPathParts(c, s1);
    FolderPathParts(c, s2);
  }

  /** With the shipped table, a species in none of its lists is exported under a path
      beginning "undefined_undefined_", and nothing fails. */
  lemma UnknownSpeciesPath(species: string)
    requires forall k :: 0 <= k < |ShippedEntries()| ==> species !in ShippedEntries()[k].species
    ensures Resolve(Entries(TreeHierarchy()), species) == Unclassified
    ensures JobFor(TreeHierarchy(), species).fileNamePrefix[..20] == "undefined_undefined_"
  {
    ShippedEntriesAreTheTable();
    ResolveUnclassifiedIff(ShippedEntries(), species);
    UnclassifiedPath(species);
  }

  /** The `forEach` callback for one species: strip the name, look up its classification,
      build the path and assemble the request. */
  method ExportRequest(h: Hierarchy, species: string) returns (job: ExportJob)
    ensures job == JobFor(h, species)
  {
    var safeSpeciesName := StripSpaces(species);
    var hierarchyInfo := GetSpeciesHierarchy(h, species);
    var folderPath := FolderPath(hierarchyInfo, species);
    job := ExportJob(safeSpeciesName, DriveFolder, folderPath, FileFormat);
  }

  /** `speciesList.forEach`: one export request per species, in list order. */
  method PlanExports(h: Hierarchy, speciesList: seq<string>) returns (jobs: seq<ExportJob>)
    ensures |jobs| == |speciesList|
    ensures forall i :: 0 <= i < |speciesList| ==> jobs[i] == JobFor(h, speciesList[i])
  {
    jobs := [];
    var i := 0;
    while i < |speciesList|
      invariant 0 <= i <= |speciesList|
      invariant |jobs| == i
      invariant forall k :: 0 <= k < i ==> jobs[k] == JobFor(h, speciesList[k])
    {
      var job := ExportRequest(h, speciesList[i]);
      ghost var before := jobs;
      jobs := jobs + [job];
      assert jobs[i] == job && jobs[..i] == before;
      i := i + 1;
    }
  }
}
