# Tree-species Sentinel-2 export script: the local logic, verified

The script `Sen2_TreeSpecies_ImageCollection.js` builds monthly Sentinel-2 composites over
Germany on a remote imagery platform. It then samples a 3×3 neighbourhood image at labelled
tree locations and exports one table per species. Almost all of its work is done remotely.
This project models the parts whose behaviour is fixed by the script itself:

- **Taxonomy lookup** (`taxonomy.dfy`, module `Taxonomy`). `treeHierarchy` is a two-level
  table: level1 → level2 → list of species. It is modelled as a sequence of groups whose keys
  are in `Object.keys` order. `getSpeciesHierarchy` is a method with the script's two nested
  loops. Each loop step overwrites `result` on a match. The method is proved equal to `Resolve`,
  which returns the keys of the LAST leaf list holding the name, or `Unclassified` (the empty
  object `{}`) when no list holds it. Lemmas prove that `Resolve` is sound, that the empty
  result means "listed nowhere", and that the last match wins. They also prove that each of
  the 19 species in the shipped table is listed once and so resolves to its own pair.
- **Export naming** (`naming.dfy`, module `ExportNaming`). `StripSpaces` is
  `species.replace(/ /g, '')`. `FolderPath` is `level1 + '_' + level2 + '_' + species`.
  JavaScript writes a missing property as `undefined` when it concatenates, so an unmatched
  species gets a path that begins `undefined_undefined_`. `PlanExports` is the `forEach` loop.
  It issues one export request per species, with the stripped name as the description, the
  unstripped path as the file-name prefix, folder `TreeSatAI` and format `GeoJSON`.
- **Band names through `upsampleBands`** (`bands.dfy`, module `BandNames`). Only names are
  modelled, not pixels. The six bands B5, B6, B7, B8A, B11 and B12 are removed with
  `removeAll` and appended again in list order. `image.select` of a band the image lacks is an
  error on the platform, so it is modelled as `MissingBand`. The module also holds the band
  names of a monthly composite in which some scene passes the filters: the 13 common bands,
  then the five index bands. A month with no such scene yields no bands and fails to upsample.
- **Band lists** (`selection.dfy`, module `BandSelection`). These are the documented `Bands`
  list (15 bases × 8 months, suffixes `""`, `_1` … `_7`) and the fixed 18-name `Bands_select`.
- **Cloud mask** (`cloudmask.dfy`, module `CloudMask`). `cloudProb.lt(20)` followed by
  `updateMask`. A pixel stays unmasked iff it was unmasked and its cloud probability is
  below 20. Its values are left unchanged: the pixel is hidden, not clipped.

Two behaviours of the code are worth stating plainly:
- The lookup returns the LAST matching (level1, level2) pair, because the loop overwrites
  `result` on every match. In the shipped table every species is listed once, so first and
  last match agree there (`ShippedLookupUnique`).
- An unmatched species is neither rejected nor flagged. It is exported under a path beginning
  `undefined_undefined_` (`UnknownSpeciesPath`).

## Model

| member | source | states |
|---|---|---|
| Taxonomy.IndexOf | Sen2_TreeSpecies_ImageCollection.js:198 | `indexOf` is -1 exactly when the name is absent; otherwise it is the position of the first occurrence |
| Taxonomy.TreeHierarchy | Sen2_TreeSpecies_ImageCollection.js:176-190 | the shipped table repeats no level1 key, and no level2 key within a group |
| Taxonomy.Resolve | Sen2_TreeSpecies_ImageCollection.js:193-204 | a classified result carries the keys of some leaf list that holds the name |
| Taxonomy.GetSpeciesHierarchy | Sen2_TreeSpecies_ImageCollection.js:193-204 | the nested loops, overwriting `result` on each match, return `Resolve` of the table's leaf lists in key order |
| Taxonomy.ResolveStep | Sen2_TreeSpecies_ImageCollection.js:198-200 | scanning one more leaf list overwrites the result with its keys when it holds the name and keeps the result otherwise |
| Taxonomy.ResolveUnclassifiedIff | Sen2_TreeSpecies_ImageCollection.js:194-203 | the result is the empty object iff no leaf list holds the name (both directions) |
| Taxonomy.ResolveFindsLastMatch | Sen2_TreeSpecies_ImageCollection.js:195-203 | a classified result carries the keys of a leaf list that holds the name and is followed by no other list holding it |
| Taxonomy.LastMatchDecides | Sen2_TreeSpecies_ImageCollection.js:199 | the last leaf list holding the name decides the result, whatever earlier lists also hold it |
| Taxonomy.ListedOnceResolves | Sen2_TreeSpecies_ImageCollection.js:198-199 | a name held by exactly one leaf list resolves to that list's (level1, level2) |
| Taxonomy.EntriesFromTable | Sen2_TreeSpecies_ImageCollection.js:195-197 | every leaf list the loops visit is `h[level1][level2]` for keys of the table |
| Taxonomy.TableInEntries | Sen2_TreeSpecies_ImageCollection.js:195-197 | the loops visit every leaf list of the table |
| Taxonomy.LookupSound | Sen2_TreeSpecies_ImageCollection.js:193-204 | if the lookup returns `{level1, level2}` then the name is in `treeHierarchy[level1][level2]` |
| Taxonomy.LookupEmptyIff | Sen2_TreeSpecies_ImageCollection.js:193-204 | the lookup returns `{}` iff the name is in no leaf list of the table |
| Taxonomy.ShippedEntriesAreTheTable | Sen2_TreeSpecies_ImageCollection.js:176-190 | the loops visit the nine shipped leaf lists in this order: broadleaf beech, oak, long-lived, short-lived; needleleaf fir, larch, spruce, pine, douglas fir |
| Taxonomy.ShippedListedOnce | Sen2_TreeSpecies_ImageCollection.js:176-190 | no species of the shipped table is listed in two leaf lists |
| Taxonomy.ShippedLookupUnique | Sen2_TreeSpecies_ImageCollection.js:176-204 | each of the 19 shipped species resolves to the keys of the one list that holds it |
| Taxonomy.EuropeanBeech | Sen2_TreeSpecies_ImageCollection.js:178 | 'european beech' resolves to broadleaf / beech |
| ExportNaming.StripSpaces | Sen2_TreeSpecies_ImageCollection.js:211 | the stripped name holds no space, is shorter by exactly the number of spaces, and holds only characters of the input |
| ExportNaming.StripSpacesIdentity | Sen2_TreeSpecies_ImageCollection.js:211 | a name without spaces is left unchanged |
| ExportNaming.StripSpacesIdempotent | Sen2_TreeSpecies_ImageCollection.js:211 | stripping twice equals stripping once |
| ExportNaming.StripSpacesConcat | Sen2_TreeSpecies_ImageCollection.js:211 | stripping distributes over concatenation, so the kept characters keep their order |
| ExportNaming.StripSpacesKeepsOthers | Sen2_TreeSpecies_ImageCollection.js:211 | every non-space character occurs as often after stripping as before |
| ExportNaming.FolderPath | Sen2_TreeSpecies_ImageCollection.js:214-219 | the path is as long as both keys, two separators and the species; it ends with the unstripped species, and for the empty lookup result it begins `undefined_undefined_` |
| ExportNaming.FolderPathParts | Sen2_TreeSpecies_ImageCollection.js:219 | the path is the group prefix `level1_level2_` followed by the unstripped species name |
| ExportNaming.UnclassifiedPath | Sen2_TreeSpecies_ImageCollection.js:214-219 | for the empty lookup result the path is `undefined_undefined_` followed by the species name |
| ExportNaming.FolderPathInjective | Sen2_TreeSpecies_ImageCollection.js:219 | within one group, distinct species give distinct paths |
| ExportNaming.JobFor | Sen2_TreeSpecies_ImageCollection.js:211-233 | the request goes to folder `TreeSatAI` as `GeoJSON`; its description holds no space and is no longer than the species; its prefix ends with the unstripped species |
| ExportNaming.SpacesOnlyInPrefix | Sen2_TreeSpecies_ImageCollection.js:211-232 | the job description never holds a space, while a space in the species name survives in `fileNamePrefix` |
| ExportNaming.SameGroupDistinctFiles | Sen2_TreeSpecies_ImageCollection.js:214-232 | species of one group get distinct file-name prefixes that share the group's prefix |
| ExportNaming.UnknownSpeciesPath | Sen2_TreeSpecies_ImageCollection.js:214-219 | with the shipped table, a species in no list is unclassified and its prefix begins `undefined_undefined_` |
| ExportNaming.ExportRequest | Sen2_TreeSpecies_ImageCollection.js:208-235 | the `forEach` callback for one species (strip, look up, build the path, assemble) issues exactly the request `JobFor` describes |
| ExportNaming.PlanExports | Sen2_TreeSpecies_ImageCollection.js:207-236 | one request per species, in list order: stripped description, folder `TreeSatAI`, prefix from the lookup, format `GeoJSON` |
| BandNames.RemoveAll | Sen2_TreeSpecies_ImageCollection.js:128 | a name is in the result iff it is in the input and not in the removal list |
| BandNames.RemoveAllIdentity | Sen2_TreeSpecies_ImageCollection.js:128 | a list holding none of the removed names comes back unchanged |
| BandNames.RemoveAllConcat | Sen2_TreeSpecies_ImageCollection.js:128 | removal distributes over concatenation, so the kept names keep their order |
| BandNames.RemoveAllCount | Sen2_TreeSpecies_ImageCollection.js:128 | a kept name occurs as often as before, a removed one not at all |
| BandNames.ReplacePermutation | Sen2_TreeSpecies_ImageCollection.js:128-131 | removing distinct present names and appending them again permutes a list of distinct names and keeps it distinct |
| BandNames.BandsToUpsampleDistinct | Sen2_TreeSpecies_ImageCollection.js:115 | the six bands `upsampleBands` reprojects, B5, B6, B7, B8A, B11 and B12, are distinct |
| BandNames.UpsampleBands | Sen2_TreeSpecies_ImageCollection.js:113-134 | fails iff one of the six bands is missing from the image, and then names such a band |
| BandNames.UpsampleShape | Sen2_TreeSpecies_ImageCollection.js:115-131 | the output ends with B5, B6, B7, B8A, B11, B12 in that order; none of them occurs before; every other name occurs as often as in the input |
| BandNames.UpsampleKeepsPresent | Sen2_TreeSpecies_ImageCollection.js:128-131 | no band name of the input is lost |
| BandNames.UpsampleKeepsOrder | Sen2_TreeSpecies_ImageCollection.js:128-131 | the names outside the six keep their relative order |
| BandNames.UpsamplePermutation | Sen2_TreeSpecies_ImageCollection.js:128-131 | with distinct input names, the output is a permutation of the input and stays distinct |
| BandNames.UpsampleIdempotent | Sen2_TreeSpecies_ImageCollection.js:113-134 | upsampling twice gives the same band names as upsampling once |
| BandNames.UpsampleMissingFirst | Sen2_TreeSpecies_ImageCollection.js:118-119 | an image without B5 fails on B5 |
| BandNames.UpsampleDistinctNames | Sen2_TreeSpecies_ImageCollection.js:113-134 | an image with distinct names and all six bands upsamples to the same number of distinct names |
| BandNames.CompositeHasUpsampleBands | Sen2_TreeSpecies_ImageCollection.js:20-21 | the common band list holds all six bands `upsampleBands` selects |
| BandNames.CompositeDistinct | Sen2_TreeSpecies_ImageCollection.js:20-67 | the 13 common bands and the five index bands are distinct |
| BandNames.EmptyMonthFails | Sen2_TreeSpecies_ImageCollection.js:118-119 | a composite without bands (a month no scene passes) fails to upsample, on B5 |
| BandNames.CompositeUpsamples | Sen2_TreeSpecies_ImageCollection.js:137-144 | upsampling a monthly composite succeeds and yields 18 distinct band names |
| BandSelection.BandsCount | Sen2_TreeSpecies_ImageCollection.js:149-156 | `Bands` lists 120 names |
| BandSelection.BandsLayout | Sen2_TreeSpecies_ImageCollection.js:149-156 | name 15·m + k of `Bands` is base k of the 15 documented bases with month m's suffix (none for March, `_1` … `_7` after) |
| BandSelection.BandsSelectLayout | Sen2_TreeSpecies_ImageCollection.js:163-165 | `Bands_select` has 18 entries: for `_1`, `_3` and `_7` in turn, the bases B3, B4, B6, B8, B11, NDVI |
| BandSelection.BasePosition | Sen2_TreeSpecies_ImageCollection.js:149 | each selected base is one of the 15 documented bases |
| BandSelection.BandsSelectInBands | Sen2_TreeSpecies_ImageCollection.js:149-165 | every entry of `Bands_select` is in `Bands`, at position 15·month + position of its base |
| BandSelection.SelectedMonthHasBase | Sen2_TreeSpecies_ImageCollection.js:159-165 | each selected month carries each of the six selected bases |
| BandSelection.SelectedMonthBases | Sen2_TreeSpecies_ImageCollection.js:159-165 | for each of `_1`, `_3` and `_7`, a base with that suffix is selected iff it is one of the six |
| BandSelection.SelectBasesDistinct | Sen2_TreeSpecies_ImageCollection.js:161 | the six selected bases are distinct |
| BandSelection.BandsSelectDistinct | Sen2_TreeSpecies_ImageCollection.js:163-165 | no band is selected twice |
| BandSelection.SelectBasesInComposite | Sen2_TreeSpecies_ImageCollection.js:161-168 | every selected base is a band of the upsampled 18-name composite of a month in which some scene passes the filters |
| CloudMask.MaskClouds | Sen2_TreeSpecies_ImageCollection.js:71-78 | a pixel stays unmasked iff it was unmasked and its cloud probability is below 20; values are not changed |
| CloudMask.CloudFree | Sen2_TreeSpecies_ImageCollection.js:76 | a probability is kept iff it is at most 19 |
| CloudMask.ThresholdExamples | Sen2_TreeSpecies_ImageCollection.js:76 | probability 19 is kept; 20 and 25 are masked |
| CloudMask.MaskIdempotent | Sen2_TreeSpecies_ImageCollection.js:76-78 | masking twice equals masking once |
| CloudMask.MaskOnlyHides | Sen2_TreeSpecies_ImageCollection.js:76-78 | the number of unmasked pixels never grows, and stays the same iff every unmasked pixel has probability below 20 |

## Left out

- Every remote call is left out, because its implementation cannot be seen. This covers the
  catalog query and its region, date and scene cloud-cover filters (:84-91), `median` (:98),
  `clip`, `reproject` (:120-123), `neighborhoodToArray` (:171-172), `sampleRegions`
  (:222-225) and the delivery done by `Export.table.toDrive` (:228-234). `PlanExports`
  records only the request fields the script fixes.
- The vegetation-index formulas (:24-67) and the reflectance scaling `divide(10000)` (:78) are
  left out. They are floating-point arithmetic evaluated remotely. `MaskClouds` models the mask
  only.
- The `_n` suffixes that `addBands` gives duplicate band names (:147) are left out. This is
  platform behaviour. The model takes the `Bands` list as the documentation of the result.
- The asynchronous `evaluate` callback and the distinct-species query (:7, :207) are left out.
  `PlanExports` takes the species list as a given sequence. Its requests are values, not
  fire-and-forget calls.
- The month wiring (:102-147) is left out. Note that `s2_Mar_upsampled` is built from
  `s2_Apr` (:137), evidently a copy-paste slip. It only changes which image feeds the March
  bands; no band name changes.
- The `Bands` list does not mention B1, B9 or MSK_CLDPRB. A composite still carries those
  bands (:20-21). The model does not use `Bands` to describe the combined image.
- CompositeBandNames: describes a month in which at least one scene passes the region, date
  and `CLOUDY_PIXEL_PERCENTAGE < 20` filters (:85-87). When none does, `median()` gives an image
  without bands; `EmptyMonthFails` shows that `upsampleBands` then fails on B5, so the
  selection (:168) is never reached. The lemmas about the composite assume the non-empty case.
- `StripSpaces` removes only U+0020, like the regular expression `/ /g`. Tabs and other
  whitespace are kept.
