# DataTables CDN builder: validation, static-prefix finder, cache and build assembly

This project models the part of the DataTables CDN builder that decides whether a
request path names a valid build and then assembles that build. A path such as
`/bs/jq-3.3.1/dt-1.10.18/b-1.5.6/b-colvis-1.5.6/datatables.min.js` is a list of
module segments followed by a file name. Each segment is an abbreviation from
the catalog followed by one of that module's versions.

The project is split into these modules:

- `Optional` and `Strings` (in `strings.dfy`) provide the JavaScript operations the source relies on:
  - `Map.get` returning `undefined`, modelled as `Option`;
  - `split` on one character, and joining back;
  - `String.replace` with a string pattern, which replaces only the first occurrence and expands the `$$`, `$&`, `` $` `` and `$'` patterns of its replacement text.
- `Catalog` covers the configuration and its elements. It also holds the derivation of a segment's abbreviation and version (`b-colvis-1.5.6` gives `b-colvis-` and `1.5.6`), and the abbreviation-keyed tables built from the catalog, where a later element overwrites an earlier one.
- `UrlValidate` is the current validator. Class `URLValidate` has the `excludes` field, which `validateVersion` grows across calls.
  - It checks the trailing filename against the permitted names.
  - It then checks that every abbreviation is known, that orders never decrease, and that every required order occurs.
  - Finally, each segment must spell `abbr + version` of a catalog element that is not yet excluded.
- `FileRead` is the earlier validator. It walks the path with one shared index:
  - a styling segment first;
  - at most one third-party package, rejecting a doubled jQuery flavour;
  - an optional core library;
  - then extensions only.
- `StaticRequest` models `findStaticRequest`. It returns the index of the first unknown segment. When every segment is known, it returns `0` if a required order is still missing, treating the requirements as a multiset, and `-1` otherwise.
- `CacheStore` holds class `Cache`. This is a bounded map plus an insertion list, with first-in-first-out eviction. The class also derives the catalog lookup tables.
- `Builder` holds class `BuildFile`. It cuts the path into segments, expands the `{macro}` and `{version}` placeholders in filename templates, and forms the storage paths. It fetches them through the cache, appends the fragments to the build message, and fills in the two header placeholders.

Storage is the parameter `disk: map<string, Stored>`. A missing key means the file does not exist. `Unreadable` is a file whose read throws.

Every imperative operation is a method proved against a specification function on values. For example:

- `BuildFile.BuildFile` ensures `(r, Now()) == BuildSpec(config, disk, old(Now()), filePath)`.
- `Cache.UpdateCache` ensures `State() == Update(old(State()), filename, fileContent)`.

The lemmas then state what the source promises about those functions.

Where the design description of the system and the code differ, the model follows the code:

- Eviction is first-in-first-out over the insertion list. It happens even when the name being stored is already present. A name that is present is never overwritten.
- Macro values from a later segment override those of an earlier one. They are not "insert if absent".
- Macro, `{version}` and header substitutions replace only the first occurrence. They are not repeated until no occurrence remains.
- `findStaticRequest` on an empty path with a non-empty requirement list returns `0`, which lies outside `-1 .. length-1`.
- A cached empty string counts as a cache miss, because `searchCache` returns `''`, which is falsy.
- The `'500'` abort check matches only string results. A fresh read is a `Buffer` and never aborts the build, even when its content is `500`.
- `buildFile` treats an empty build (`''`) as a failure, because `!file` is true for it.

## Model

| member | source | states |
|---|---|---|
| Optional.Get | src/URLValidate.ts:59 | `Map.get` answers `Some(m[k])` exactly when the key is present and `undefined` (None) otherwise |
| Strings.Split | src/URLValidate.ts:18 | `split` on one character yields at least one part, no part holds the separator, joining the parts gives the string back, there are several parts iff the separator occurs, and the first part is the text before the first separator |
| Strings.FirstOccurrence | src/BuildFile.ts:135-136 | the search `replace` performs: the index found holds the pattern and none before it does, and no index does when nothing is found |
| Strings.ReplaceFirstOccurrence | src/BuildFile.ts:135-136 | `replace` with a string pattern rewrites exactly the first occurrence: the text before it, the expansion of the replacement text (`$$`, `$&`, `` $` ``, `$'`), then the text after it; a replacement without `$` is inserted as it stands |
| Strings.LiteralReplacement | src/BuildFile.ts:135-136 | a replacement text without `$` expands to itself |
| Strings.ReplacementPatterns | src/BuildFile.ts:135-136 | `$$` expands to `$`, `$&` to the match, `` $` `` to the text before it, `$'` to the text after it, and `$1` (there are no capture groups) stays as written |
| Strings.SubstitutionPrefix | src/BuildFile.ts:135-136 | a `$`-free head of the replacement text is copied unchanged ahead of the expansion of the rest |
| Strings.DollarDollarPrefix | src/BuildFile.ts:135-136 | a leading `$$` of the replacement text expands to one `$` ahead of the expansion of the rest |
| Strings.ReplaceWhole | src/BuildFile.ts:214-216 | a text that is exactly the pattern becomes a `$`-free replacement |
| Strings.ReplaceAbsent | src/BuildFile.ts:135-136 | when the pattern occurs nowhere, `replace` leaves the string unchanged |
| Strings.ReplaceFirstAt | src/BuildFile.ts:214-216 | a placeholder not occurring earlier than the given position is the one replaced, by the expansion of the replacement text with that position's prefix and suffix; a `$`-free replacement is inserted as it stands |
| Catalog.AbbrOf | src/URLValidate.ts:48-58 | the abbreviation is a prefix of the segment; the whole segment when it has no `-`, otherwise a prefix ending in `-` after which no `-` occurs |
| Catalog.AbbrOfShapes | src/URLValidate.ts:48-58 | `x` gives `x`, `x-v` gives `x-`, `x-y-v` gives `x-y-`, and the version is `v` in both hyphenated shapes |
| Catalog.SplitAbbr | src/URLValidate.ts:49-58 | joining all split parts but the last, with a trailing `-`, is the abbreviation; a single part is the segment itself |
| Catalog.DeriveAbbr | src/utility-functions.ts:18-28 | the split-and-rejoin loop computes exactly the abbreviation |
| Catalog.AbbrThenVersion | src/BuildFile.ts:71-89 | a segment is its abbreviation followed by its version, and the version holds no `-` |
| Catalog.LastPart | src/BuildFile.ts:76 | the last `-`-part of a segment holds no `-` |
| Catalog.FirstKey | src/FileRead.ts:50-53 | the earlier key is the segment without a `-`, otherwise the text up to and including its first `-` |
| Catalog.IndexLastWins | src/Cache.ts:92-115 | a table built by visiting the catalog has a key exactly when some admitted element has that abbreviation, and holds the value of the last such element |
| Catalog.TableOfLastWins | src/Cache.ts:103-105 | every template key is in the per-element table, holding the last pair's templates for that key |
| UrlValidate.URLValidate.constructor | src/URLValidate.ts:8-12 | a new validator holds the configuration and an empty exclusion list |
| UrlValidate.URLValidate.ParseURL | src/URLValidate.ts:13-30 | the verdict and the new exclusion list are those of the specification `Parse` on the old exclusion list |
| UrlValidate.URLValidate.ValidateURL | src/URLValidate.ts:32-91 | verdict and exclusions follow `ValidateSpec`: leading empty segment dropped, orders checked, then every segment's version checked in turn |
| UrlValidate.URLValidate.ValidateVersion | src/URLValidate.ts:93-109 | accepts iff some non-excluded element spells the segment, and then appends exactly the first such element's `excludes`; otherwise the list is unchanged |
| UrlValidate.FilenameOk | src/URLValidate.ts:111-117 | the filename check holds iff the pattern `(names)(.min)?.(js\|css)$`, with its dots as one-code-unit wildcards, occurs in the filename |
| UrlValidate.EndingsDecidePattern | src/URLValidate.ts:113 | a pattern occurrence anywhere is the same as the filename ending in one of the alternatives followed by an accepted tail |
| UrlValidate.AnyEnding | src/URLValidate.ts:113 | true iff the filename ends with some alternative plus an accepted tail |
| UrlValidate.FilenameShapes | src/URLValidate.ts:113 | `name?js` and `name?min?css` are accepted for any characters `?` that are one UTF-16 code unit and not a line terminator, and `name?jsx` is rejected |
| UrlValidate.AstralRejected | src/URLValidate.ts:113 | a character beyond U+FFFF, two UTF-16 code units, cannot stand for the `.` before the extension: `datatables😀js` is rejected |
| UrlValidate.DropLeadingEmpty | src/URLValidate.ts:35-37 | a leading empty segment is removed and nothing else changes |
| UrlValidate.OrderListOf | src/URLValidate.ts:40-60 | the loops build exactly the order of each segment's abbreviation, `undefined` where it is unknown |
| UrlValidate.OrderList | src/URLValidate.ts:46-60 | one entry per segment, the catalog order of the segment's abbreviation |
| UrlValidate.CheckOrders | src/URLValidate.ts:62-79 | accepts iff every order is known, no order is below its predecessor, and no required order is left over after filtering |
| UrlValidate.Without | src/URLValidate.ts:66-68 | `filter` keeps exactly the values other than the one removed, so every copy of a matched order goes |
| UrlValidate.StepsUpIsSorted | src/URLValidate.ts:73-75 | no order below its predecessor implies every order is at most every later one |
| UrlValidate.FirstMatch | src/URLValidate.ts:94-107 | finds the first element, in catalog order, that is not excluded and spells the segment as `abbr + version`; none before it does; none at all when it answers None |
| UrlValidate.VersionScanStep | src/URLValidate.ts:84-89 | the version loop stops at the first segment without a match and otherwise continues with the grown exclusion list |
| UrlValidate.ScanAccepts | src/URLValidate.ts:84-109 | an accepted path matched an element for every segment, and the final exclusion list is the accumulation over all of them |
| UrlValidate.ScanMatches | src/URLValidate.ts:84-109 | in an accepted path every segment spells `abbr + version` of some catalog element |
| UrlValidate.TraceAdmits | src/URLValidate.ts:96-103 | the element matched for segment `i` was not excluded by the list accumulated over the earlier segments |
| UrlValidate.SelfExclusionHolds | src/URLValidate.ts:96-103 | an element that excludes its own abbreviation is never matched again by a later segment of an accepted path |
| UrlValidate.ExcludesGrow | src/URLValidate.ts:100-102 | the exclusion list only grows: each earlier accumulation is a prefix of every later one |
| UrlValidate.AcceptedPath | src/URLValidate.ts:13-109 | an accepted path has a valid filename, all abbreviations known, non-decreasing orders, every required order present, every segment spelled by an element, and an exclusion list that only grew |
| UrlValidate.AcceptedParts | src/URLValidate.ts:13-30 | acceptance implies the filename check and the order check passed and that the version scan produced the verdict |
| UrlValidate.OrdersSorted | src/URLValidate.ts:64-76 | orders that are all known and never step down are sorted |
| UrlValidate.OrdersKnown | src/URLValidate.ts:70-72 | no `undefined` order means every abbreviation is in the order map |
| UrlValidate.BadFilenameRejects | src/URLValidate.ts:20-25 | a failing filename rejects the path without touching the exclusion list |
| UrlValidate.NearMissRejected | src/URLValidate.ts:99 | with versions of equal length, a segment with extra trailing text, or with the version's last character missing, is not a match |
| FileRead.ParseURL | src/FileRead.ts:21-31 | the verdict is `ParseSpec`: the filename check first, then the path validation |
| FileRead.ValidateURL | src/FileRead.ts:37-139 | the shared-index walk computes `ValidateSpec`, including the `TypeError` a missing jQuery counterpart causes |
| FileRead.KeyOrderList | src/FileRead.ts:43-55 | the loops build the order of each segment's first-part key |
| FileRead.KeyOrders | src/FileRead.ts:48-55 | one entry per segment, the order of its first-part key |
| FileRead.CheckKeyOrders | src/FileRead.ts:57-65 | accepts iff every key is known and no order steps down |
| FileRead.FindStyling | src/FileRead.ts:68-82 | the styling search succeeds iff the first segment spells some order-10 element |
| FileRead.ValidateRest | src/FileRead.ts:106-137 | after the packages: no further order below 30, an optional order-30 segment, then only order-40 elements |
| FileRead.AcceptedLayout | src/FileRead.ts:37-139 | an accepted path starts with a styling element, has at most one low-order segment (at position 1, a matched package), and every later segment is the core library or an extension |
| FileRead.PackageFound | src/FileRead.ts:85-99 | a package answer of 1 means some order-20 element spells the segment and, for a jQuery flavour, the other flavour does not appear later |
| FileRead.CheckVersionStyling | src/FileRead.ts:141-149 | true iff the segment spells that element |
| FileRead.CheckDT | src/FileRead.ts:151-162 | true iff the segment spells some order-30 element (`undefined`, read as false, otherwise) |
| FileRead.CheckVersionExtension | src/FileRead.ts:164-171 | true iff the segment spells that element |
| FileRead.CheckVersionPackage | src/FileRead.ts:173-191 | 0 for no match, 1 for a match, 2 for a jQuery flavour doubled later, or the `TypeError` of a missing counterpart |
| FileRead.CheckExtension | src/FileRead.ts:193-208 | true iff the segment spells some order-40 element |
| FileRead.CheckPackage | src/FileRead.ts:209-221 | the answer of the first order-20 element that matches, 0 when none does |
| FileRead.PackagePicks | src/FileRead.ts:209-221 | the package answer is the one of the first matching order-20 element |
| FileRead.CheckDoubleJQ | src/FileRead.ts:223-241 | true iff no later segment spells the other jQuery flavour; throws when that flavour is missing and a later segment exists |
| FileRead.NoDoubleJQuery | src/FileRead.ts:179-186 | an accepted `jq-` package implies no later segment spells the `jqc-` element |
| FileRead.FindAbbrPackage | src/FileRead.ts:243-250 | the first index whose abbreviation is the argument, or -1 |
| FileRead.FirstWithAbbr | src/FileRead.ts:243-250 | the index found holds the abbreviation and no earlier one does; -1 means none does |
| StaticRequest.FindStaticRequest | src/utility-functions.ts:7-62 | the answer is `StaticSpec`: the first unknown segment's index, else 0 when a required order is missing, else -1 |
| StaticRequest.OrderListOf | src/utility-functions.ts:13-29 | the loop builds the order of each segment's abbreviation, `undefined` where unknown |
| StaticRequest.SegmentOrders | src/utility-functions.ts:17-29 | one entry per segment, looked up under its derived abbreviation |
| StaticRequest.RemoveCovered | src/utility-functions.ts:36-41 | a known order removes one copy of itself from the pending requirements; an unknown one leaves them as they are |
| StaticRequest.IndexOf | src/utility-functions.ts:38 | `indexOf` gives the first position holding the value, or -1 exactly when it is absent |
| StaticRequest.RemoveOne | src/utility-functions.ts:38-40 | `splice` at `indexOf` removes exactly one copy: multiset difference with the value |
| StaticRequest.MissingIsDifference | src/utility-functions.ts:32-41 | the pending requirements are the multiset difference of the requirements and the known orders |
| StaticRequest.MissingEmptyIff | src/utility-functions.ts:53-57 | nothing is pending iff the requirements are a sub-multiset of the known orders |
| StaticRequest.FirstUnknown | src/utility-functions.ts:45-48 | the position found is unknown and all before it are known; None means all are known |
| StaticRequest.SpecUnknownAt | src/utility-functions.ts:45-48 | with an unknown segment at `j` and none before, the answer is `j` |
| StaticRequest.SpecAllKnown | src/utility-functions.ts:53-61 | with every segment known, the answer is 0 when requirements are pending and -1 otherwise |
| StaticRequest.FirstUnknownReported | src/utility-functions.ts:36-49 | the first segment whose abbreviation is not in the map is the answer, whatever the requirements |
| StaticRequest.AllKnownVerdict | src/utility-functions.ts:53-61 | with every segment known the answer is -1 or 0, and -1 iff there are no requirements or they are a sub-multiset of the segment orders |
| StaticRequest.AnswerRange | src/utility-functions.ts:36-61 | the answer lies in -1 .. length-1, except 0 for an empty path with pending requirements |
| StaticRequest.OrderIgnored | src/utility-functions.ts:36-61 | orders are never compared: a path in descending order still answers -1 |
| CacheStore.Cache.constructor | src/Cache.ts:16-22 | a new cache is empty with capacity 1 unless a size is given |
| CacheStore.Cache.ResetCache | src/Cache.ts:28-37 | the map and list are emptied, the new capacity and configuration are stored and the lookup tables rebuilt |
| CacheStore.Cache.SearchCache | src/Cache.ts:44-53 | answers the stored content exactly when the name is a key, and changes nothing |
| CacheStore.Cache.UpdateCache | src/Cache.ts:60-79 | the new map, list and capacity are `Update` of the old ones; configuration and tables are unchanged |
| CacheStore.Cache.CreateMaps | src/Cache.ts:84-124 | the lookup tables become `MapsOf` of the catalog; map, list and configuration are unchanged |
| CacheStore.BuildMaps | src/Cache.ts:86-123 | the loop over the catalog computes exactly the five tables |
| CacheStore.TemplateTable | src/Cache.ts:101-105 | the loop over an element's template keys computes its key-to-templates table |
| CacheStore.Update | src/Cache.ts:60-79 | an update never changes the capacity |
| CacheStore.UpdateStores | src/Cache.ts:60-79 | after an update the name is a key and ends the list |
| CacheStore.UpdateEvictsOldest | src/Cache.ts:64-68 | at capacity exactly the oldest list entry leaves list and map, even when the name is already present; otherwise nothing leaves |
| CacheStore.UpdateKeepsContent | src/Cache.ts:71-74 | a present name keeps its content unless it was the one just evicted; a new name gets the given content; other entries are untouched |
| CacheStore.UpdateKeepsKeysListed | src/Cache.ts:60-79 | every key of the map stays in the insertion list |
| CacheStore.UpdateFresh | src/Cache.ts:60-79 | a new name in a cache whose list is duplicate-free and matches its keys keeps that so, dropping the oldest at capacity |
| CacheStore.DistinctInsertsKeepLast | src/Cache.ts:60-79 | distinct names inserted into an empty cache leave exactly the last `capacity` of them, oldest first |
| CacheStore.DistinctInsertsBounded | src/Cache.ts:60-79 | with distinct names the map never exceeds the capacity, and after capacity+1 inserts the first name is gone |
| CacheStore.RepeatsOverflow | src/Cache.ts:64-77 | repeated names leave duplicates in the list, after which a cache of capacity 2 holds 3 entries |
| CacheStore.MapsContents | src/Cache.ts:92-115 | order, folder and module tables cover every abbreviation, the template table only those with templates, the includes table only those with macros, the last duplicate winning |
| Builder.FetchAborts | src/BuildFile.ts:150-172 | a fetch answers `'500'` iff a non-hit existing file cannot be read, or the cache holds `'500'` for it |
| Builder.FetchMissing | src/BuildFile.ts:159-163 | a missing non-cached file gives `''`, is cached as `''` and is not recorded |
| Builder.FetchRead | src/BuildFile.ts:152-158 | a readable non-hit file is returned as a buffer, recorded under its full path and cached (keeping an older entry unless it was evicted) |
| Builder.FetchHit | src/BuildFile.ts:164-168 | a hit returns the cached content, re-inserts it and records the name with the build location stripped |
| Builder.FetchGrows | src/BuildFile.ts:152-168 | a fetch only appends to the included files and keeps the cache capacity |
| Builder.FetchAllGrows | src/BuildFile.ts:152-168 | a run of fetches only appends to the included files and keeps the cache capacity |
| Builder.FetchAllFails | src/BuildFile.ts:233-236 | a run of fetches fails iff some fetch in it aborts with the fetches before it not failing |
| Builder.FetchAllSticks | src/BuildFile.ts:233-236 | once a run of fetches has failed, later paths change nothing |
| Builder.FailureStops | src/BuildFile.ts:233-236 | once the build has failed, later segments change nothing |
| Builder.BuildStopped | src/BuildFile.ts:233-236 | a failed build stays as it is for the next segment |
| Builder.KeyIndex | src/BuildFile.ts:113 | the first position of a macro key in insertion order, None when absent |
| Builder.SetKeyLookup | src/BuildFile.ts:113 | assigning a macro key makes it read the new value and leaves every other key as it was |
| Builder.AssignAllLookup | src/BuildFile.ts:109-115 | after copying a module's macros, a key reads its last value among them, or its old value when they do not set it |
| Builder.MacrosLastWins | src/BuildFile.ts:109-115 | the macro table of a path reads, for each key, the value of the last segment that sets it |
| Builder.AssignIncludes | src/BuildFile.ts:109-115 | the copy loop computes the assignment of all of a module's macros |
| Builder.ExpandShape | src/BuildFile.ts:211-218 | expansion keeps one name per template, each name expanded on its own |
| Builder.ExpandTemplates | src/BuildFile.ts:206-218 | the loop over templates computes their expansion |
| Builder.ExpandOne | src/BuildFile.ts:212-216 | the loop over macros replaces the first `{key}` for each macro in order, then the first `{version}`, each by its value with `replace`'s `$` patterns expanded |
| Builder.PlainTemplateUnchanged | src/BuildFile.ts:212-216 | a template without `{` is left as it is |
| Builder.MacrosChain | src/BuildFile.ts:212-216 | a macro value introducing a later macro's placeholder is expanded by that later macro |
| Builder.FirstOccurrenceOnly | src/BuildFile.ts:214 | only the first occurrence of a placeholder is replaced |
| Builder.DollarInPath | src/BuildFile.ts:135-136 | a `$$` in the request path reaches the header as one `$`, because the path is the replacement text of `replace` |
| Builder.SplitLastPart | src/BuildFile.ts:76 | the last split part is the text after the last separator |
| Builder.Abbrs | src/BuildFile.ts:71-91 | one abbreviation per segment |
| Builder.Versions | src/BuildFile.ts:74-81 | one version per segment: its last `-`-part, or `''` without a hyphen |
| Builder.Folders | src/BuildFile.ts:92 | one folder name per segment, `undefined` for an unknown abbreviation |
| Builder.MinShape | src/BuildFile.ts:119-126 | the minified flag holds iff the filename has at least two dots |
| Builder.TypeShape | src/BuildFile.ts:119-121 | the type is `.` plus the text after the last dot, and the folder key is that text |
| Builder.FolderKeyOfType | src/BuildFile.ts:196-197 | the folder key of `.x` is `x` |
| Builder.ExtensionsListParts | src/BuildFile.ts:95-100 | the extensions list holds one entry `' ' + folder + ' ' + lastPart` per segment 1 .. n-2, comma-joined, and is empty for paths of two segments or fewer |
| Builder.AppendExtension | src/BuildFile.ts:95-100 | one more inner segment appends its entry, after a comma from the second on |
| Builder.SegmentLists | src/BuildFile.ts:59-116 | the segment loop computes the parallel lists, the extensions list, the macros and `start` |
| Builder.ScanSegment | src/BuildFile.ts:70-116 | one pass of the segment loop extends every list by that segment's entry |
| Builder.SplitSegment | src/BuildFile.ts:71-89 | a segment gives its abbreviation, whether it holds a hyphen, and its last part |
| Builder.SegmentPathsShape | src/BuildFile.ts:222-228 | each fetch path is build location, folder, `-`, version, `/`, expanded template, minify suffix and type |
| Builder.PathExample | src/BuildFile.ts:222-228 | `/dt/` + `Buttons` + `-1.5.6/` + `x.min.js` |
| Builder.UndefinedFolderExample | src/BuildFile.ts:228 | an unknown folder concatenates as `undefined` |
| Builder.HeaderPrefix | src/BuildFile.ts:185-244 | the assembled content always starts with the build message |
| Builder.NothingBuilt | src/BuildFile.ts:207 | segments without templates for the folder key contribute nothing and fetch nothing |
| Builder.OnlyBuiltSegments | src/BuildFile.ts:200-207 | of the segments, only the abbreviation, version and folder of those from `start` up to the one before the filename influence the build |
| Builder.StepAgrees | src/BuildFile.ts:200-228 | one segment's step depends only on that segment's abbreviation, version and folder |
| Builder.StepGrows | src/BuildFile.ts:206-240 | a segment's step only appends to the content and to the included files |
| Builder.BuildGrows | src/BuildFile.ts:200-242 | the whole loop only appends to the included files and keeps the cache capacity |
| Builder.SegmentsEmpty | src/BuildFile.ts:21-25 | only the empty path leaves no segment |
| Builder.BuildThrows | src/BuildFile.ts:119-121 | `buildFile` rejects (reading a missing last segment) iff the path is empty |
| Builder.BuildOutcome | src/BuildFile.ts:129-139 | a file is built iff no fetch aborted and the content is non-empty; otherwise the answer is `false` |
| Builder.BuildWithMessage | src/BuildFile.ts:129-133 | with a non-empty build message a file is built iff no fetch aborted |
| Builder.BuildSpecOf | src/BuildFile.ts:129-139 | the built file is the assembled content with the request path and the extensions list substituted, each at its first occurrence and with `replace`'s `$` patterns expanded |
| Builder.ParsePath | src/BuildFile.ts:19-126 | the segments, template table, extensions list and request of a path, None for an empty path |
| Builder.BuildFile.constructor | src/BuildFile.ts:11-17 | a new builder holds the cache and configuration and has no included files |
| Builder.BuildFile.GetInclusions | src/BuildFile.ts:143-145 | answers the included files |
| Builder.BuildFile.FetchFile | src/BuildFile.ts:147-173 | answer, cache and included files are those of `Fetch` |
| Builder.BuildFile.FetchNext | src/BuildFile.ts:225-239 | one more fetched path extends the gathered content, or ends the run as failed |
| Builder.BuildFile.FetchSegment | src/BuildFile.ts:220-241 | fetching a segment's paths gathers what `FetchAll` does |
| Builder.BuildFile.BuildStep | src/BuildFile.ts:200-241 | one pass of the build loop is the specification's next step |
| Builder.BuildFile.Build | src/BuildFile.ts:175-245 | `build` answers the assembled content, or `false` when a fetch aborted, with cache and included files as the specification says |
| Builder.BuildFile.BuildFile | src/BuildFile.ts:19-141 | the answer, cache and included files are those of `BuildSpec`, whose headers expand `replace`'s `$` patterns |

## Left out

- Storage access (`fs.exists`, `fs.readFile`) is the `disk` parameter. The filesystem, file descriptors and read errors other than "the read throws" are not modelled.
- `async`/`await` is dropped. The methods run to completion in order. Of the `Buffer` and string distinction, only the tag of `Fetched` is kept: it decides the `'500'` comparison.
- Logger calls are no-ops. The `refresh` argument of `updateCache` only affects logging and is not a parameter.
- `FileRead.fetchFile` only logs a fixed file and is not part of this model.
- `FileRead.validateFilename` reads a configuration property `filename` that the configuration does not define. Here the permitted names are a parameter of `FileRead.ParseURL`.
- The regular-expression engine is replaced by an explicit suffix predicate. Regular-expression metacharacters inside the configured names are taken literally.
- UrlValidate.FilenameOk: strings are sequences of Unicode scalar values, not of UTF-16 code units, so lone surrogates cannot occur. A `.` is one character of at most U+FFFF. This is the source's behaviour except when an alternative of the name group is empty: then the source's `.` may match the second half of a surrogate pair (`😀js` passes with an empty name list), which the model rejects. The same holds for UrlValidate.URLValidate.ParseURL and FileRead.ParseURL, which use this check.
- `Object.keys` order is insertion order. Integer-like keys, which JavaScript enumerates first, are not modelled.
- Concurrent use of the shared cache by overlapping requests is not modelled. The model is one request at a time.
- The HTTP server, routing, configuration reload, the JSON-schema configuration validator, hashing and timing (`src/Server.ts`, `src/server.ts`, `src/config.validator.ts`, `src/MetaInformation.ts`, `src/Details.ts`) are not part of this model. `src/config.ts` is data only.
- Builder.BuildFile.FetchFile: does not state that the cache's configuration and lookup tables stay unchanged, only its map, list and capacity.
- Builder.BuildFile.Build: does not state that the cache's configuration and lookup tables stay unchanged.
- Builder.BuildFile.BuildFile: does not state that the cache's configuration and lookup tables stay unchanged.
- JavaScript numbers are modelled as unbounded integers. Orders and capacities are small, so no overflow is modelled.
