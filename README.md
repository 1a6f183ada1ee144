# LibraryProfiler model

A Dafny model of the library profiler of LibScout, `de.infsec.tpl.LibraryProfiler`.
The profiler builds a profile (a fingerprint) of one third-party library. The
model covers three parts of it:

- **`getChaStats`**, in module `ChaStats` (`cha_stats.dfy`). This is the single
  pass over the class hierarchy.
  - It counts the application classes, and among them the inner and the public
    ones.
  - It keeps a histogram over `AndroidClassType`.
  - It skips bridge and synthetic methods.
  - It collects the signatures of public methods into a `TreeSet<String>`.
  - It counts the other methods as "misc".

  The pass is an imperative method with loops (`GetChaStats`, with its inner
  loop in `TallyMethods`). It is proved equal to reference functions defined
  over the sequence of classes. Module `ChaStatsProperties`
  (`cha_stats_properties.dfy`) proves what those figures mean.
- **The `TreeSet<String>`**, in module `SortedStrings` (`sorted_strings.dfy`).
  It is a strictly increasing sequence under the order of `String.compareTo`.
- **The profile file name and the write decision**, in module `LibraryProfiler`
  (`library_profiler.dfy`).
  - The file name is the library name with each space replaced by `-`, then
    `_`, the version and `.lib`.
  - The logging identifier set by the constructor uses the same stem.
  - `extractFingerPrints` only warns about a package tree without a root
    package. It skips the profile when there is no hash tree, or when the
    first hash tree has no classes. Otherwise it writes the profile to the
    joined path `<profilesDir>/<category>/<file name>` (without the path
    normalisation of `java.io.File`).

Three WALA predicates become fields of the class record `ClassInfo`:
- `WalaUtils.isAppClass` becomes `isApp`.
- `WalaUtils.classifyClazz` becomes `kind`.
- `WalaUtils.isInnerClass` becomes `isInner`.

The class hierarchy's iteration order is the order of the input sequence.
`AndroidClassType` is a type parameter `K`. The list `kinds` stands for
`AndroidClassType.values()`.

## Model

| member | source | states |
|---|---|---|
| ChaStats.GetChaStats | src/de/infsec/tpl/LibraryProfiler.java:130-179 | The returned set is strictly sorted. Its elements are exactly the public signatures of the non-bridge, non-synthetic methods of application classes. Each counter equals the number of application classes, inner application classes and public application classes respectively. The histogram maps each enumeration value to the number of application classes of that kind. The misc count equals the number of non-public tallied methods. |
| ChaStats.ZeroHistogram | src/de/infsec/tpl/LibraryProfiler.java:137-139 | The starting histogram has exactly the enumeration values as keys, each mapped to 0. It is the histogram of no classes. |
| ChaStats.TallyMethods | src/de/infsec/tpl/LibraryProfiler.java:154-162 | One class's declared methods add exactly their public, non-bridge, non-synthetic signatures to the set. The misc count grows by exactly the number of other tallied methods. The set stays strictly sorted. |
| ChaStats.TallyUpToMeaning | src/de/infsec/tpl/LibraryProfiler.java:142-164 | Folding the per-class update over the first n classes gives the reference figures of those n classes. |
| ChaStats.TallyStep | src/de/infsec/tpl/LibraryProfiler.java:145-163 | The reference figures of one more class are those of the prefix updated by that class alone. |
| ChaStats.HistogramSnoc | src/de/infsec/tpl/LibraryProfiler.java:146-147 | An application class raises exactly the entry of its own kind by one. |
| ChaStats.HistogramNonApp | src/de/infsec/tpl/LibraryProfiler.java:145 | A class outside the application leaves the histogram unchanged. |
| ChaStats.PublicSigsAppend | src/de/infsec/tpl/LibraryProfiler.java:157-158 | The signatures collected from two method lists together are the union of those collected from each. |
| ChaStats.CountNonPublicAppend | src/de/infsec/tpl/LibraryProfiler.java:159-160 | The misc count over two method lists together is the sum of their counts. |
| ChaStats.MethodStep | src/de/infsec/tpl/LibraryProfiler.java:155-161 | A bridge or synthetic method changes nothing. A public method adds its signature. Any other method adds one to the misc count. |
| SortedStrings.LessIrreflexive | src/de/infsec/tpl/LibraryProfiler.java:131 | The string order used by the tree set is irreflexive. |
| SortedStrings.LessAsymmetric | src/de/infsec/tpl/LibraryProfiler.java:131 | The string order is asymmetric. |
| SortedStrings.LessTransitive | src/de/infsec/tpl/LibraryProfiler.java:131 | The string order is transitive. |
| SortedStrings.LessTotal | src/de/infsec/tpl/LibraryProfiler.java:131 | Any two different strings are ordered one way or the other. |
| SortedStrings.Insert | src/de/infsec/tpl/LibraryProfiler.java:158 | Adding to the tree set keeps it strictly sorted and adds exactly the new element. An element already present leaves the set as it was. A new element grows the size by one. |
| SortedStrings.SortedCardinality | src/de/infsec/tpl/LibraryProfiler.java:173-174 | The size of the tree set, as logged, is the number of distinct signatures it holds. |
| ChaStatsProperties.AppClassesMembers | src/de/infsec/tpl/LibraryProfiler.java:145 | A class is tallied if and only if it occurs in the input and is an application class. |
| ChaStatsProperties.TalliedMethodsMembers | src/de/infsec/tpl/LibraryProfiler.java:155 | A method is kept if and only if it is declared and is neither a bridge nor synthetic. |
| ChaStatsProperties.DeclaredTalliedMembers | src/de/infsec/tpl/LibraryProfiler.java:154-155 | A method is among the tallied methods of a class list if and only if some class in the list declares it and it is neither a bridge nor synthetic. |
| ChaStatsProperties.PublicSigsMembers | src/de/infsec/tpl/LibraryProfiler.java:157-158 | A signature is collected if and only if some public method in the list carries it. |
| ChaStatsProperties.PublicSignaturesExact | src/de/infsec/tpl/LibraryProfiler.java:145-158 | A signature is in the returned set if and only if an application class declares a public, non-bridge, non-synthetic method with it. |
| ChaStatsProperties.AppClassesAppend | src/de/infsec/tpl/LibraryProfiler.java:142-145 | The application classes of two class lists together are those of each, in order. |
| ChaStatsProperties.NonAppClassIgnored | src/de/infsec/tpl/LibraryProfiler.java:145-163 | Inserting a class outside the application anywhere in the hierarchy changes none of the reported figures. |
| ChaStatsProperties.TalliedMethodsAppend | src/de/infsec/tpl/LibraryProfiler.java:154-155 | The kept methods of two method lists together are those of each, in order. |
| ChaStatsProperties.TallyUpToSame | src/de/infsec/tpl/LibraryProfiler.java:142-164 | Two hierarchies whose classes agree on everything the pass looks at give the same figures. |
| ChaStatsProperties.SkippedMethodIgnored | src/de/infsec/tpl/LibraryProfiler.java:155 | Adding a bridge or synthetic method anywhere in any class changes none of the reported figures. |
| ChaStatsProperties.CountInnerBound | src/de/infsec/tpl/LibraryProfiler.java:151 | The inner classes of a list are at most as many as its classes. |
| ChaStatsProperties.CountPublicClassesBound | src/de/infsec/tpl/LibraryProfiler.java:152 | The public classes of a list are at most as many as its classes. |
| ChaStatsProperties.ClassCountBounds | src/de/infsec/tpl/LibraryProfiler.java:150-152 | The inner-class count and the public-class count are each at most the class count. |
| ChaStatsProperties.MethodCountBound | src/de/infsec/tpl/LibraryProfiler.java:157-161 | The distinct public signatures plus the non-public methods of a list are at most its length. |
| ChaStatsProperties.ReportedMethodsBound | src/de/infsec/tpl/LibraryProfiler.java:173 | The logged method total, the tree set's size plus the misc count, is at most the number of tallied methods of application classes. |
| ChaStatsProperties.OccurrencesOfDistinct | src/de/infsec/tpl/LibraryProfiler.java:138 | Each value of a list without repetitions occurs in it at most once. |
| ChaStatsProperties.HistogramTotalSnoc | src/de/infsec/tpl/LibraryProfiler.java:146-147 | One more application class raises the histogram total by one. |
| ChaStatsProperties.HistogramSumsToClassCount | src/de/infsec/tpl/LibraryProfiler.java:137-150 | The histogram entries over all enumeration values add up to the class count. |
| ChaStatsProperties.HistogramOfNone | src/de/infsec/tpl/LibraryProfiler.java:137-139 | Before any class is seen, the histogram total is 0. |
| LibraryProfiler.ReplaceSpacesAt | src/de/infsec/tpl/LibraryProfiler.java:120 | Replacing spaces keeps the length. Each space becomes `-` and every other character stays. |
| LibraryProfiler.ReplaceSpacesNoSpace | src/de/infsec/tpl/LibraryProfiler.java:120 | No space is left after the replacement. |
| LibraryProfiler.LogIdentifierSharesStem | src/de/infsec/tpl/LibraryProfiler.java:71-72 | The logging identifier followed by `.lib` is the log directory, the separator and the profile file name: both are built from the same stem. |
| LibraryProfiler.ProfileFileNameParts | src/de/infsec/tpl/LibraryProfiler.java:58-120 | The file name splits back into the replaced name, `_`, the version and `.lib`. It is the logging stem followed by `.lib`. No character taken from the name is a space. |
| LibraryProfiler.ProfileFileNameHasNoSpace | src/de/infsec/tpl/LibraryProfiler.java:120 | A version without spaces gives a file name without spaces. |
| LibraryProfiler.SpaceAndHyphenCollide | src/de/infsec/tpl/LibraryProfiler.java:120 | Libraries named `a b` and `a-b` with the same version get the same profile file name. |
| LibraryProfiler.ExtractFingerPrints | src/de/infsec/tpl/LibraryProfiler.java:103-123 | A warning is reported exactly when the package tree has no root. The profile is skipped if and only if there is no hash tree or the first one has no classes. A written profile goes to the category directory under the profile file name. |
| LibraryProfiler.MultipleRootsOnlyWarn | src/de/infsec/tpl/LibraryProfiler.java:104-106 | A missing root package does not change whether or where the profile is written. |
| LibraryProfiler.OnlyFirstHashTreeDecides | src/de/infsec/tpl/LibraryProfiler.java:111 | The hash trees after the first never affect the outcome. |
| LibraryProfiler.WrittenProfileLocation | src/de/infsec/tpl/LibraryProfiler.java:118-123 | A written profile's path starts with `<profilesDir><sep><category><sep>` and ends with the profile file name. |

## Left out

- Building the WALA class hierarchy and analysis scope (lines 86-93). This includes the `.aar` unpacking and the deletion of its temporary jar (lines 96-101). The model starts from the sequence of classes the hierarchy iterates.
- `WalaUtils.isAppClass`, `WalaUtils.classifyClazz`, `WalaUtils.isInnerClass` and `IClass.getDeclaredMethods` are not part of this model. Their results are inputs, as fields of `ClassInfo` and `MethodInfo`.
- Reading the library description from XML is not modelled; the description is an input. `MDC.put`, all logging and the processing-time clock are left out too. Only the logging identifier string is modelled.
- `Profile.generatePackageTree`, `Profile.generateHashTrees`, `PackageTree`, `HashTree` and `LibProfile` are not part of this model. Only what the profiler observes of them enters: whether the root package is null, and each hash tree's class count.
- `Utils.object2Disk` (serialization and file I/O) is not modelled; the model returns the joined path string handed to `new File`.
- LibraryProfiler.ProfilePath, LibraryProfiler.ExtractFingerPrints, LibraryProfiler.WrittenProfileLocation: the path is the plain joined string `profilesDir + separator + category + separator + file name`. The normalisation `java.io.File` applies to it is not modelled. It merges doubled separators, drops a trailing one, and the directory `File` at line 118 is re-rendered before line 123 appends to it. So for a name such as `a//b`, or a profiles directory ending in the separator, the file actually written has a shorter path than the one the model returns.
- `CliOptions.logDir`, `CliOptions.profilesDir` and `File.separator` are parameters. `getAbsolutePath` is not modelled.
- ChaStats.GetChaStats: the counters are unbounded integers, so Java's 32-bit `int` wrap-around is not modelled. It would need more than 2^31 classes or methods.
- ChaStats.GetChaStats: requires that the kind of every application class is among `kinds`. This holds in the source because `classifyClazz` returns an enum constant, and every constant is a key of the map.
- ChaStatsProperties.HistogramSumsToClassCount: requires `kinds` to be without repetitions, as `values()` is.
- SortedStrings.Less: characters are compared as Unicode scalar values, not as UTF-16 code units. Outside the Basic Multilingual Plane the two orders can differ.
- SortedStrings.Insert: `TreeSet.add` is a pure function on a sorted sequence. The red-black tree and its in-place update are not modelled.
- The result of `getChaStats` is the sorted sequence the tree set iterates in, not a live `Set` object.
