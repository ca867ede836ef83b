# A verified model of JavaServerUWP

JavaServerUWP hosts a Minecraft server inside a UWP container. This project models, in Dafny, the parts of it
whose correctness is a matter of logic rather than of the platform, and proves what they promise.

- **Windows paths.** The repository replaces the JDK's path type so that `toRealPath` can fall back to
  `toAbsolutePath().normalize()`. `Names` says what a list of names with `.` and `..` means: a walk from a
  directory. `Paths`, `PathAlgebra`, `PathParts` and `Canonical` give path values and the laws of their
  operations over that meaning; `Associativity` says when `resolve` is associative, and `PathFailures` has
  concrete inputs on which the laws fail. `WindowsPaths` is the class itself, with its lazily filled offsets,
  cached hash, mark array and string builders, each method proved against the value functions; `Marks` holds
  the argument why repeated marking passes compute a one-pass stack reduction.
- **Two maps keyed by paths.** `ZipRegistry` is the registry of open zip file systems over every sequence of
  opens, closes and lookups, the keys being those that the real-path calls give at each event; `LoaderCache`
  is the loader's normalisation cache.
- **The web file panel.** Form decoding (`UrlForm`), request framing over any chunking of the stream
  (`HttpRequest`, `Lines`), multipart extraction (`Multipart`), an upload from the bytes that arrive to the
  file that is written (`Upload`), paths under a root (`PanelPaths`), recursive deletion (`FileTree`), string
  escaping (`JsonText`) and the directory listing (`Listing`).
- **The version service.** Scanners that find values in JSON by bracket depth and string state (`JsonScan`),
  strings, numbers and builds read with them (`JsonText`, `PaperBuilds`, `PrintedBuilds`), against printed
  JSON values.
- **The instance store.** Directory names from display names, the search for a free one, and what is shown
  (`Instances`).
- **The host.** `Host` holds the application object, whose handlers keep its invariant; `HostRuns` interleaves
  key presses, main-loop passes and worker threads, one shared access a step, and proves what holds in every
  reachable state; `NamingRuns` follows the creation of an instance through them, and `DownloadRuns` each key
  of the downloads screen and each worker to its end. `ConsoleLog` has the console's ring buffer and log
  reader.

`Text`, `CaseFold` and `Decimal` are shared: first occurrences as `std::string::find` gives them, splitting
and joining, case foldings, decimal numerals. A procedure that the original writes as a loop is a method whose
contract equates its result, or the new state, with a function; the promises are lemmas about that function.

## Assumptions

- The parser behind `createFromNormalizedPath` is not part of this model. On well-formed text it is taken to
  give the type and root that the text shows (`Paths.Parse`); well-formed means a root of its type's shape and
  non-empty names joined by single backslashes. Such text with one backslash more behind it, which `resolve`
  can produce, is taken to keep its type and root.
- Java's upper- and lower-case tables are two functions on characters that fix `.`, `\` and `:` and send
  nothing else to them. File-name comparison in the instance store is a function that leaves digits and the
  hyphen alone.
- Win32 drops blanks and dots at the end of a part of a path. This is not part of this model: the file panel
  tests for `..` as exact text, so a last part such as `.. ` is an ordinary name here (`PanelPaths`).
- A signed 32-bit number that overflows, which C++ leaves undefined, wraps around. Files are read as their
  bytes, without the end mark of text mode.
- That a zip's key is the same at its open and its close is not assumed; `ZipRegistry.RunKeepsSound` says what
  holds when it is.
- The order by name and the directory search of the listing are functions given to it; the default directory,
  the directories of other drives, the answers of the real-path call, the file system's answers, the bytes
  received and the formatters of sizes and times are parameters.

## Where the code falls short of its promise

- `relativize` compares roots by `equalsIgnoreCase`, paths are equal under `toUpperCase` only. So resolving
  its answer can give a path that is not equal to the target though every name agrees
  (`PathFailures.RelativizeCrossesRoots`); `PathAlgebra.RelativizeCorrect` says exactly when.
- `resolve` of a bare `C:` against a path with names on that drive leaves a trailing separator
  (`PathFailures.BareDriveLeavesSeparator`); `PathAlgebra.ResolveIsValid` shows that this is the only case.
- `resolve` is not associative. `Associativity.ResolveAssociative` says exactly when it is, for paths of all
  types; it fails only when the last path names a drive, or - in the case of the drive letter alone - hangs at
  a root. `C:\a`, `b` and `C:x` give `C:\a\b\x` step by step and `C:\a\x` at once
  (`PathFailures.ResolveForgetsMiddle`), `C:\a`, `D:\` and `C:x` give `C:x` and `C:\a\x`
  (`PathFailures.ResolveForgetsDrive`), `C:a`, `\b` and `C:x` give `C:\b\x` and `C:x`
  (`PathFailures.ResolveHangsOnce`).
- Opening a zip whose file is missing, with an option to create it, replaces a registration under its key
  (`ZipRegistry.RegistrationLasts`). A close that meets another key than the open did, because the real-path
  call answers differently by then, leaves the closed instance registered (`ZipRegistry.CloseLeaks`).
- A header block that ends beyond 1 MiB but within one more buffer is accepted or refused depending on how the
  bytes arrive (`HttpRequest.ReadAtLimit`, `HttpRequest.CuttingsDisagree`).
- `JsonStringAfter` drops backslashes without reading escapes, so control characters and `\u` escapes come
  out wrong (`JsonText.ReadsMeaningIffPlain`, `JsonText.StringReadsBack`).
- The version copied into a new instance is whatever the list last read has at the index remembered when
  naming began (`NamingRuns.CopiesTheSelected`, `NamingRuns.EveryCopyWasBegun`). It need not be the one
  selected then: a download that ended before has the next pass read the list again
  (`NamingRuns.AnotherVersionIsCopied`), and without any download a key that removes the selected version can
  come between the submit and the pass that takes it, once the text entry is inactive
  (`NamingRuns.RemovedBeforeTheCopy`).
- A poll of the log that stops inside a line gives its two halves as two lines
  (`ConsoleLog.PollsGiveTheLines`).
- A parameter behind the boundary of a multipart header is read as part of the boundary
  (`Multipart.BoundaryTakesTheRest`).
- A build number outside 32 bits is read as another number (`PaperBuilds.IntReadsBack`).
- The question before a deletion shows the name of the instance, which two instances may share
  (`HostRuns.LineTellsIffTitlesDo`); and that name is not the one typed if blanks were typed around it
  (`Instances.LabelIsTheTypedName`).

## Model

| member | source | states |
|---|---|---|
| `Names.ClampedReduceIsWalk` | patch/java.base/sun/nio/fs/WindowsPath.java:433-488 | under a root, the stack reduction of a list of names is the walk they describe, started at the root |
| `Names.ReduceKeepsWalk` | patch/java.base/sun/nio/fs/WindowsPath.java:433-488 | without a root, the reduced list leads to the same place as the list itself from every directory |
| `Names.SameReductionIffSameWalk` | patch/java.base/sun/nio/fs/WindowsPath.java:433-488 | two lists reduce to the same list exactly when they lead to the same place from every directory |
| `Names.ReduceIsNormal` | patch/java.base/sun/nio/fs/WindowsPath.java:433-488 | a reduced list has no `.`, and `..` only in front, and none at all under a root |
| `Names.ReduceRespectsFold` | patch/java.base/sun/nio/fs/WindowsPath.java:433-488 | lists that agree up to a case folding reduce to lists that agree up to it |
| `Paths.Rebuild` | patch/java.base/sun/nio/fs/WindowsPath.java:563-601 | root and names, joined by single separators, rebuild the path text |
| `Paths.ParseRebuilds` | patch/java.base/sun/nio/fs/WindowsPath.java:74-102 | the parser assumption is consistent: one function of the text gives back type, root and text of every well-formed path of all five types |
| `Paths.EqualShape` | patch/java.base/sun/nio/fs/WindowsPath.java:699-727 | equal paths have the same type and agree root by root and name by name, although only whole texts are compared |
| `PathAlgebra.NormalizeIsValid` | patch/java.base/sun/nio/fs/WindowsPath.java:425-509 | the normalised path is well formed and its names are exactly the stack reduction of the original names |
| `PathAlgebra.NormalizeIdempotent` | patch/java.base/sun/nio/fs/WindowsPath.java:425-509 | normalising twice changes nothing more |
| `PathAlgebra.NormalizeKeepsMeaning` | patch/java.base/sun/nio/fs/WindowsPath.java:425-509 | from every directory (or from the root) the normalised path leads where the path leads |
| `PathAlgebra.NormalizeIsCanonical` | patch/java.base/sun/nio/fs/WindowsPath.java:425-509 | under one type and root, two paths normalise to the same path if and only if they mean the same place from everywhere |
| `PathAlgebra.NormalizeRespectsCase` | patch/java.base/sun/nio/fs/WindowsPath.java:425-509 | equal paths have equal normal forms |
| `PathAlgebra.ResolveRelative` | patch/java.base/sun/nio/fs/WindowsPath.java:512-528 | resolving a relative path appends its names under the same root, also for the empty path and a bare root |
| `PathAlgebra.ResolveAbsolute` | patch/java.base/sun/nio/fs/WindowsPath.java:513-517 | resolving an absolute path gives that path |
| `PathAlgebra.ResolveDirectoryRelative` | patch/java.base/sun/nio/fs/WindowsPath.java:530-538 | resolving a root-relative path hangs its names at the drive, share or root of the first path |
| `PathAlgebra.ResolveDriveRelative` | patch/java.base/sun/nio/fs/WindowsPath.java:540-556 | resolving a drive-relative path: another drive gives it unchanged; the same drive appends its names; a bare `C:` against a path with names leaves a trailing separator |
| `PathAlgebra.ResolveIsValid` | patch/java.base/sun/nio/fs/WindowsPath.java:512-560 | `resolve` gives a well-formed path if and only if it is not that last case: the one input family on which it breaks its own form |
| `Associativity.ResolveAssociative` | patch/java.base/sun/nio/fs/WindowsPath.java:512-560 | for all paths of all five types: resolving step by step is resolving at once if and only if a condition on types, drives and names holds that a caller can read off the three paths; only a last path that names a drive, or hangs at a root, can break it |
| `PathAlgebra.RelativizeMeaning` | patch/java.base/sun/nio/fs/WindowsPath.java:350-422 | for two paths of one type and root, the answer is the names that lead from one reduced list to the other, or the refusal when there are none |
| `PathAlgebra.RelativizeCorrect` | patch/java.base/sun/nio/fs/WindowsPath.java:350-422 | whenever `relativize` answers, the types are one, the roots agree without regard to case, and resolving the answer and normalising gives the names of the normalised target up to case, for every dot; the two paths are equal if and only if the roots agree under `toUpperCase` |
| `PathAlgebra.RelativizeRefuses` | patch/java.base/sun/nio/fs/WindowsPath.java:350-412 | for all paths: refused for the type exactly when the types differ; else for the root exactly when the roots differ in more than case; else for want of a path exactly when there is no root to stop at and the first path climbs higher |
| `PathAlgebra.RelativizeRefusesOnlyTheHopeless` | patch/java.base/sun/nio/fs/WindowsPath.java:350-422 | `relativize` answers if and only if some relative path leads from one to the other at all |
| `PathAlgebra.RelativizeAnswersByClimbs` | patch/java.base/sun/nio/fs/WindowsPath.java:395-405 | what a caller can look at: for two paths of one type and root there is an answer exactly when there is a root to stop at, or the reduced first path climbs no higher than the reduced second |
| `PathAlgebra.RelativizeUndoesResolve` | patch/java.base/sun/nio/fs/WindowsPath.java:350-422 | for every path and every relative path of ordinary names (or empty), relativizing the resolved path gives that relative path back exactly |
| `PathFailures.RelativizeCrossesRoots` | patch/java.base/sun/nio/fs/WindowsPath.java:359-362 | a concrete failure: from `a` on the share of host `i` to `b` on the share of host U+0130 there is an answer, and resolving it does not give a path equal to the target |
| `PathFailures.ResolveForgetsMiddle` | patch/java.base/sun/nio/fs/WindowsPath.java:540-556 | a concrete failure: `C:\a`, `b` and `C:x` resolve to `C:\a\b\x` step by step and to `C:\a\x` at once |
| `PathFailures.ResolveForgetsDrive` | patch/java.base/sun/nio/fs/WindowsPath.java:540-556 | a concrete failure with a middle path without names: `C:\a`, `D:\` and `C:x` resolve to `C:x` step by step and to `C:\a\x` at once |
| `PathFailures.ResolveHangsOnce` | patch/java.base/sun/nio/fs/WindowsPath.java:530-556 | a concrete failure without an absolute path: `C:a`, `\b` and `C:x` resolve to `C:\b\x` step by step and to `C:x` at once |
| `PathFailures.BareDriveLeavesSeparator` | patch/java.base/sun/nio/fs/WindowsPath.java:540-556 | a concrete failure: `C:` resolved against `C:\a` gives a text that is not well formed |
| `PathParts.SubpathIsValid` | patch/java.base/sun/nio/fs/WindowsPath.java:612-628 | a subpath is a well-formed relative path with exactly the chosen elements |
| `PathParts.SubpathCompose` | patch/java.base/sun/nio/fs/WindowsPath.java:612-628 | nested subpaths compose by adding indices |
| `PathParts.ParentAndFileName` | patch/java.base/sun/nio/fs/WindowsPath.java:270-306 | the parent has all names but the last (or is the root), the file name is that last name |
| `PathParts.ParentResolvesFileName` | patch/java.base/sun/nio/fs/WindowsPath.java:270-306 | a path has no parent exactly when it has no names, or one and no root; otherwise resolving the file name against the parent rebuilds it |
| `PathParts.StartsWithIffRemainder` | patch/java.base/sun/nio/fs/WindowsPath.java:631-656 | for a non-empty prefix: it is one if and only if some relative remainder resolves against it to the path, up to case |
| `PathParts.EndsWithIffLeadIn` | patch/java.base/sun/nio/fs/WindowsPath.java:659-696 | for a non-empty relative suffix: it is one if and only if some path resolves with it to the path, up to case |
| `PathParts.EndsWithRooted` | patch/java.base/sun/nio/fs/WindowsPath.java:679-695 | a path with a root is a suffix of nothing but itself, up to case |
| `PathParts.EqualPathsStartAndEnd` | patch/java.base/sun/nio/fs/WindowsPath.java:631-727 | equal paths start and end with each other, although equality and the two tests use different foldings |
| `PathParts.StartsWithTransitive` | patch/java.base/sun/nio/fs/WindowsPath.java:631-656 | a prefix of a prefix is a prefix |
| `PathParts.EmptyStartsAndEnds` | patch/java.base/sun/nio/fs/WindowsPath.java:631-678 | only the empty path starts or ends with the empty path |
| `PathParts.CompareIsDictionaryOrder` | patch/java.base/sun/nio/fs/WindowsPath.java:699-719 | `compareTo` is negative exactly for dictionary order of the folded characters and zero exactly for equality up to case |
| `PathParts.CompareIsTotalPreorder` | patch/java.base/sun/nio/fs/WindowsPath.java:699-719 | `compareTo` is antisymmetric in sign, total and transitive |
| `PathParts.EqualHash` | patch/java.base/sun/nio/fs/WindowsPath.java:722-740 | equal paths have equal 32-bit hash codes, wrap-around included |
| `PathParts.HashIsPolynomial` | patch/java.base/sun/nio/fs/WindowsPath.java:730-740 | the hash code is the polynomial in 31 of the folded characters, in 32 bits |
| `Canonical.ToAbsoluteMeaning` | patch/java.base/sun/nio/fs/WindowsPath.java:179-233 | `getAbsolutePath` hangs the names under the directory the path is counted from, for each of the five types, and fails only for an unknown drive |
| `Canonical.ToAbsoluteByType` | patch/java.base/sun/nio/fs/WindowsPath.java:179-233 | type by type: `x` hangs at the default directory, a root-relative path at its root, and `D:x` at the default directory if that is on D in either case of the letter, else at the working directory of D, or fails when that is unknown |
| `Canonical.StaysOnDrive` | patch/java.base/sun/nio/fs/WindowsPath.java:202-239 | what `D:x` becomes is on the drive D, when the system names for a drive a directory on it |
| `Canonical.ToAbsoluteIsValid` | patch/java.base/sun/nio/fs/WindowsPath.java:827-842 | the absolute path is well formed and absolute |
| `Canonical.ToAbsoluteRespectsCase` | patch/java.base/sun/nio/fs/WindowsPath.java:179-233 | equal paths fail together or have equal absolute paths |
| `Canonical.CanonicalIsValid` | patch/java.base/sun/nio/fs/WindowsPath.java:845-855 | the fallback of `toRealPath` is absolute, well formed and has no dots left |
| `Canonical.CanonicalIdempotent` | patch/java.base/sun/nio/fs/WindowsPath.java:845-855 | canonical paths are their own canonical form |
| `Canonical.CanonicalRespectsCase` | patch/java.base/sun/nio/fs/WindowsPath.java:845-855 | equal paths have equal canonical forms, or both fail |
| `Canonical.CanonicalIdentifiesPlaces` | patch/java.base/sun/nio/fs/WindowsPath.java:845-855 | two absolute spellings have one canonical form if and only if they have the same root and their names walk to the same place |
| `Canonical.DeniedRealPath` | patch/java.base/sun/nio/fs/WindowsPath.java:845-855 | with the real-path call denied, the result is a path of ordinary names that is its own real path |
| `Canonical.AnsweredRealPath` | patch/java.base/sun/nio/fs/WindowsPath.java:845-852 | with the call answered, the result is the path the answer spells |
| `Marks.MarkDot` | patch/java.base/sun/nio/fs/WindowsPath.java:448-456 | marking a `.` takes one element away and leaves the reduction of the rest as it was |
| `Marks.MarkPair` | patch/java.base/sun/nio/fs/WindowsPath.java:464-469 | marking a `..` with the nearest unmarked ordinary name before it takes two elements away and leaves the reduction as it was |
| `Marks.MarkLeading` | patch/java.base/sun/nio/fs/WindowsPath.java:470-486 | under a root, marking a `..` that nothing unmarked precedes takes one element away and leaves the reduction as it was |
| `WindowsPaths.WindowsPath.InitOffsets` | patch/java.base/sun/nio/fs/WindowsPath.java:563-588 | the separator scan stores the offset of every element, once |
| `WindowsPaths.WindowsPath.GetNameCount` | patch/java.base/sun/nio/fs/WindowsPath.java:591-594 | the number of elements, 1 for the empty path |
| `WindowsPaths.WindowsPath.ElementAsString` | patch/java.base/sun/nio/fs/WindowsPath.java:596-601 | the text between two offsets is the element |
| `WindowsPaths.WindowsPath.GetSubpath` | patch/java.base/sun/nio/fs/WindowsPath.java:612-628 | answers exactly when the range is legal, with the path of those elements |
| `WindowsPaths.WindowsPath.HasDotOrDotDot` | patch/java.base/sun/nio/fs/WindowsPath.java:336-347 | finds a `.` or `..` exactly when there is one |
| `WindowsPaths.WindowsPath.MarkOnce` | patch/java.base/sun/nio/fs/WindowsPath.java:435-487 | one pass over the mark array: it ends with the reduction unchanged, the count of unmarked elements kept exact, and either something marked or a reduced rest |
| `WindowsPaths.WindowsPath.MarkRedundant` | patch/java.base/sun/nio/fs/WindowsPath.java:430-488 | the repeated passes end, and what they leave unmarked is the one-pass stack reduction; `remaining` is its length |
| `WindowsPaths.WindowsPath.GetNormalized` | patch/java.base/sun/nio/fs/WindowsPath.java:425-509 | the mark-and-sweep normalisation refines the value function: same root, reduced names |
| `WindowsPaths.WindowsPath.CompareTo` | patch/java.base/sun/nio/fs/WindowsPath.java:699-719 | the index loop computes the order the lemmas are about |
| `WindowsPaths.WindowsPath.Equals` | patch/java.base/sun/nio/fs/WindowsPath.java:722-727 | equality of folded texts |
| `WindowsPaths.WindowsPath.HashCode` | patch/java.base/sun/nio/fs/WindowsPath.java:730-740 | the cached hash is always the hash of the folded text |
| `WindowsPaths.WindowsPath.IsPrefixed` | patch/java.base/sun/nio/fs/WindowsPath.java:631-656 | the backward loop decides the prefix relation |
| `WindowsPaths.WindowsPath.IsSuffixed` | patch/java.base/sun/nio/fs/WindowsPath.java:659-696 | the backward loop decides the suffix relation |
| `WindowsPaths.WindowsPath.RelativizeTo` | patch/java.base/sun/nio/fs/WindowsPath.java:350-422 | the loops and string builders give the answer, or the refusal, of the value function; different types and different roots are refused exactly then |
| `ZipRegistry.SpellingsShareKey` | patch/jdk.zipfs/jdk/nio/zipfs/ZipFileSystemProvider.java:309-316 | with real paths denied, two absolute spellings share a key if and only if roots and reduced names agree up to case |
| `ZipRegistry.AnswersShareKey` | patch/jdk.zipfs/jdk/nio/zipfs/ZipFileSystemProvider.java:309-316 | with real paths answered, two paths share a key if and only if the answers are equal paths; an answered and a denied one if and only if the answer is equal to the normal form of the other |
| `ZipRegistry.ZipFileSystemProvider.NewFileSystem` | patch/jdk.zipfs/jdk/nio/zipfs/ZipFileSystemProvider.java:92-110 | opening by URI is refused as existing exactly when the file is there and some earlier open still stands for its key; when it succeeds the new instance stands for the key, and every other key keeps what stood for it |
| `ZipRegistry.ZipFileSystemProvider.NewUnregistered` | patch/jdk.zipfs/jdk/nio/zipfs/ZipFileSystemProvider.java:112-118 | an instance opened from a path never stands for any key |
| `ZipRegistry.ZipFileSystemProvider.GetFileSystem` | patch/jdk.zipfs/jdk/nio/zipfs/ZipFileSystemProvider.java:143-150 | after any calls, lookup gives an instance exactly when some event of the past opened it under this key and no later one closed it there or replaced it; else it fails |
| `ZipRegistry.ZipFileSystemProvider.RemoveFileSystem` | patch/jdk.zipfs/jdk/nio/zipfs/ZipFileSystemProvider.java:318-322 | after a close the same instances stand for the same keys as before, but for that instance under the key the close met |
| `ZipRegistry.RunKeepsSound` | patch/jdk.zipfs/jdk/nio/zipfs/ZipFileSystemProvider.java:92-118 | after every sequence of opens and closes each registered instance was opened by URI and stands under its own key; and is still open, as long as closes met the keys of the opens |
| `ZipRegistry.RegistryIsSafe` | patch/jdk.zipfs/jdk/nio/zipfs/ZipFileSystemProvider.java:92-118 | in every run: opening an existing registered file changes nothing; a close removes its own instance and no other; closing an instance that was opened from a path changes no registration |
| `ZipRegistry.CloseLeaks` | patch/jdk.zipfs/jdk/nio/zipfs/ZipFileSystemProvider.java:318-322 | in every run, closing a registered instance leaves its entry behind, for a closed instance, if and only if the key at the close is not the key of the open |
| `ZipRegistry.RegistrationLasts` | patch/jdk.zipfs/jdk/nio/zipfs/ZipFileSystemProvider.java:97-107 | a registration survives a step if and only if the step neither closes it under its key nor opens its key while the file is missing, which replaces it |
| `ZipRegistry.LookupFindsLastOpen` | patch/jdk.zipfs/jdk/nio/zipfs/ZipFileSystemProvider.java:92-150 | the map over whole runs and the history agree: an instance is at a key exactly when some event opened it there and nothing after that ended it |
| `ZipRegistry.LookupBySpelling` | patch/jdk.zipfs/jdk/nio/zipfs/ZipFileSystemProvider.java:92-150 | real paths denied: after opening by one spelling, looking up any other spelling of the same root and reduced names gives that instance if and only if no later event ended it |
| `LoaderCache.HitAgrees` | patch/LoaderUtil.java:35-46 | a cached value computed for an equal path agrees with the direct computation |
| `LoaderCache.LoaderUtil.NormalizeExistingPath` | patch/LoaderUtil.java:35-46 | hit or miss, the answer is the canonical path up to case; entries are never changed, and failures are not cached |
| `LoaderCache.LoaderUtil.NormalizePath` | patch/LoaderUtil.java:27-33 | both branches agree with the direct computation up to case |
| `UrlForm.UrlDecode` | MC.Server/WebPanel.cpp:42-54 | the decoding loop, with what `strtol` makes of signs and blanks, computes the decoding function |
| `UrlForm.DecodeOfEncode` | MC.Server/WebPanel.cpp:42-54 | decoding undoes every percent-encoding of every byte string (section 2.1 of RFC 3986), whichever bytes the encoder leaves alone |
| `UrlForm.DecodeOfPlain` | MC.Server/WebPanel.cpp:42-54 | without a percent sign, each plus sign becomes a blank and nothing else changes |
| `UrlForm.StrayPercentStays` | MC.Server/WebPanel.cpp:42-54 | a percent sign without two digits behind it stays as it is |
| `UrlForm.QueryValue` | MC.Server/WebPanel.cpp:56-68 | the scan gives the value of the first part with the key, or empty |
| `UrlForm.KeyAlone` | MC.Server/WebPanel.cpp:56-68 | a part without an equals sign is a key with an empty value |
| `UrlForm.QueryOfForm` | MC.Server/WebPanel.cpp:56-68 | over any `&`-joined list of encoded pairs, lookup gives the decoded value of the first pair with the key, or empty |
| `PanelPaths.MakeSafeName` | MC.Server/WebPanel.cpp:161-171 | the filter and trim loops compute the safe name |
| `PanelPaths.SafeNameIsSafe` | MC.Server/WebPanel.cpp:161-171 | a safe name has no forbidden character and no blank or dot at its end, hence is neither `.` nor `..` |
| `PanelPaths.AllowedByChar` | MC.Server/WebPanel.cpp:161-166 | of each character, wherever it stands: the nine that Windows refuses in names are dropped and all others are kept in order |
| `PanelPaths.SafeNameMeaning` | MC.Server/WebPanel.cpp:161-171 | of any name: what is kept of it without the blanks and dots at its end, all of them and no more |
| `PanelPaths.SafeNameFixesSafe` | MC.Server/WebPanel.cpp:161-171 | exactly the safe names are left unchanged, so it is idempotent |
| `PanelPaths.ResolveUnderRoot` | MC.Server/WebPanel.cpp:173-195 | answers exactly when every name between separators of either kind is plain, and then with the root and those names behind it, and with those names joined by slashes |
| `PanelPaths.ResolveMeaning` | MC.Server/WebPanel.cpp:173-195 | the resolution against an independent reading of the path: split at both separators, without empty pieces and dots; refused exactly when a name is `..` or has a colon; else the root and every name behind a backslash |
| `PanelPaths.ResolvedIsBelow` | MC.Server/WebPanel.cpp:173-195 | what is resolved is the root itself, exactly when there is no name, or lies below it: the root in front and plain names behind it, none of them empty, a dot, two dots, or with a separator or colon |
| `PanelPaths.ResolvedStaysUnder` | MC.Server/WebPanel.cpp:173-195 | the walk that the names describe only goes down |
| `PanelPaths.ResolveRoundTrip` | MC.Server/WebPanel.cpp:173-195 | resolving the normalised relative path gives the same full and relative path |
| `PanelPaths.ChildIsResolved` | MC.Server/WebPanel.cpp:570-591 | the folder or file that create and upload make is exactly what the listed path joined with the safe name resolves to |
| `PanelPaths.RenameIsResolved` | MC.Server/WebPanel.cpp:552-561 | the place that rename moves to is exactly what the parent of the path joined with the safe name resolves to |
| `Multipart.BoundaryReadsBack` | MC.Server/WebPanel.cpp:251-259 | a boundary parameter at the end of the header is read back, quoted or not |
| `Multipart.BoundaryTakesTheRest` | MC.Server/WebPanel.cpp:251-259 | with anything but a quote behind it, the boundary is read back, quoted or not, if and only if nothing is behind it |
| `Multipart.ExtractFilePart` | MC.Server/WebPanel.cpp:261-288 | the scanning loop gives name, start and length of the part that the extraction function names, or fails with it |
| `Multipart.DataFound` | MC.Server/WebPanel.cpp:279-284 | the data of a file part is cut out whole exactly when it does not hold the delimiter; the delimiter cannot overlap itself |
| `Multipart.ExtractUndoesBuild` | MC.Server/WebPanel.cpp:261-288 | for every boundary, every list of plain fields before it and every file: the file and its safe name come back if and only if the file does not hold CRLF and the boundary (section 5.1.1 of RFC 2046) |
| `Multipart.NoBoundaryNoPart` | MC.Server/WebPanel.cpp:264-267 | a body without the boundary is refused |
| `Multipart.UnendedIsRefused` | MC.Server/WebPanel.cpp:279-281 | a file whose content no delimiter ends is refused |
| `Multipart.UnclosedIsRefused` | MC.Server/WebPanel.cpp:273-277 | a header block in which the file name is not closed by a quote ends the search with a refusal |
| `Multipart.NamelessIsRefused` | MC.Server/WebPanel.cpp:278-284 | a file whose name has nothing safe in it is refused |
| `Lines.FindHeaderEnd` | MC.Server/WebPanel.cpp:601-605 | the first empty line of a printed header block is the one behind it |
| `HttpRequest.ParseHeaders` | MC.Server/WebPanel.cpp:606-621 | the line loop fills the header map |
| `HttpRequest.LinesAddFields` | MC.Server/WebPanel.cpp:609-618 | a line without a colon adds nothing; else the name ends at the first colon |
| `HttpRequest.ReadRequest` | MC.Server/WebPanel.cpp:593-634 | the two receive loops read what the chunk function describes, refusals included |
| `HttpRequest.GatherFinds` | MC.Server/WebPanel.cpp:597-604 | however the bytes arrive, gathering finds the end of a header block that lies within the limit, and loses nothing behind it |
| `HttpRequest.FillIsTake` | MC.Server/WebPanel.cpp:626-632 | however the rest arrives, the body is the announced number of bytes, or the request fails when the stream ends before |
| `HttpRequest.ChunksDoNotMatter` | MC.Server/WebPanel.cpp:593-634 | unless the header block ends beyond 1 MiB, every cutting of the stream gives the same answer, a refusal included |
| `HttpRequest.ReadAtLimit` | MC.Server/WebPanel.cpp:597-604 | for every stream: every cutting gives what the whole stream gives if and only if that is a refusal or the header block ends within 1 MiB; some cutting does if and only if it is a refusal or the block ends within 1 MiB and a buffer |
| `HttpRequest.CuttingsDisagree` | MC.Server/WebPanel.cpp:597-604 | every request line of a length between the two limits is a request that one cutting accepts and another refuses |
| `HttpRequest.ReadIgnoresTheRest` | MC.Server/WebPanel.cpp:622-632 | bytes behind the body are not looked at |
| `HttpRequest.HeadReadsBack` | MC.Server/WebPanel.cpp:605-621 | a printed request line and fields give the map of the fields taken one after the other |
| `HttpRequest.HeadersAreFound` | MC.Server/WebPanel.cpp:605-621 | that map holds, under each name in small letters, the value of the last field that has this name in any spelling of its letters, and nothing else |
| `HttpRequest.AnnouncedLength` | MC.Server/WebPanel.cpp:622-625 | a printed content length is read as that number, up to the largest 64-bit value |
| `HttpRequest.PrintedRequestReadsBack` | MC.Server/WebPanel.cpp:593-634 | a printed request within the limits is read back, head, map and body, from every chunking and whatever follows |
| `HttpRequest.PrintedRequestOutcome` | MC.Server/WebPanel.cpp:593-634 | whatever stands behind a printed header block and however it arrives: refused exactly when more than 512 MiB are announced or fewer bytes come than announced, else the body is the announced number of bytes |
| `Decimal.StrtoullReads` | MC.Server/WebPanel.cpp:622-625 | a length with blanks, a sign, and anything behind its digits is read as `strtoull` reads it, saturation and wrap-around included |
| `Upload.HandleClient` | MC.Server/WebPanel.cpp:636-673 | whatever bytes a client sends, in whatever pieces: a file is written only below the root, at its text with plain names behind it |
| `Upload.ServedStaysUnder` | MC.Server/WebPanel.cpp:579-591 | no request, well formed or not, has a file written elsewhere |
| `Upload.OtherRequestsWriteNothing` | MC.Server/WebPanel.cpp:640-673 | a request line with another method or another path has nothing written |
| `Upload.NoBoundaryNoFile` | MC.Server/WebPanel.cpp:251-263 | without a content type that announces a boundary nothing is written |
| `Upload.UploadWritesTheFile` | MC.Server/WebPanel.cpp:579-673 | end to end: for every directory, every form with plain fields before the file, header fields in any order and any spelling of their names, and every cutting of the stream, the file is written byte for byte under its safe name in that directory if and only if it does not hold the delimiter; and that place is what the joined path resolves to |
| `JsonScan.ValueRuns` | MC.Server/Platform.cpp:859-866 | over any printed JSON value, the bracket depth comes back to what it was and never falls below it, whatever strings hold; by induction over the value |
| `JsonScan.JsonValueSpan` | MC.Server/Platform.cpp:846-868 | the scanner computes the span function |
| `JsonScan.ValueSpanIsPrinted` | MC.Server/Platform.cpp:846-868 | behind the first text `"key"` that is a key, the span is exactly the printed object or array |
| `JsonScan.SplitElements` | MC.Server/Platform.cpp:899-908 | the splitting loop computes the element function |
| `JsonScan.ArrayIsSplit` | MC.Server/Platform.cpp:896-908 | any printed array of objects is split into exactly its elements, in order, without the blanks between them |
| `JsonText.JsonEsc` | MC.Server/WebPanel.cpp:70-85 | the loop computes the escaping function |
| `JsonText.UnescapeOfEscape` | MC.Server/WebPanel.cpp:70-85 | every byte string is written as a string body that means exactly those bytes (section 7 of RFC 8259) |
| `JsonText.EscapeByByte` | MC.Server/WebPanel.cpp:70-85 | how each byte is written, by its kind |
| `JsonText.EscapeInjective` | MC.Server/WebPanel.cpp:70-85 | no two byte strings are written alike |
| `JsonText.MeaningIsBody` | MC.Server/Platform.cpp:862-863 | every text with a meaning as a string body keeps the scanners inside the string to its end |
| `JsonText.JsonStringAfter` | MC.Server/Platform.cpp:813-830 | the scanner computes the reading function |
| `JsonText.StringAfterIsUnslash` | MC.Server/Platform.cpp:813-830 | of any printed JSON string behind its key, the body without its backslashes is read |
| `JsonText.ReadsMeaningIffPlain` | MC.Server/Platform.cpp:823-828 | for every JSON string, what is read is what the string means if and only if it escapes nothing but quotes, backslashes and slashes |
| `JsonText.StringReadsBack` | MC.Server/Platform.cpp:813-830 | a string written by `JsonEsc` is read back if and only if it has no byte below 0x20 |
| `PaperBuilds.PaperVersions` | MC.Server/Platform.cpp:876-892 | the token loop adds the version names among the strings of the span, each once |
| `PaperBuilds.AddAllIsDistinct` | MC.Server/Platform.cpp:885-888 | the list has no name twice and holds exactly the strings that start with a digit and have a dot |
| `PaperBuilds.AddAllKeepsOrder` | MC.Server/Platform.cpp:885-888 | reading on only adds at the end: the order is that of first mention |
| `PaperBuilds.VersionsOfAnswer` | MC.Server/Platform.cpp:876-890 | of the whole answer, the tokens are exactly the strings inside the value behind `"versions"`, in order, as the scanner hears them |
| `PaperBuilds.ListedVersions` | MC.Server/Platform.cpp:876-890 | of the whole answer, the list holds exactly the strings inside the value behind `"versions"` that start with a digit and have a dot |
| `PaperBuilds.ListedWithoutKey` | MC.Server/Platform.cpp:876-890 | of an answer without that text, exactly those among all its strings |
| `PaperBuilds.JsonIntAfter` | MC.Server/Platform.cpp:832-845 | the digit loop computes the number function in 32 bits, -1 without digits |
| `PaperBuilds.IntReadsBack` | MC.Server/Platform.cpp:832-845 | a printed whole number, negative ones too, is read modulo 32 bits, so it is read back if and only if it lies in their range |
| `PaperBuilds.ResolveStableBuildUrl` | MC.Server/Platform.cpp:896-920 | address and id come from the first stable element, else from the first element; nothing when there is none or it has no address |
| `PaperBuilds.AnswerOfPrintedBuilds` | MC.Server/Platform.cpp:896-920 | on any printed array of builds the answer is read from exactly the printed text of that build |
| `PrintedBuilds.OwnChannelDecides` | MC.Server/Platform.cpp:909-911 | when the first text `"channel"` of an element is the key of its own member, the element is chosen as stable if and only if that member is written `STABLE` |
| `PrintedBuilds.PrintedBuildIsRead` | MC.Server/Platform.cpp:913-919 | of a printed build whose keys come first where they are looked for: the address is the body of its own `url` under `server:default` without the backslashes, the id its own number in 32 bits; nothing when the address is empty |
| `PrintedBuilds.NoAnswerWithoutKeys` | MC.Server/Platform.cpp:913-917 | nothing is read of an element without `"server:default"`, or without `"url"` behind it |
| `PrintedBuilds.AnswerIsTheBuild` | MC.Server/Platform.cpp:896-920 | on any printed array of builds the answer is the address and number of the first stable build, or else of the first one |
| `Listing.ListJson` | MC.Server/WebPanel.cpp:481-522 | from the query to the text: what is written is the printed listing of what the search finds at the resolved path, or the empty listing for a path that does not resolve |
| `Listing.AnswerShows` | MC.Server/WebPanel.cpp:481-522 | what the page makes of the answer: of a path of plain names, those names and every entry that is found in that very directory below the root, as often as it was found; of any other path, nothing |
| `Listing.ListingIsStrict` | MC.Server/WebPanel.cpp:505-521 | whatever bytes names and path hold, the listing is a JSON text in the strict sense of RFC 8259 |
| `Listing.ListsEveryEntryOnce` | MC.Server/WebPanel.cpp:490-519 | every entry found but `.` and `..` is listed exactly as often as it was found, directories before files |
| `Listing.ListedByName` | MC.Server/WebPanel.cpp:499-503 | directories among themselves and files among themselves are listed in the order of their names, whatever function sorts by name |
| `Listing.SortExists` | MC.Server/WebPanel.cpp:501-503 | for every folding of case there is a function that sorts by name |
| `Listing.EntryReadsBack` | MC.Server/WebPanel.cpp:508-517 | an entry is recovered from its JSON object |
| `FileTree.Disk.DelTree` | MC.Server/WebPanel.cpp:455-472 | ends on every finite tree, with the disk as the deletion function says; true if and only if something was there and nothing is left |
| `FileTree.Disk.RemoveDirRecursive` | MC.Server/Platform.cpp:333-350 | the same for directories; anything else stays and gives false |
| `FileTree.LeavesUndeletableAndAncestors` | MC.Server/WebPanel.cpp:455-472 | when every directory can be listed, inside the target exactly the undeletable nodes and their ancestors are left |
| `FileTree.KeptFilesAreWritable` | MC.Server/WebPanel.cpp:458-461 | what is left of a file that could be tried has lost its read-only mark |
| `FileTree.SealedIsUntouched` | MC.Server/WebPanel.cpp:462-470 | all that lies in a directory that cannot be listed stays as it was |
| `FileTree.OutsideUntouched` | MC.Server/WebPanel.cpp:455-472 | nothing outside the target changes and nothing is added |
| `FileTree.TargetGoesWithAll` | MC.Server/WebPanel.cpp:455-472 | the target goes if and only if everything inside it goes |
| `FileTree.AfterIsTree` | MC.Server/WebPanel.cpp:455-472 | what is left is still a tree |
| `FileTree.AgainChangesNothing` | MC.Server/WebPanel.cpp:455-472 | deleting again changes nothing |
| `FileTree.LastStep` | MC.Server/WebPanel.cpp:465-471 | after all children are tried, removing the directory succeeds exactly when nothing stuck is inside |
| `FileTree.PartialStep` | MC.Server/WebPanel.cpp:465-468 | deleting one more child takes the half-deleted directory one child further, whatever the order |
| `Instances.SanitizeInstanceId` | MC.Server/Platform.cpp:361-372 | the filter and trim loops compute the sanitised name |
| `Instances.MappedByChar` | MC.Server/Platform.cpp:361-367 | of each character, wherever it stands: letters and digits stay, a blank, hyphen or underscore becomes an underscore, and everything else is dropped |
| `Instances.SanitizeMeaning` | MC.Server/Platform.cpp:361-372 | of any name: what its characters become without the underscores at both ends, or `server` when that is nothing |
| `Instances.SanitizeIsBase` | MC.Server/Platform.cpp:361-372 | every display name becomes a non-empty name of letters, digits and inner underscores |
| `Instances.SanitizeIdempotent` | MC.Server/Platform.cpp:361-372 | sanitising twice changes nothing more |
| `Instances.CandidatesDiffer` | MC.Server/Platform.cpp:406-409 | no two candidates name one directory, even up to case |
| `Instances.CandidatesByNumber` | MC.Server/Platform.cpp:406-409 | the names tried are the base, then the base with `-2`, `-3` and so on behind it |
| `Instances.NumberedIsNoBase` | MC.Server/Platform.cpp:406-409 | a numbered candidate is never the sanitised name of anything, even up to case |
| `Instances.FindFreeId` | MC.Server/Platform.cpp:405-409 | the search ends for every finite set of names, after no more steps than names, at the first candidate that is free |
| `Instances.FreeIdIsUnique` | MC.Server/Platform.cpp:405-409 | there is exactly one such name, and no directory has it, even up to case |
| `Instances.InstanceStore.CreateInstance` | MC.Server/Platform.cpp:400-447 | a created instance has a directory of its own, first free name and all, with exactly the files that could be written; every other directory stays as it was; a failure leaves the store as it was, or one directory without a server when cleaning up fails too |
| `Instances.LabelIsTheTypedName` | MC.Server/Platform.cpp:273-281 | the name an instance is shown by is the one typed for it if and only if that is one line without blanks at its ends; with none typed it is the directory name |
| `Instances.LabelWithoutName` | MC.Server/Platform.cpp:385-392 | without a name file, or with a blank first line, the directory name is shown |
| `Host.App.StartSelectedInstance` | MC.Server/App.cpp:937-957 | keeps the invariant of the object; the console is reached exactly when there is an instance and the thread was made, and then there is one thread; list and selection stay |
| `Host.App.EnterNewServerScreen` | MC.Server/App.cpp:959-965 | keeps the invariant; reaches the new-server screen with the list found and its first version selected |
| `Host.App.BeginCreateInstance` | MC.Server/App.cpp:967-974 | keeps the invariant; the version naming begins for is the selected one |
| `Host.App.FinishCreateInstance` | MC.Server/App.cpp:976-989 | keeps the invariant; gives the version that is copied, the one at the remembered index, and reaches the launcher exactly when there is one |
| `Host.App.DeleteSelectedInstance` | MC.Server/App.cpp:1017-1026 | keeps the invariant; what it removes is the selected instance, and the one the question named; the question is over |
| `Host.App.DeleteSelectedPoolVersion` | MC.Server/App.cpp:1028-1037 | keeps the invariant; removes a version exactly when one is selected that is not bundled, and then the selected one; else list and selection stay |
| `Host.App.OnLauncherKey` | MC.Server/App.cpp:1071-1102 | keeps the invariant. Up and down move the selection one place, around at the ends; the start key reaches the console with one thread more when there is an instance and the thread was made; the new key reaches the new-server screen with the list found; the remove key puts the question. With the question up the confirming key removes the instance it named, back ends it, and no other key does anything |
| `Host.App.OnNewServerKey` | MC.Server/App.cpp:1104-1131 | keeps the invariant. Nothing happens while a name is typed; else up and down move the selection one place, the start key begins naming for the selected version, the remove key takes it away unless it is bundled, and back leads to the launcher |
| `Host.App.PollName` | MC.Server/App.cpp:700-717 | keeps the invariant; a submitted name copies the version at the remembered index; naming goes on exactly while nothing is submitted and the entry is active or was not yet seen; else screen and list stay |
| `Host.App.Pass` | MC.Server/App.cpp:657-717 | keeps the invariant; a pass takes the mark down, reads the list again if it was up, and only then polls the name, so what is copied comes from the list just read |
| `Host.App.RescanVersions` | MC.Server/App.cpp:657-661 | keeps the invariant; the list is the one found and the selection stays, or is its last place |
| `Host.MovesUndoEachOther` | MC.Server/App.cpp:1084-1091 | up and down undo each other on every list, its ends included |
| `Host.CreatedIsSelected` | MC.Server/App.cpp:976-989 | after creating, the new instance is the selected one whenever it is found on the disk; else the selection stays, in range |
| `HostRuns.NextKeepsSound` | MC.Server/App.cpp:937-1155 | no step of any thread reads outside a list, and each keeps the whole invariant |
| `HostRuns.RunKeepsSound` | MC.Server/App.cpp:653-717 | in every interleaving of keys, main-loop passes and worker steps the invariant holds and nothing reads outside a list |
| `HostRuns.OneWorker` | MC.Server/App.cpp:991-1009 | in every reachable state: busy implies the downloads screen, at most one worker has writes pending, and then busy is up |
| `HostRuns.NoStaleList` | MC.Server/App.cpp:1002-1008 | in every reachable state a worker that changes the version list was started for the latest clearing of it, and finds it empty with selection 0 |
| `HostRuns.DownloadsAreSeen` | MC.Server/App.cpp:1051-1061 | in every reachable state without busy flag, mark or rescan under way, every downloaded version is in the list |
| `HostRuns.NextPassLists` | MC.Server/App.cpp:657-661 | from every reachable state without busy flag, the next pass of the main loop leaves every downloaded version in the list |
| `HostRuns.LockedCanStep` | MC.Server/App.cpp:991-1069 | in every reachable state in which the list is locked, the worker that holds the lock can take its next step: nobody waits for ever |
| `HostRuns.ServerOnce` | MC.Server/App.cpp:937-957 | in every reachable state the server thread was created at most once, and it was exactly when the console is shown |
| `HostRuns.ConfirmRemovesTheNamed` | MC.Server/App.cpp:1011-1026 | in every reachable state that asks for confirmation, a confirmation removes the selected instance, and the prompt shows the name of that instance |
| `HostRuns.AskedInstanceStays` | MC.Server/App.cpp:1011-1026 | two instances may be shown by one name, but as long as the question stands no step of any thread changes list, selection or prompt |
| `HostRuns.LineTellsIffTitlesDo` | MC.Server/App.cpp:1011-1015 | over all reachable states that ask about one list: the prompt determines the instance that a confirmation removes if and only if no two instances of the list are shown alike |
| `NamingRuns.PassIs` | MC.Server/App.cpp:657-717 | a pass of the main loop after the events: one rescan if the mark is up, then the naming poll |
| `NamingRuns.TypingPasses` | MC.Server/App.cpp:657-717 | over any number of passes while a name is typed the remembered index stays, and only the first pass can read the list again |
| `NamingRuns.CopiedThroughPasses` | MC.Server/App.cpp:657-717 | over any number of passes up to the one that submits the name, each with replies of its own: the version copied is the one selected when naming began if no mark was up then; else it is whatever the list read by the first pass has at that place |
| `NamingRuns.CopiesTheSelected` | MC.Server/App.cpp:967-1131 | from the key that begins naming, over any steps of any threads up to the pass that submits the name: the version copied is the one that the list last read has at the place selected then; and it is the selected version itself when no mark was up and no key removed a version, began naming anew, went to the downloads or came back from the launcher |
| `NamingRuns.EveryCopyWasBegun` | MC.Server/App.cpp:653-717 | in every run from the start, a version that is copied goes back to a step that began naming, and is the one that the list last read since has at the place selected then |
| `NamingRuns.NothingElseMoves` | MC.Server/App.cpp:1104-1131 | between those passes no worker and, while the entry is active, no key changes any field |
| `NamingRuns.AnotherVersionIsCopied` | MC.Server/App.cpp:967-979 | a concrete failure: a run from the start after which naming begins for one version and another is copied |
| `NamingRuns.RemovedBeforeTheCopy` | MC.Server/App.cpp:700-717 | a second concrete failure, with no mark up: between the submit and the pass that takes it a key removes the selected version, and the one that moves up is copied |
| `DownloadRuns.NewServerLeadsToDownloads` | MC.Server/App.cpp:991-1009 | run to its end, the key that leads to the downloads clears the list and sends one worker for the versions |
| `DownloadRuns.MovesSelect` | MC.Server/App.cpp:1134-1144 | on the downloads screen, up and down move the selection one place, around at the ends, and change nothing else |
| `DownloadRuns.BackLeaves` | MC.Server/App.cpp:1150-1153 | back leads to the new-server screen exactly when no worker is busy |
| `DownloadRuns.NewReloads` | MC.Server/App.cpp:1148-1149 | the new key has the versions loaded again exactly when no worker is busy |
| `DownloadRuns.AcceptDownloads` | MC.Server/App.cpp:1039-1069 | the start key sends one worker for the selected version; with an empty list one for the versions; while a worker is busy nothing |
| `DownloadRuns.FetchRuns` | MC.Server/App.cpp:1002-1008 | a worker sent for the versions leaves exactly what it was given in the list and ends the busy state |
| `DownloadRuns.LoadRuns` | MC.Server/App.cpp:1051-1061 | a worker sent for a version leaves it on the disk and the mark up exactly when the download went well, and ends the busy state |
| `DownloadRuns.RemoveTakesOff` | MC.Server/App.cpp:1028-1037 | the remove key takes exactly the selected version off the disk, when that works and it is not bundled |
| `ConsoleLog.ConsoleRingBuffer.Push` | MC.Server/App.cpp:13-18 | pushing keeps the last thousand lines of the old contents and the new line |
| `ConsoleLog.ConsoleRingBuffer.At` | MC.Server/App.cpp:25-30 | the line at an index, oldest first, wrap-around included |
| `ConsoleLog.KeepsTheLast` | MC.Server/App.cpp:13-30 | after any number of pushes the buffer holds exactly the last thousand lines, in order |
| `ConsoleLog.LogFileReader.PollNewLines` | MC.Server/App.cpp:49-81 | the lines of a poll are the non-empty pieces between the line feeds of what was added, carriage returns left out; a file that has not grown gives none |
| `ConsoleLog.LinesOfTwo` | MC.Server/App.cpp:49-81 | two readings give the lines of one reading exactly when the cut between them does not go through a line; else one line more |
| `ConsoleLog.PollsGiveTheLines` | MC.Server/App.cpp:49-81 | however polls fall between writes of a growing log, together they give the lines of the log if and only if no poll cuts a line in two |
| `ConsoleLog.NothingIsLost` | MC.Server/App.cpp:49-81 | cut lines or not, no byte of the log is lost and none is read twice |

## Left out

- The path parser, link support and native dispatchers: not part of this model; see the assumptions.
- `WindowsPath.resolve`, `getParent`, `getFileName`, `getRoot`, `toAbsolutePath`, `toRealPath` as methods of the class: they build new values from immutable fields and are the value functions of `PathAlgebra`, `PathParts` and `Canonical`.
- `WindowsPath.toUri`, `register`, file opening, long-path prefixes and the cached text for Win32 calls: foreign calls.
- Concurrent use of one `WindowsPath`, of the loader cache and of the zip registry: the first is benign by its volatile field, the others are modelled as the sequence of calls their locks and `computeIfAbsent` give.
- `uriToPath` and the attributes of entries inside a zip: parsing by the JDK and file input and output.
- Paths with attributes attached and permission checks: they do not change the path value.
- UTF-8 and UTF-16: names and texts are one sequence of characters; the conversion is a parameter where a contract needs it (`Multipart.ExtractFilePart`) and the identity elsewhere, so that invalid sequences, and the log reader's conversion of single bytes, are not modelled.
- The JSON scanners' bracket depth is an unbounded number, where the source has an `int`.
- Instances.InstanceStore.CreateInstance: does not model a file that is cut off half-way; each file is written whole or is missing.
- FileTree.Disk.DelTree: does not model other processes that change the tree during the deletion; clearing the read-only attribute always works, and a directory that refuses removal for its attributes counts as locked.
- Listing.ListJson: sizes and times are given texts without quotes, backslashes or control characters, as both formatters write them; whether a file counts as text is given too.
- FileTree.OutsideUntouched: does not model directory links. The source never looks at the reparse-point attribute, so a link inside the target is listed and emptied, and then nodes outside the target go too; the statement is for trees without links.
- Upload.HandleClient: does not model the routes other than the upload, nor the response; a file that cannot be opened for writing counts as written.
- Sending responses and serving the page: straight-line calls.
- HostRuns.RunKeepsSound: progress numbers, status texts, console input, rendering and shutdown are left out because no branch of the modelled handlers depends on them; a section under the mutex of the main thread is one step.
- The steps of the downloads screen have no methods on the application object: other threads run between their accesses, so they are steps of `HostRuns` instead.
- Direct2D rendering, window and COM plumbing, the embedded JVM, on-screen text entry, launch logs, build scripts and the compatibility mod: platform calls and glue.
