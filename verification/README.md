# Arch-Engine: canonical artefacts, proved

Arch-Engine turns a repository into a canonical package graph, compares graphs, and ships what
it found as a hash-linked AGP bundle that a second, independent implementation re-checks. This
project models the parts of it on which that chain of trust rests, in Dafny, and proves what
they promise:

- **The bundle.** `Json` and `JsonDecode` hold the canonical JSON text and a reader that
  inverts it; `CanonicalText` spells the text out. `ObjectGraph` runs the printer as it is
  written, on an object graph, with its `seen` set. `AgpRecords` and `AgpBundle` build, sort,
  frame, read back and re-check records and snapshot; `RecordOrder` and `BundleText` say in what
  order and what stands in the files. `PathScan` compares the two absolute-path scans, and
  `BundlePaths` says what they decide about a whole bundle.
- **The policy-pack resolver**: a depth-first post-order that steps over cycles
  (`PolicyPackResolver`), and the function around it (`PolicyPackProgram`).
- **The workspace graph.** `PnpmWorkspace` reads the workspace file, `WorkspaceSpellings` says
  what it reads from the ways people write it, `Regex`, `Globs` and `WorkspaceGlobs` expand its
  globs, whose meaning `GlobMeaning` gives, `PackageGraph` builds the pnpm and the yarn graph,
  `ManifestEntries`, `PackageGraphFacts`, `PackageGraphKinds`, `LocalTargets` and
  `PackageGraphAgreement` say what they hold, `CanonicalTopology`, `GraphSurface` and
  `AdjacencyMap` are the normal form, its hash and its projection, spelled out in `TopologyText`,
  `Drift` compares two of them, and `DriftFacts`, `ViolationKeys` and `ViolationOrder` say what
  the comparison means.
- **The regression classifier** (`Regression`, `RegressionConfidence`), in exact arithmetic, and
  its report field by field (`RegressionReport`).

`Texts`, `Sorting` and `Results` hold what all of them share: strings as sequences of UTF-16
code units with the language's order on them, its stable sort, and option and result types.

The source's loops and its methods that change state are methods here, proved against a
specification function; the theorems are lemmas about that function, and where it meets the
input, lemmas state it once more in the terms of the input alone. Four pieces are functions
all the same: the two path scans, whose loops only look for the first hit, the digest's
projection, and the emitter from its sort onwards, which runs straight through. Hash functions
are parameters: no property assumes that a hash is injective, and a lemma that needs two texts
not to collide says which two. The JSON parser is one too, and is asked only to read back the
texts that are printed: a parser that rounds numbers to doubles does, for numbers that doubles
print as (`AgpBundle.RoundingReaderReads`). The file system is an immutable tree of directories.
JSON objects are maps, because key insertion order never reaches a canonical text.

The emitter and the verifier carry copies of the canonicaliser, the record comparator and the
hash recipes that agree branch for branch; one member here stands for both, and the table cites
one or the other. Where they differ, in the path scans, both are modelled.

## Where the code and its documentation part

The model follows the code. Each point below is proved: the exact condition, and an input or a
family of inputs where code and documentation part.

- The canonicaliser's documentation says circular references are rejected. What is rejected is
  any container reached twice, cycle or not (`ObjectGraph.CanonicalJson`,
  `ObjectGraph.SharedContainerRejected`, `ObjectGraph.TwiceRejected`).
- A string that starts with a drive letter and a colon but no separator, say `C: is full`,
  passes the emitter's scan and fails the verifier's; that is the only difference
  (`PathScan.ScansCompared`, `PathScan.BareDriveEmittedThenRefused`). The verifier also scans
  the snapshot, which the emitter does not: `BundlePaths.EmittedBundleScanned` says exactly
  which emitted bundles pass.
- The line splitter says it ignores lines of white space. It drops empty lines only
  (`AgpBundle.SpacesAreKept`).
- Resolving the resolver's output again changes it exactly when the requests reach a cycle
  through two different packs (`PolicyPackResolver.IdempotentIffCycleFree`,
  `PolicyPackResolver.MutualDependencyNotIdempotent`).
- A glob with an empty segment, say `apps/*/`, is expanded, but the same glob as an exclusion
  covers none of the directories found (`WorkspaceGlobs.SelfExclusion` has the exact condition,
  `WorkspaceGlobs.TrailingSlashSurvives` and `WorkspaceGlobs.AppsWebSurvives` the input).
- A comment says `!**/x/**` covers `x` and `a/x`. It covers neither
  (`WorkspaceGlobs.RecursiveExclusionSkipsTheDirectory`, `WorkspaceGlobs.NestedExamples`). On
  paths of one line it covers exactly those that have `x/` in them
  (`WorkspaceGlobs.RecursiveExclusion`), and so a nested directory `x` exactly when the path of
  its parent has a component that ends with `x`, as in `x/x` and `ax/x`
  (`WorkspaceGlobs.NestedExclusionExactly`).
- Comments say that of several dependency kinds the first block's wins. The alphabetically
  least does (`PackageGraphFacts.LeastKindWins`). That is the first block's exactly when
  `dependencies` or `devDependencies` declares the target, or not both of the other two
  (`PackageGraphKinds.FirstBlockWinsExactly`); `optionalDependency` beats `peerDependency`
  (`PackageGraphKinds.OptionalBeatsPeer`).
- The edges of a package graph are all its internal dependencies exactly when no two of those
  share a truncated id (`PackageGraphFacts.EdgesCompleteIffSeparate`,
  `PackageGraphFacts.ConstantHashLoses`), and the edge list of a canonical topology is
  independent of the order of its input exactly when no two different edges do
  (`CanonicalTopology.EdgeOrderIrrelevantIffInjective`, `CanonicalTopology.ConstantHashOrder`).
- A comment calls the sort of the violation lists stable by id. A violation without an id
  compares equal to every other, so the comparison is an order exactly on the lists whose
  entries all have ids, or among whose ids no two differ (`ViolationOrder.ConsistentExactly`).
  The result is determined exactly when it is one on each of the three lists sorted by it
  (`ViolationOrder.ViolationsDetermined`). Lists without two different ids keep the order in
  which their keys first occur (`ViolationOrder.OneIdKeepsOrder`); with the ids `b`, none and `a`
  the language leaves the order open (`ViolationOrder.MixedUndetermined`).
- Violations without an id are compared under a text their parts are joined to with bars.
  Where neither rule nor ends have a bar, the text tells them apart
  (`ViolationKeys.FallbackKeysSeparate`), and unless some id looks like such a text none of them
  is ever reported to have changed its severity (`ViolationKeys.ChangesHaveIds`). With a bar, two
  different ones can be reported as one that did (`ViolationKeys.BarsCollide`).
- A lower confidence label can make a regression milder, from LOW to VERY_LOW against a
  MODERATE baseline, and nothing else can (`Regression.WorseIsMilderExactly`,
  `Regression.LowerLabelMilder`).
- High regression confidence is documented for two structured runs with one confidence label.
  It is also given to two runs neither of which is structured, and to a label that rose by two
  steps (`RegressionConfidence.HighExactly`, `RegressionConfidence.HighWithoutStructure`,
  `RegressionConfidence.HighAfterRise`); and the reported cause can be structured parity while
  the confidence is not high (`RegressionConfidence.ParityDespiteDoubt`,
  `RegressionConfidence.ParityOfMedium`).

## Model

| member | source | states |
|---|---|---|
| Json.CanonicalPrintable | packages/agp-emitter/src/canonicalize.ts:46-94 | no canonical text contains a control character, a raw newline in particular, whatever its strings contain |
| JsonDecode.StringRoundTrip | packages/agp-emitter/src/canonicalize.ts:54 | a string's escaped text reads back as the string, lone surrogates and control characters included, and leaves what follows it untouched |
| JsonDecode.NumberRoundTrip | packages/agp-emitter/src/canonicalize.ts:56-64 | a printed number followed by any delimiter reads back as that number and the untouched rest |
| JsonDecode.RoundTrip | packages/agp-emitter/src/canonicalize.ts:46-94 | canonical text is uniquely decodable: followed by any delimiter it reads back as exactly the value and the untouched rest |
| JsonDecode.DecodeCanonical | packages/agp-verifier/src/readBundle.ts:85-96 | a whole canonical document reads back, with or without white space after it |
| JsonDecode.CanonicalInjective | packages/agp-verifier/src/canonicalize.ts:36-80 | two values have the same canonical text exactly when they are equal |
| CanonicalText.StringTextExactly | packages/agp-emitter/src/canonicalize.ts:54 | a string prints as one text only: between two quotes, unit by unit, the two-character escapes of exactly quote, backslash and five control units, `\u` and four lower-case hexadecimal digits for the other control units and lone surrogates, and everything else, surrogate pairs included, as it is |
| CanonicalText.PlainStringText | packages/agp-emitter/src/canonicalize.ts:54 | so a string without quotes, backslashes, control units and surrogates, a path for one, prints as itself between two quotes |
| CanonicalText.ConstantTexts | packages/agp-emitter/src/canonicalize.ts:47-53 | `null`, `true` and `false` |
| CanonicalText.ArrayText | packages/agp-emitter/src/canonicalize.ts:70-75 | an array prints as the texts of its items with commas between them |
| CanonicalText.ObjectText | packages/agp-emitter/src/canonicalize.ts:77-91 | an object as its members in ascending order of their keys, each key printed like a string |
| CanonicalText.NumberText | packages/agp-emitter/src/canonicalize.ts:56-64 | a number as sign, whole part, fraction and exponent, each where there is one |
| Texts.LessExactly | packages/agp-emitter/src/sort.ts:38-45 | the order of strings is the lexicographic one by UTF-16 code units |
| ObjectGraph.CanonicalJson | packages/agp-emitter/src/canonicalize.ts:41-44 | on any finite object graph, cyclic or shared, the printer terminates; it succeeds exactly when the graph unfolds to a finite tree of representable leaves that reaches no container twice, and then returns that tree's canonical text |
| ObjectGraph.Emit | packages/agp-emitter/src/canonicalize.ts:46-94 | the same for the recursive printer at any moment: what it accepts given what has been seen, what it returns, and exactly which containers it adds to the seen set |
| ObjectGraph.EmitArray | packages/agp-emitter/src/canonicalize.ts:70-75 | the array branch, with the same contract |
| ObjectGraph.EmitObject | packages/agp-emitter/src/canonicalize.ts:77-91 | the object branch, with the same contract: keys ascending, undefined members left out |
| ObjectGraph.UnfoldingUnique | packages/agp-emitter/src/canonicalize.ts:41-44 | a graph has at most one unfolding, so the value printed is determined |
| ObjectGraph.SharedContainerRejected | packages/agp-emitter/src/canonicalize.ts:71-72 | an array that holds one container twice is never emitted, however finite its unfolding |
| ObjectGraph.TwiceRejected | packages/agp-emitter/src/canonicalize.ts:71-72 | such a heap: an array that holds one empty array twice unfolds to a finite tree and has no unfolding the printer accepts |
| PathScan.AbsoluteTestsDiffer | packages/agp-verifier/src/paths.ts:38-51 | for every string: the verifier's test holds exactly when the emitter's does or the string starts with a drive letter and a colon that no separator follows; the URL exemption changes nothing |
| PathScan.AbsoluteExactly | packages/agp-emitter/src/paths.ts:24-35 | what looks absolute: a slash, two backslashes or `file://` in front, or a Latin letter, a colon and either slash |
| PathScan.BareDriveExactly | packages/agp-verifier/src/paths.ts:38-51 | a bare drive is a Latin letter and a colon without either slash behind them |
| PathScan.LeavesExactly | packages/agp-emitter/src/paths.ts:70-99 | the strings a scan looks at are exactly those of the tree, each under its path: an index in brackets for each array, a dot and a key for each object |
| PathScan.EmitterScanFindsFirst | packages/agp-emitter/src/paths.ts:70-118 | the emitter's scan returns the first absolute-looking string anywhere in the tree, with its path, and nothing when there is none; the path-like keys change no decision |
| PathScan.VerifierScanFindsFirst | packages/agp-verifier/src/paths.ts:73-106 | likewise for the verifier's scan and its URL keys |
| PathScan.ScansCompared | packages/agp-verifier/src/paths.ts:73-106 | a tree passes the verifier's scan exactly when it passes the emitter's and none of its strings starts with a bare drive |
| PathScan.BareDriveEmittedThenRefused | packages/agp-emitter/src/paths.ts:24-35 | every string with a bare drive passes the emitter and is refused by the verifier |
| AgpRecords.CompareLaws | packages/agp-emitter/src/sort.ts:37-97 | the comparator is antisymmetric and transitive, and calls equal exactly the records that agree in family, kind, primary key and payload hash |
| RecordOrder.FamilyDecides | packages/agp-emitter/src/sort.ts:38 | records of different families compare as their families do |
| RecordOrder.KindDecides | packages/agp-emitter/src/sort.ts:39 | of one family, records of different kinds compare as their kinds do |
| RecordOrder.PlaceDecides | packages/agp-emitter/src/sort.ts:41-46 | of one family and kind, records compare by the text their payload puts them at, and by payload hash where it is the same; for each of the nine families that text is given by the payload members |
| RecordOrder.PlaceExactly | packages/agp-emitter/src/sort.ts:49-97 | every record has exactly one such text, whatever JSON values its payload holds |
| RecordOrder.ReadsExactly | packages/agp-emitter/src/sort.ts:49-97 | the language's text of a value: strings as they are, `null`, `true`, `false`, numbers as printed, arrays joined with commas with nothing for null items, and the same words for every object |
| RecordOrder.FamiliesAscend | packages/agp-emitter/src/sort.ts:33-35 | in a sorted stream families ascend, and within a family kinds do |
| RecordOrder.BuiltParts | packages/agp-emitter/src/hash.ts:67-107 | a built record carries its schema version and the hash of its payload, and its id falls at the colons into `agp`, family, kind and that hash |
| AgpRecords.NotAfterIsPreorder | packages/agp-verifier/src/sort.ts:35-45 | the comparator is a total preorder on all records |
| AgpRecords.MoreSevereFirst | packages/agp-emitter/src/sort.ts:25-31 | of two diagnostics of one kind the more severe comes first in the stream |
| AgpRecords.SortDeterministic | packages/agp-emitter/src/sort.ts:33-47 | when the plane is a function of the family and the payload hashes of these records do not collide, any two orderings of the same built records sort to the identical, sorted stream |
| AgpRecords.FindFirstSortViolation | packages/agp-verifier/src/sort.ts:97-105 | the scan of neighbours returns -1 exactly when the whole stream is pairwise ordered, and otherwise the first index after which it is not |
| AgpBundle.RecordJsonRoundTrip | packages/agp-emitter/src/hash.ts:90-107 | a record's seven members, read from the parsed object, are the record |
| BundleText.RecordMembers | packages/agp-emitter/src/hash.ts:98-106 | a printed record is an object of exactly the seven named members, each with the record's own value |
| BundleText.SnapshotMembers | packages/agp-emitter/src/records/snapshotBuilder.ts:83-91 | the snapshot is one of exactly four, with the digest it is given |
| BundleText.LineEnds | packages/agp-emitter/src/emitAgpBundle.ts:135-138 | every line of the record file, the last one too, ends with a newline; without records it is empty |
| AgpBundle.SplitNdjsonLines | packages/agp-verifier/src/readBundle.ts:157-169 | the splitter's loop returns the non-empty pieces between newlines |
| AgpBundle.FramingRoundTrip | packages/agp-emitter/src/emitAgpBundle.ts:135-138 | joining lines that are not empty and have no newline, then splitting, gives back the same lines, the empty list included |
| AgpBundle.SpacesAreKept | packages/agp-verifier/src/readBundle.ts:151-169 | a line is dropped only when it is empty; a line of spaces is kept |
| AgpBundle.ReadRecords | packages/agp-verifier/src/readBundle.ts:98-136 | the loop over the lines returns the parsed objects, every raw line with its number, and an issue for every other line |
| AgpBundle.EveryLineAccounted | packages/agp-verifier/src/readBundle.ts:105-136 | records and issues together are as many as the lines, and a line has an issue exactly when it is not the text of an object |
| AgpBundle.ProjectionsEqual | packages/agp-emitter/src/hash.ts:127-139 | two digest projections are equal exactly when the payloads agree on all but `emittedAt` and `records` and have the same factual rows |
| AgpBundle.DigestComplete | packages/agp-verifier/src/hash.ts:90-109 | without a collision, two payloads have equal digests exactly when they agree on everything except `emittedAt` and manifest rows that are not factual |
| BundleText.OtherRowIgnored | packages/agp-emitter/src/hash.ts:137 | a manifest row whose `plane` is not the text `factual`, put in or taken out anywhere, changes no digest |
| BundleText.FactualRowsCount | packages/agp-emitter/src/hash.ts:127-139 | rows whose `plane` is that text all count, with their order: without a collision the digests are equal exactly when the rows are and the payloads agree elsewhere |
| BundleText.RowsMissing | packages/agp-emitter/src/hash.ts:134-137 | missing and null rows are no rows, and there is no digest exactly when the rows are something else than a list |
| AgpBundle.RoundingReaderReads | packages/agp-verifier/src/readBundle.ts:111 | a parser that reads canonical text but for rounding its numbers reads back every value whose numbers it does not change |
| AgpBundle.DecodeReadsCanonicalText | packages/agp-verifier/src/readBundle.ts:111 | the reader of this model is such a parser and changes no number |
| AgpBundle.EmittedLinesRead | packages/agp-verifier/src/readBundle.ts:98-136 | by a parser that reads back these lines, the printed records are read as exactly the objects printed, with no issue |
| AgpBundle.EmittedBundleAccepted | packages/agp-emitter/src/emitAgpBundle.ts:107-146 | what is emitted is accepted by the reader and by the recomputation of hashes, ids, order and digest: an emitted bundle reads back as the same records in the same order with no issue, every recomputed payload hash and id matches, the stream is in sort order, and the snapshot's digest matches |
| BundleText.EmitsExactly | packages/agp-emitter/src/emitAgpBundle.ts:107-146 | nothing is emitted exactly when a string of a record looks absolute or the manifest rows are neither a list nor missing or null |
| BundleText.RecordVerifiesExactly | packages/agp-verifier/src/checks/hashChecks.ts:22-115 | a record passes the recomputation exactly when its hash is that of its payload and its id is made of its family, its kind and that hash |
| BundleText.SnapshotVerifiesExactly | packages/agp-verifier/src/hash.ts:90-109 | a snapshot passes exactly when its digest is that of its payload |
| BundleText.IdCommits | packages/agp-verifier/src/checks/hashChecks.ts:63-113 | alteration shows: without a collision of their payloads' hashes, two records that pass under one id have the same family, kind, hash and payload |
| AgpBundle.SnapshotAccepted | packages/agp-emitter/src/records/snapshotBuilder.ts:83-91 | the printed snapshot reads back with a digest the verifier recomputes |
| BundlePaths.LeavesAreStrings | packages/agp-emitter/src/paths.ts:74-98 | in whatever order object members are walked, the leaves of the walk are exactly the strings of the value |
| BundlePaths.EmitterScanDecides | packages/agp-emitter/src/paths.ts:70-99 | the emitter's scan passes a value exactly when none of its strings looks absolute, whatever the member order |
| BundlePaths.VerifierScanDecides | packages/agp-verifier/src/paths.ts:73-106 | the verifier's exactly when none looks absolute or starts with a bare drive |
| BundlePaths.RefusedExactly | packages/agp-emitter/src/paths.ts:123-136 | the emitter refuses a list of records exactly when its scan of the list finds something |
| BundlePaths.EmittedRecordScanned | packages/agp-emitter/src/emitAgpBundle.ts:110-111 | of an emitted bundle the verifier's scan passes a record exactly when none of its strings starts with a bare drive |
| BundlePaths.RunPathChecks | packages/agp-verifier/src/checks/pathChecks.ts:20-59 | the checks push one issue for the snapshot and one for each record in which the scan finds something, in that order, with the record's line number |
| BundlePaths.EmittedBundleScanned | packages/agp-verifier/src/checks/pathChecks.ts:20-59 | an emitted bundle passes the path checks exactly when no string of a record starts with a bare drive and no string of the snapshot looks absolute or starts with one |
| PolicyPackResolver.Resolver.VisitPack | packages/cli/src/resolvePolicyPackDependencies.ts:23-46 | the recursive visit terminates on every graph and changes `visiting`, `visited` and `resolved` exactly as the specification's visit does |
| PolicyPackProgram.ResolvePolicyPackDependencies | packages/cli/src/resolvePolicyPackDependencies.ts:6-53 | the whole function, in terms of the metadata: no duplicates; exactly the packs the requests lead to through available packs, along what the last entry of each pack that has dependencies lists; a dependency before its dependent unless it leads back; a request before a later one that no request up to it leads to; and for a single request, its dependencies in the order listed |
| PolicyPackResolver.VisitKeeps | packages/cli/src/resolvePolicyPackDependencies.ts:23-46 | every visit keeps the search invariant: `visiting` and `visited` disjoint, no duplicates, order up to cycles, dependencies of visited packs visited or being visited |
| PolicyPackResolver.ResolveKeeps | packages/cli/src/resolvePolicyPackDependencies.ts:48-52 | the invariant holds at the end, `visiting` is empty and every available request is in the output |
| PolicyPackResolver.ResolvedExactly | packages/cli/src/resolvePolicyPackDependencies.ts:18-52 | the output has no duplicates and is exactly what the requests reach through available packs |
| PolicyPackResolver.ResolvedInOrder | packages/cli/src/resolvePolicyPackDependencies.ts:23-52 | in any graph an available dependency comes before its dependent unless it leads back to it |
| PolicyPackResolver.RequestsInOrder | packages/cli/src/resolvePolicyPackDependencies.ts:48-52 | a request comes before a later one that neither it nor any earlier request reaches |
| PolicyPackResolver.DependenciesInOrder | packages/cli/src/resolvePolicyPackDependencies.ts:37-43 | below one request, of two dependencies the one listed first comes first unless it or one before it reaches the other |
| PolicyPackResolver.TopologicalIffCycleFree | packages/cli/src/resolvePolicyPackDependencies.ts:3-52 | the output is a topological order exactly when the requests reach no cycle through two different packs |
| PolicyPackResolver.IdempotentIffCycleFree | packages/cli/src/resolvePolicyPackDependencies.ts:3-52 | resolving the output again returns it unchanged under exactly the same condition |
| PolicyPackResolver.MutualDependencyNotIdempotent | packages/cli/src/resolvePolicyPackDependencies.ts:30-32 | two packs that depend on each other come out in the other order the second time |
| Regex.RegexRoundTrip | packages/adapter-pnpm/src/globs.ts:220-234 | the escaping is right: the expression text reads back as the tokens it was built from |
| Globs.SegmentToRegex | packages/adapter-pnpm/src/globs.ts:220-234 | the loop builds the segment's expression, which accepts a name exactly when the segment matches it |
| Globs.BuildGlobMatcher | packages/adapter-pnpm/src/globs.ts:238-272 | the loop returns nothing exactly for patterns with `..`, and otherwise an expression that accepts exactly what the pattern means |
| Globs.WalkSegments | packages/adapter-pnpm/src/globs.ts:144-212 | the recursive walk adds to the result set exactly the paths of existing directories whose components match the remaining segments and are not ignored |
| Globs.WalkChildren | packages/adapter-pnpm/src/globs.ts:159-199 | the wildcard branches, over the child directories that match |
| Globs.JoinRelExtends | packages/adapter-pnpm/src/globs.ts:214-218 | the accumulated text is always the path of the components walked so far |
| WorkspaceGlobs.ExpandOne | packages/adapter-pnpm/src/globs.ts:117-142 | soundness and completeness of one glob: exactly the existing directories with a component for each segment, each matching and none ignored; one warning for `..`, otherwise one for `**`, otherwise none |
| GlobMeaning.ExpansionExactly | packages/adapter-pnpm/src/globs.ts:117-212 | a glob of parts between slashes expands to exactly the paths of directories with as many components, none of them ignored, each falling into pieces that are the units of its part, or anything without a slash for a star; with `..` or `**` in it, to none |
| GlobMeaning.SegmentExactly | packages/adapter-pnpm/src/globs.ts:220-234 | a name matches a segment exactly when it falls into such pieces |
| GlobMeaning.SegmentTextExactly | packages/adapter-pnpm/src/globs.ts:220-234 | the text of the expression for a segment: a star becomes `[^/]*`, exactly the fourteen listed units but the star get a backslash, and nothing else changes |
| GlobMeaning.MatchesExactly | packages/adapter-pnpm/src/globs.ts:245-272 | an anchored expression accepts a text exactly when it falls into pieces that its tokens take one by one |
| GlobMeaning.WarningsExactly | packages/adapter-pnpm/src/globs.ts:122-133 | which warning a pattern gives, as an inclusion and as an exclusion |
| GlobMeaning.ExclusionExactly | packages/adapter-pnpm/src/globs.ts:238-272 | an exclusion, read from the left as two stars with or without a slash behind them, stars and other units, the longest first, covers a path exactly when the path falls into pieces these stand for: any text in one line, any without a slash, the unit itself; with `..` in it, none |
| GlobMeaning.CutExists | packages/adapter-pnpm/src/globs.ts:249-269 | every pattern can be read so |
| GlobMeaning.ExclusionTextExactly | packages/adapter-pnpm/src/globs.ts:248-271 | the text of the expression built for it |
| WorkspaceGlobs.ExpandWorkspaceGlobs | packages/adapter-pnpm/src/globs.ts:61-113 | both result lists are strictly ascending; matched are exactly the paths some inclusion expands to and no exclusion covers, excluded those some exclusion covers; the warnings are those of the inclusions and then of the exclusions, each in sorted order and one for each occurrence |
| WorkspaceGlobs.GlobOrderIrrelevant | packages/adapter-pnpm/src/globs.ts:61-113 | the two lists partition the expansion and depend only on the set of globs, not on their order or repetition |
| WorkspaceGlobs.MatchersAgree | packages/adapter-pnpm/src/globs.ts:220-272 | the whole-path matcher accepts a path exactly when it has as many components as the pattern has segments and each component matches its segment |
| WorkspaceGlobs.SelfExclusion | packages/adapter-pnpm/src/globs.ts:92-106 | a glob together with its own exclusion matches exactly its whole expansion when its pattern has an empty segment, and nothing otherwise |
| WorkspaceGlobs.TrailingSlashSurvives | packages/adapter-pnpm/src/globs.ts:92-106 | for all plain names: the directory found below a parent by a glob with a slash at its end is still matched when that glob is excluded too |
| WorkspaceGlobs.AppsWebSurvives | packages/adapter-pnpm/src/globs.ts:92-106 | the same for `apps/web` under `apps/*/` and `!apps/*/` |
| WorkspaceGlobs.RecursiveExclusion | packages/adapter-pnpm/src/globs.ts:245-258 | a recursive exclusion of a name covers exactly the paths that contain the name followed by a slash, with no line terminator before or after |
| WorkspaceGlobs.RecursiveExclusionSkipsTheDirectory | packages/adapter-pnpm/src/globs.ts:256-258 | it does not cover the directory of that name at the top |
| WorkspaceGlobs.NestedExclusionExactly | packages/adapter-pnpm/src/globs.ts:245-258 | a nested directory of that name is covered exactly when its parent's path, with a slash after it, contains the name followed by a slash |
| WorkspaceGlobs.NestedExamples | packages/adapter-pnpm/src/globs.ts:256-258 | excluding `x` everywhere covers `x/x` and `ax/x` but not `a/x` |
| PnpmWorkspace.StripComment | packages/adapter-pnpm/src/pnpm-workspace.ts:181-200 | the scanning loop cuts the line at the first `#` outside quotes that starts the line or follows white space |
| PnpmWorkspace.CountLeadingSpaces | packages/adapter-pnpm/src/pnpm-workspace.ts:202-206 | the loop counts the leading spaces |
| PnpmWorkspace.ReadKey | packages/adapter-pnpm/src/pnpm-workspace.ts:114-138 | the key branch has the specified effect |
| PnpmWorkspace.ReadInList | packages/adapter-pnpm/src/pnpm-workspace.ts:140-169 | a line inside the package list has the specified effect, or leaves the list and asks to be read again |
| PnpmWorkspace.ReadLines | packages/adapter-pnpm/src/pnpm-workspace.ts:96-170 | the loop with its step back ends in what the lines' effects add up to |
| PnpmWorkspace.ReadLine | packages/adapter-pnpm/src/pnpm-workspace.ts:96-170 | one turn of the loop, the step back included: a line is processed again only after the package list has been left |
| PnpmWorkspace.ParsePnpmWorkspaceYaml | packages/adapter-pnpm/src/pnpm-workspace.ts:81-177 | the parse loop terminates and returns what the lines' effects add up to, or the error for NUL bytes |
| PnpmWorkspace.BlankLinesIrrelevant | packages/adapter-pnpm/src/pnpm-workspace.ts:101-102 | a blank or comment-only line, wherever it is put, changes neither the packages nor the catalog flag |
| PnpmWorkspace.FlagsExact | packages/adapter-pnpm/src/pnpm-workspace.ts:41-60 | `packages` is null exactly when no line is a top-level `packages` key; the catalog flag is set exactly when some line is a top-level `catalog` or `catalogs` key |
| PnpmWorkspace.PackagesExactly | packages/adapter-pnpm/src/pnpm-workspace.ts:140-169 | the packages are exactly the non-empty items, in order, of the lists that top-level `packages` keys open, each list up to the first key, outdented item or other line at the margin |
| WorkspaceSpellings.PrintParses | packages/adapter-pnpm/src/pnpm-workspace.ts:81-217 | any list of keys with block lists below them, each item plain, single-quoted, double-quoted or with quotes inside it, with any indentation not further out than the first, any gap after the dash, with or without a comment, and either kind of line end, parses back to exactly the globs below the `packages` keys and to whether there is a `catalog` or `catalogs` key, with no warning |
| WorkspaceSpellings.InlineValueWarned | packages/adapter-pnpm/src/pnpm-workspace.ts:118-128 | a value on the line of a `packages` key gives an empty list and a warning, unless it is a bar or an angle bracket |
| WorkspaceSpellings.TabWarned | packages/adapter-pnpm/src/pnpm-workspace.ts:104-109 | a line indented with a tab is skipped with a warning |
| WorkspaceSpellings.TerminatorNoKey | packages/adapter-pnpm/src/pnpm-workspace.ts:113-116 | a key with a lone carriage return or a Unicode line separator behind it is no key, `packages` included |
| GraphSurface.SurfaceTextInjective | packages/cli/src/canonical-topology.ts:168-196 | two graphs have the same hashed text exactly when they have the same node and edge lists |
| TopologyText.SurfaceTextExactly | packages/cli/src/canonical-topology.ts:168-196 | the hashed text itself: nodes and edges as two JSON arrays of objects with their members in this order, on two lines |
| CanonicalTopology.BuildNodes | packages/cli/src/canonical-topology.ts:115-122 | the node list is the ascending list of the distinct non-empty ids |
| CanonicalTopology.BuildEdges | packages/cli/src/canonical-topology.ts:124-139 | the loop keeps, of the usable edges with one id, the first |
| CanonicalTopology.BuildCanonicalTopology | packages/cli/src/canonical-topology.ts:111-150 | the builder's loop computes the specified normal form |
| TopologyText.TopologyExactly | packages/cli/src/canonical-topology.ts:111-166 | what the form holds, in terms of the input: version, hash, exactly the non-empty ids, and of the listed edges with two named ends exactly the first with each id, with its type or the default one, the id being `e_` and eight digits of the digest of both ends and the type; all ascending |
| CanonicalTopology.CanonicalContents | packages/cli/src/canonical-topology.ts:124-139 | the edge list is strictly ascending by id, holds only edges of the input, and has the id of every usable input edge |
| CanonicalTopology.NodesContents | packages/cli/src/canonical-topology.ts:115-122 | the node list is strictly ascending by id and holds exactly the non-empty ids supplied |
| CanonicalTopology.NodesDependOnIds | packages/cli/src/canonical-topology.ts:104-110 | two inputs give the same node list exactly when they have the same non-empty ids |
| CanonicalTopology.EdgeOrderIrrelevantIffInjective | packages/cli/src/canonical-topology.ts:152-166 | the edge list depends only on the set of edges supplied exactly when no two different edges among them share a truncated id |
| CanonicalTopology.ConstantHashOrder | packages/cli/src/canonical-topology.ts:152-166 | an input where it does not: with a constant hash the order of two edges from one node decides which of them stays |
| CanonicalTopology.RebuildInForm | packages/cli/src/canonical-topology.ts:124-139 | rebuilding from any list of the edges of a canonical list gives that list back, even when ids collide |
| CanonicalTopology.RebuildIdentity | packages/cli/src/canonical-topology.ts:111-150 | rebuilding from the builder's own output is the identity, hash included |
| AdjacencyMap.BuildCanonicalTopologyFromAdjacencyMap | packages/cli/src/canonical-topology.ts:82-102 | in whatever order the map's entries are visited, the result is the canonical topology of its nodes and of a list of exactly its edges |
| TopologyText.AdjacencyExactly | packages/cli/src/canonical-topology.ts:82-102 | the nodes are exactly the named keys and the names listed under them, every edge is of a listed pair with the default type, and every listed pair has its edge id there |
| AdjacencyMap.ProjectAdjacency | packages/adapter-pnpm/src/index.ts:542-550 | every node and no other text is a key, each key has exactly its targets, once each and in ascending order |
| AdjacencyMap.ProjectionRoundTrip | packages/adapter-pnpm/src/index.ts:542-550 | projecting a well-formed graph and rebuilding its canonical topology gives back the same nodes, edges and hash, even if truncated edge ids collide |
| PackageGraph.KeysSeparate | packages/adapter-yarn-pnp/src/package-graph.ts:246-248 | the joined keys of either builder tell any two declarations that differ in what the key lists apart, whatever bars the names contain |
| PackageGraph.CollectBlock | packages/adapter-yarn-pnp/src/package-graph.ts:204-255 | one dependency block, read ascending by name with local paths resolved, adds exactly those of its entries that share no kind, target and protocol with an earlier one |
| PackageGraph.CollectDeps | packages/adapter-yarn-pnp/src/package-graph.ts:199-257 | what the four blocks declare is appended to what the name already has |
| PackageGraph.AddEdges | packages/adapter-pnpm/src/package-graph.ts:216-227 | of candidates with one edge id the first becomes the edge and gives its metadata |
| PackageGraph.FinishGraph | packages/adapter-pnpm/src/package-graph.ts:189-250 | filtering, sorting and edge construction compute the specified graph |
| PackageGraph.ScanManifests | packages/adapter-pnpm/src/package-graph.ts:117-187 | the scan loop computes the paths and the declarations of the named manifests |
| PackageGraph.BuildPnpmPackageGraph | packages/adapter-pnpm/src/package-graph.ts:93-250 | the one-pass builder computes the graph of the scanned manifests |
| PackageGraph.LoadManifests | packages/adapter-yarn-pnp/src/package-graph.ts:123-173 | the first pass collects the named manifests and the same package paths as a single pass |
| PackageGraph.IndexPaths | packages/adapter-yarn-pnp/src/package-graph.ts:175-180 | the loop builds the index whose contents the next row gives |
| LocalTargets.PathIndexExactly | packages/adapter-yarn-pnp/src/package-graph.ts:175-180 | a directory is in the index exactly when the path of some package normalises to it, under the last such name in the order of the names |
| LocalTargets.NamesAsMet | packages/adapter-yarn-pnp/src/package-graph.ts:165-180 | the order of the names has every package of the scanned directories exactly once |
| LocalTargets.EarlierMetFirst | packages/adapter-yarn-pnp/src/package-graph.ts:165-180 | and of two packages the one that is first met in an earlier directory comes first |
| LocalTargets.LocalTargetExactly | packages/adapter-yarn-pnp/src/package-graph.ts:213-248 | a `portal:` or `link:` specifier stands for the last package, in the order of the names, whose path is the directory it leads to, and for the dependency's own name when there is none |
| LocalTargets.LocalDependency | packages/adapter-yarn-pnp/src/package-graph.ts:213-255 | every entry with such a specifier is declared as a dependency on that package |
| PackageGraph.DeclareAll | packages/adapter-yarn-pnp/src/package-graph.ts:182-257 | the second pass collects what the named manifests declare |
| PackageGraph.TwoPassesAreOne | packages/adapter-yarn-pnp/src/package-graph.ts:123-257 | the two passes together collect the same declarations as one pass |
| PackageGraph.BuildYarnPnpPackageGraph | packages/adapter-yarn-pnp/src/package-graph.ts:98-313 | the two-pass builder computes the graph of the scanned manifests, `portal:` and `link:` targets resolved to the packages they lead to |
| PackageGraphFacts.PackageDepsExactly | packages/adapter-yarn-pnp/src/package-graph.ts:199-257 | a package declares exactly what the entries of its four blocks stand for, each with its block's kind, its specifier's protocol and its resolved target |
| PackageGraphFacts.ScanContents | packages/adapter-pnpm/src/package-graph.ts:117-187 | after the scan the names are exactly those of the parsed, named manifests, each with exactly what its manifests declare |
| ManifestEntries.DeclarationsExactly | packages/adapter-pnpm/src/package-graph.ts:117-187 | after the scan a package declares exactly what the entries in the parsed manifests of its name say, the kind that of the block and the protocol that of the specifier's prefix |
| ManifestEntries.ProtocolExactly | packages/adapter-pnpm/src/package-graph.ts:268-273 | the protocol of a specifier from its prefix: `workspace:` for both builders, `catalog:` for pnpm, `portal:` and `link:` for yarn, and `semver` for everything else and for what is no string |
| ManifestEntries.TargetIsName | packages/adapter-yarn-pnp/src/package-graph.ts:213-244 | a declaration's target is the entry's own name, but for yarn's `portal:` and `link:` |
| ManifestEntries.PathsExactly | packages/adapter-pnpm/src/package-graph.ts:117-151 | the graph has a path for exactly the packages some directory holds: the last such directory in ascending order, with a dot for the root |
| ManifestEntries.LocalDirectoryExactly | packages/adapter-yarn-pnp/src/package-graph.ts:330-370 | a local specifier leads to its path, without white space and `./`, joined to the manifest's directory, without `./` and slashes at the end, and a dot for the root |
| PackageGraphFacts.LastDirectoryWins | packages/adapter-pnpm/src/package-graph.ts:149-151 | of several directories with one package name the last one scanned gives its path |
| PackageGraphFacts.EdgesAreDeclarations | packages/adapter-pnpm/src/package-graph.ts:189-228 | every edge joins two packages of the workspace, the first of which declares the second, and every such declaration has its edge id in the graph |
| PackageGraphFacts.EdgesCompleteIffSeparate | packages/adapter-pnpm/src/package-graph.ts:209-228 | the edges are exactly the internal dependencies if and only if no two of those share a truncated id |
| PackageGraphFacts.ConstantHashLoses | packages/adapter-pnpm/src/package-graph.ts:209-228 | an input where they are not: two packages that depend on each other, with a constant hash |
| PackageGraphFacts.LeastKindWins | packages/adapter-pnpm/src/package-graph.ts:196-226 | an edge's metadata is that of the alphabetically least kind that declares it, and of several declarations of that kind that of the first scanned |
| ManifestEntries.MetadataExactly | packages/adapter-pnpm/src/package-graph.ts:149-226 | in terms of the manifests: an edge's kind is the alphabetically least under which one declares its target, and kind and protocol are those of the first directory in ascending order that declares it so |
| PackageGraphKinds.FirstBlockWinsExactly | packages/adapter-pnpm/src/package-graph.ts:153-165 | an edge has the kind of the first block that declares its target exactly when `dependencies` or `devDependencies` declares it, or peer and optional dependencies do not both |
| PackageGraphKinds.OptionalBeatsPeer | packages/adapter-pnpm/src/package-graph.ts:153-156 | for all names: a dependency declared as a peer and as an optional one gets an edge of the optional kind |
| PackageGraphFacts.GraphWellFormed | packages/adapter-pnpm/src/package-graph.ts:206-236 | the built node and edge lists are in canonical form and every edge is between listed nodes |
| PackageGraphFacts.PackageGraphRoundTrip | packages/adapter-pnpm/src/package-graph.ts:189-236 | projecting a built graph to its adjacency map and rebuilding the canonical topology gives back its nodes, edges and hash |
| PackageGraphAgreement.BuildersAgree | packages/adapter-yarn-pnp/src/package-graph.ts:182-313 | on manifests without `portal:` and `link:` specifiers both builders give the same nodes, edges, hash, directories and kind of every edge |
| Drift.IndexContents | packages/cli/src/drift.ts:179-183 | the index has exactly the ids of the list, each under an entry of the list with that id |
| Drift.Difference | packages/cli/src/drift.ts:193-216 | the loop pushes exactly the entries of one side whose id the other side lacks, in the order in which their ids first occur |
| Drift.SortedDifference | packages/cli/src/drift.ts:193-216 | and sorts them by id |
| Drift.DiffTopology | packages/cli/src/drift.ts:175-221 | added and removed nodes and edges are those differences; the changed lists are empty |
| Drift.IndexViolations | packages/cli/src/drift.ts:229-238 | of the violations that have a key the index holds the last under each, the content-derived key included, and each key keeps the place of its first |
| Drift.SortViolations | packages/cli/src/drift.ts:267-269 | the sort gives an arrangement of the entries pushed, and their stable sort whenever the comparison is consistent on them |
| Drift.CompareCurrent | packages/cli/src/drift.ts:245-262 | the loop pushes the new violations, those on both sides, and exactly the severity changes among the latter, each in the order of the current keys |
| Drift.DiffViolations | packages/cli/src/drift.ts:225-278 | new, resolved, persisted and severity-changed violations, with or without ids |
| Drift.ComputeArchitectureDrift | packages/cli/src/drift.ts:130-171 | the whole result, the drift verdict included |
| DriftFacts.OnlyContents | packages/cli/src/drift.ts:185-218 | a difference has exactly the ids of one list that the other lacks, one entry an id, each from the list itself, strictly ascending |
| DriftFacts.TopologyConserved | packages/cli/src/drift.ts:175-221 | baseline ids minus removed plus added are the current ids; what was removed was there, what was added was not |
| DriftFacts.TopologyEntriesGenuine | packages/cli/src/drift.ts:193-210 | every entry reported as added is one of the current lists, as removed one of the baseline's |
| DriftFacts.ViolationsPartition | packages/cli/src/drift.ts:225-278 | new and persisted split the distinct current keys, resolved and persisted the baseline's, in number too, and severity changes are among the persisted |
| DriftFacts.ViolationsGenuine | packages/cli/src/drift.ts:246-263 | every new and persisted entry is a current violation, every resolved one the baseline's, under its own key |
| ViolationOrder.ConsistentExactly | packages/cli/src/drift.ts:324-326 | the comparison is total and transitive on a list exactly when every entry has an id, or no two ids in it differ |
| ViolationOrder.OneIdKeepsOrder | packages/cli/src/drift.ts:265-269 | a list without two different ids keeps the order its entries were pushed in |
| ViolationOrder.ListsAscend | packages/cli/src/drift.ts:265-269 | with ids throughout, each list is the ascending selection of its keys |
| ViolationOrder.ViolationsDetermined | packages/cli/src/drift.ts:265-277 | the result is the same whatever a sort may do exactly when the comparison is consistent on each of the three lists sorted by it |
| ViolationOrder.MixedUndetermined | packages/cli/src/drift.ts:265-269 | against an empty baseline the violations with the ids `b`, none and `a` have no determined result |
| ViolationKeys.FallbackKeysSeparate | packages/cli/src/drift.ts:290-301 | without bars in rule and ends, violations without an id have one key exactly when they say the same |
| ViolationKeys.KeyExactly | packages/cli/src/drift.ts:290-301 | the text a violation is compared under: its id if it has one, and otherwise `fallback:` and rule, ends and severity with bars between, as long as it has a rule or an end |
| ViolationKeys.ComparedExactly | packages/cli/src/drift.ts:229-238 | exactly those texts are compared |
| ViolationKeys.ChangesHaveIds | packages/cli/src/drift.ts:249-260 | then every severity change is of a violation that carries, on both sides, the id it is reported under |
| ViolationKeys.BarsCollide | packages/cli/src/drift.ts:290-301 | an input with a bar where two different violations are reported as one whose severity changed |
| DriftFacts.ChangesExactly | packages/cli/src/drift.ts:249-260 | the severity changes are exactly those from the last baseline violation to the last current one with the same key, when both state a severity and the two differ, with the current rule |
| DriftFacts.ViolationsTurnAround | packages/cli/src/drift.ts:225-278 | swapping the arguments swaps new and resolved and turns every severity change around |
| DriftFacts.DriftTurnsAround | packages/cli/src/drift.ts:123-171 | swapping the arguments swaps added and removed, new and resolved, negates every delta and keeps both flags |
| DriftFacts.BuiltIsCanonical | packages/cli/src/canonical-topology.ts:111-150 | what the topology builder returns is canonical in the sense the next two lemmas ask for |
| DriftFacts.HashFlagExact | packages/cli/src/drift.ts:305-315 | for canonical topologies without collisions the hash flag is set exactly when some node or edge was added or removed |
| DriftFacts.NoDriftExactly | packages/cli/src/drift.ts:157-170 | for those there is no drift exactly when nodes and edges are equal, the violations agree by key and none changed severity |
| DriftFacts.DriftExactly | packages/cli/src/drift.ts:157-170 | for any two runs there is drift exactly when their node ids, edge ids, violation keys or hashes differ or some severity changed |
| DriftFacts.SignalsExactly | packages/cli/src/drift.ts:305-320 | each delta is there exactly when both numbers of its own signal are, and then leads from the baseline's to the current one |
| Regression.RoundingLaws | action/src/regressionDetector.ts:540-542 | rounding is monotone and symmetric about zero, moves a number by half a unit at most and gives whole units of 0.0001 |
| Regression.RoundedBelow | action/src/regressionDetector.ts:540-542 | a rounded drop exceeds a threshold of k units exactly when the drop itself is k and a half units at least |
| Regression.TrendExact | action/src/regressionDetector.ts:503-507 | the trend of a rounded difference is down exactly from a drop of 0.00105, up exactly from a rise of it |
| Regression.DeltaList.CompareNumeric | action/src/regressionDetector.ts:523-533 | a field the baseline lacks pushes nothing; any other pushes one delta with both values and its direction |
| Regression.CompareWithBaseline | action/src/regressionDetector.ts:159-290 | the pushes in their order, the severity and the trends |
| Regression.DegradedExactly | action/src/regressionDetector.ts:182-236 | a field is listed as degraded exactly when its measure fell by more than 0.001, its tier or label is a lower one, or crossings rose; there is a severity exactly when some field is |
| RegressionReport.DeltasExactly | action/src/regressionDetector.ts:182-236 | the report has a delta exactly for each field the baseline has, with both values and the direction: degraded or improved by more than 0.001, by a lower or higher level, by more or fewer crossings |
| RegressionReport.FieldsInOrder | action/src/regressionDetector.ts:182-236 | they come in one fixed order |
| RegressionReport.NumbersExactly | action/src/regressionDetector.ts:467-482 | each numeric delta is the difference of its own measure to the nearest 0.0001, a tie going away from zero, and none where the baseline has no number |
| RegressionReport.TrendsExactly | action/src/regressionDetector.ts:484-507 | each trend is that of its own measure, down from a drop of 0.00105 and up from a rise of it; crossings trend as their number does |
| Regression.TrendsAreListed | action/src/regressionDetector.ts:484-501 | a trend that is down belongs to a field listed as degraded and one that is up to a field listed as improved; crossings trend up exactly when listed as degraded |
| Regression.SeverityExactly | action/src/regressionDetector.ts:298-339 | the severity in terms of the unrounded measures |
| Regression.WorseIsMilderExactly | action/src/regressionDetector.ts:298-339 | metrics no better in any respect never give a milder severity, except exactly when the confidence label falls from one step below a MODERATE baseline to two and nothing else reaches moderate |
| Regression.LowerLabelMilder | action/src/regressionDetector.ts:331-338 | a concrete input where it does |
| Regression.LowerIsNoMilder | action/src/regressionDetector.ts:298-339 | lowering coverage or connectivity alone never gives a milder severity |
| RegressionConfidence.ClassifyRegressionConfidenceSource | action/src/regressionDetector.ts:346-388 | parity exactly when none of the four causes applies, several factors exactly when more than one does, and otherwise a cause that applies |
| RegressionConfidence.DetectRegressions | action/src/regressionDetector.ts:159-290 | nothing without a baseline; otherwise deltas, severity and trends, with confidence and source exactly when something regressed, their trends, and the lineage one deeper |
| RegressionReport.LowExactly | action/src/regressionDetector.ts:402-445 | confidence is low exactly when the run fell back, or had fallen back and is not structured, or the label fell by two steps at least, or more than 0.60 is unclassified |
| RegressionReport.HighOtherwise | action/src/regressionDetector.ts:402-445 | it is high exactly when it is not low, the label did not move by one step, both or neither run is structured and at most 0.40 is unclassified |
| RegressionReport.CountExactly | action/src/regressionDetector.ts:346-388 | no cause is counted exactly when none of the four applies, and one exactly when a single one does, each given by modes, labels, ratio and warnings |
| RegressionReport.ConfidenceTrendExactly | action/src/regressionDetector.ts:453-465 | the trend is up from low to medium or high and from medium to high, and down the other way |
| RegressionConfidence.HighWithoutStructure | action/src/regressionDetector.ts:402-445 | a regression between two runs neither of which is structured is given high confidence |
| RegressionConfidence.HighAfterRise | action/src/regressionDetector.ts:392-445 | so is one between structured runs whose label rose by two steps or more |
| RegressionConfidence.ParityOfMedium | action/src/regressionDetector.ts:346-445 | a regression of medium confidence for which structured parity is the reported cause |

## Left out

- AgpBundle.EmittedBundleAccepted: covers the emitter from its sort onwards, for any built records and any snapshot payload, and of the verifier the reader and the checks of hashes, ids, order and digest; the record mappers, schema validation, timestamps and the verifier's manifest checks are not modelled, among them the refusal of repeated ids (`packages/agp-verifier/src/checks/manifestChecks.ts`), which equal diagnostics run into. What its path checks say is `BundlePaths.EmittedBundleScanned`.
- BundleText.RecordVerifiesExactly: leaves out that a hash has to be `b3:` and 64 digits; records too malformed to hash are left to schema validation.
- BundleText.SnapshotVerifiesExactly: leaves out that a digest has to be `sha256:` and 64 digits.
- BundlePaths.RunPathChecks: keeps of an issue what was found and where; its text and the record's id, family and kind are left out.
- PackageGraph.BuildPnpmPackageGraph: leaves out source files, diagnostics, counts and catalogue references.
- PackageGraph.LoadManifests: leaves out source files, diagnostics and counts.
- PackageGraph.DeclareAll: leaves out the list of local references that lead to no package.
- PackageGraph.BuildYarnPnpPackageGraph: leaves out the same; joining two paths and normalising the result, which is Node's, is a parameter.
- Drift.SortViolations: leaves open which arrangement comes out of a list on which the comparison is not consistent, as the language does.
- RegressionConfidence.DetectRegressions: leaves out the summary text and the baseline's hash, time and file.
- Numbers are the pieces of the text `String(n)` prints; which text a given double prints as, and the reading of numerals that no double prints as, are not modelled.
- JSON printing of sparse arrays, `toJSON`, and objects with a `__proto__` member; `Record` objects are maps without inherited or integer-like keys.
- BLAKE3, SHA-256, UTF-8 encoding, hexadecimal text and lower-casing are not modelled: each is a function from text to text.
- The severity ranks of diagnostics are a lookup without inherited property names.
- The file system has no symbolic links, no case folding and no races; patterns with `..` are refused by the code before any path is resolved.
- A package manifest that parses to something other than an object.
- Of the drift result: the summary counters, which are the lengths of the lists, and its JSON and text rendering.
- Of the regression metrics: they are exact reals, so no rounding error of double arithmetic appears, and labels outside the declared ones do not occur.
- Yarn's own copy of the glob code and the monorepo adapter, which repeat the pnpm code.
- Error messages and their hints; only the error cases are kept.
- Record mappers, verifier checks other than those above, command line, lockfile commands, remote registry, rendering and network clients.
