# gerard, modelled in Dafny

gerard lists a directory recursively. Its entry point is
`gerard(path, options, callback)`. `path` is one directory or glob pattern,
or an array of them. The options are:

- `ignore`: glob strings, regular expressions or predicates;
- `stats`: return records `{name, dir, path, stats}` instead of bare paths;
- `stopOnErrors`: on by default;
- `recursive`: on by default.

Every input is read in the same way:

- A directory goes to `readDir`. It lists the directory, drops the children
  an ignore rule or the name filter rejects, stats the rest, descends into
  subdirectories and fans the results back in through a counter.
- A pattern goes to `readPattern`. It resolves the pattern segment by
  segment over a frontier of directory paths:
  - literal leading segments are pushed onto the frontier;
  - wildcard segments are resolved by listing the frontier with
    `readAndFilterPaths`;
  - a `**` segment hands the frontier to `readAndFilterFiles`, which reads
    it with readDir under the caller's recursive flag and keeps the paths
    that match the whole pattern.

  Each of these steps works on a `clone` of the options.

In the model gerard calls back at most once. It never calls back when it
gets no inputs, or when a pattern input never completes (see below). The
source may also call back again after a failure under stopOnErrors, which
the model leaves out (see "## Left out"). When it does call back, it passes the concatenated results with duplicates
removed (`uniq`) and sorted by path (`sort`). Under stopOnErrors it passes
the first failure instead.

The model takes the same shape:

- The filesystem is a finite tree (`Host.Node`). `fs.readdir` gives a
  listing or an error. `fs.stat` gives a file, a directory with its own
  listing, or an error.
- `path.join`, `path.normalize` with its split on the separator, and
  Minimatch are parameters of the model (`Host.Env`).
- `clone` is `Entries.Clone`. It copies every option as it is, except that
  a RegExp ignore rule becomes a plain object that no ignore check
  recognises (`Host.Matcher.PlainObject`).
- Each callback-taking operation is a function returning an `Outcome`: `Ok`,
  `Err`, or `NoCompletion` when the completion counter never reaches zero.
  Beside it is a method that computes the same outcome with the source's
  loop.
- `sort` is an insertion sort on an array. `uniq`'s stats branch is a loop
  over a dictionary.
- Separate reference definitions state what the operations promise:
  - `TreeEntries`, `FrontierEntries` and `Gathered` give the entries that
    should be found;
  - `TreeFailure`, `FrontierFailure` and `FirstInputError` give the first
    failure;
  - `Dedup` gives uniqueness, and `Sort` with `Sorted` gives the order.

  Lemmas connect the operations to these definitions.

Some behaviour follows from the code as written, and the model keeps it:

- A pattern never calls back whenever its last segment, other than `**`,
  meets an empty frontier. The last-segment branch hands `readAndFilterPaths`
  that frontier, so its counter starts at zero and nothing calls back
  (`PatternFacts.LastSegmentEmptyFrontier`). This happens to a pattern made
  of a single segment, such as `*.js`
  (`PatternFacts.SingleSegmentNeverCompletes`). It also happens when the
  listing just before the last segment finds nothing: `r*/*.js` never calls
  back when the working directory holds no directory that `r*` matches, and
  neither does `src/*/*.js` when `src` has no subdirectory
  (`PatternFacts.EmptyListingBeforeLastNeverCompletes`). So a pattern that
  matches nothing does not always yield an empty list.
- A pattern made of `**` alone calls back with an empty list.
- A pattern whose first segment is empty (an absolute path) stops there and
  returns the empty results.
- An unreadable directory gives an empty list when stopOnErrors is off.
- A pattern input never applies a RegExp ignore rule. `clone` rebuilds a
  RegExp, which is an object but not a Minimatch, from its own properties,
  and the plain object it makes matches nothing in `isIgnored`. A directory
  input, read without a clone, does apply it
  (`PatternFacts.PatternLosesRegExpIgnore`).
- After a listing two or more segments before the last finds nothing, the
  empty frontier looks like the initial one. If the next segment is not the
  last, a wildcard there starts again from the working directory and a
  literal is pushed as if it led the pattern (if it is the last, the pattern
  never calls back, as above). So `r*/sub/*.js` returns `sub/a.js` when the working directory
  holds `sub` and no directory that `r*` matches
  (`PatternFacts.EmptyListingRestartsFrontier`).

## Model

| member | source | states |
|---|---|---|
| DirectoryReader.ReadDirSpec | index.js:244-261 | defines readDir's outcome: a listing error fails under stopOnErrors and gives [] otherwise; a listing goes through the fan-in over its children |
| DirectoryReader.CollectFrom | index.js:254-264 | defines the fan-in over the children: the first stop ends it, and once every child is accounted for the results are sorted |
| DirectoryReader.VisitChild | index.js:256-302 | defines one child's step: skipped when ignored or filtered out, then stat'ed; a stat error stops under stopOnErrors; a directory is descended into when recursive; otherwise the entry is pushed unless it is a file under dirOnly |
| DirectoryReader.ReadDir | index.js:220-306 | the listing loop calls back exactly with the outcome of the readDir definition over the directory tree |
| DirectoryReaderFacts.ReadDirWellShaped | index.js:227-302 | readDir always calls back, sorted by path; it fails only under stopOnErrors; every entry passes the ignore rules and is a record in stats mode, a bare path otherwise; a record's path is join(dir, name) and its name passes the filter; in recursive mode it is a file, under dirOnly a directory, and when not recursive a child of the listed directory |
| DirectoryReaderFacts.CollectWellShaped | index.js:254-302 | the fan-in over the children keeps every gathered entry admitted and of the requested shape |
| DirectoryReaderFacts.SortKeepsEmitted | index.js:231 | sorting the results keeps every entry and orders them |
| DirectoryReaderFacts.ReadDirContents | index.js:245-302 | without stopOnErrors, readDir succeeds with exactly the entries of the reference walk, which skips failed listings and stats, each entry once |
| DirectoryReaderFacts.ReadDirCollects | index.js:254-286 | the fan-in's results hold the same entries as the reference walk |
| DirectoryReaderFacts.CollectCollects | index.js:254-286 | over any suffix of the children, the results are the gathered ones plus the reference entries of the rest |
| DirectoryReaderFacts.VisitCollects | index.js:266-302 | one child adds exactly its reference entries and never stops without stopOnErrors |
| DirectoryReaderFacts.ReadDirStops | index.js:245-248 | under stopOnErrors readDir fails with the first failure in walk order (a listing error, a stat error, or one inside a subdirectory); with none, it returns what it returns without stopOnErrors |
| DirectoryReaderFacts.CollectStops | index.js:266-279 | the same for the children still to visit |
| DirectoryReaderFacts.ReadDirModeIndependent | index.js:287-297 | the stats option changes only the shape of each entry: the plain-mode result is the stats-mode result with every record replaced by its path, and the errors are the same |
| DirectoryReaderFacts.CollectModeIndependent | index.js:254-302 | the same for the fan-in over the children |
| DirectoryReaderFacts.VisitModeIndependent | index.js:266-302 | the same for one child |
| DirectoryReaderFacts.LeafModeIndependent | index.js:287-302 | the same for a child that is not descended into |
| DirectoryReaderFacts.DescentModeIndependent | index.js:275-286 | the same for a subdirectory read recursively |
| DirectoryReaderFacts.CollectParentFree | index.js:254 | the fan-in depends only on the children still to visit |
| DirectoryReaderFacts.CollectSkipsInert | index.js:259-264 | removing a child that is rejected, a failed stat without stopOnErrors, or a file under dirOnly leaves the outcome unchanged |
| DirectoryReaderFacts.ReadDirSkipsInert | index.js:259-273 | readDir of a listing with such a child equals readDir of the listing without it |
| DirectoryReaderFacts.ReadDirNeverVisitsRejected | index.js:259-266 | a child rejected by an ignore rule or the name filter is never stat'ed: whatever its stat or subtree holds, including errors, the outcome is the same |
| Entries.PathsOf | index.js:243 | a listing turned into a frontier keeps each entry's path, in order |
| Host.MatcherHits | index.js:235-241 | one ignore rule against a joined path: a Minimatch matches it, a RegExp tests it, a function is called on it, and a plain object left by `clone` matches nothing |
| Entries.Ignored | index.js:235-241 | isIgnored: some ignore rule matches the joined path |
| Entries.Admits | index.js:259-264 | a child is stat'ed exactly when no ignore rule matches its joined path and its name passes the filter |
| Entries.MakeEntry | index.js:288-297 | the entry pushed: a record `{name, dir, path}` in stats mode, the joined path otherwise |
| Entries.Plain | index.js:289-296 | plain mode keeps each entry's path, in order |
| Entries.PlainAppend | index.js:282 | dropping records to paths commutes with concatenation |
| Entries.CloneRules | index.js:314-333 | cloning the ignore rules keeps their number and order, turns every RegExp into a plain object, and keeps every other rule as it is |
| Entries.Clone | index.js:314-333 | the clone differs from the options only in its ignore rules, and holds no RegExp |
| Entries.CloneIdempotent | index.js:314-333 | cloning a clone gives the same options |
| Entries.CloneIgnored | index.js:235-241 | after cloning, a path is ignored exactly when some rule other than a RegExp matches it |
| Frontier.ReadEachFrom | index.js:153-171 | defines the frontier fan-in: each path read with readDir in turn, a failure ending it under stopOnErrors and dropped otherwise, successes concatenated |
| Frontier.ReadAndFilterPathsSpec | index.js:146-172 | defines readAndFilterPaths: no frontier never calls back; otherwise the frontier is read with cloned options and no descent, and the results are sorted |
| Frontier.ReadAndFilterFilesSpec | index.js:175-217 | defines readAndFilterFiles: no frontier calls back with []; otherwise the frontier is read with cloned options without the name filter, then kept where the whole pattern matches the path, and sorted |
| Frontier.ReadEach | index.js:153-171 | the loop over the frontier paths calls back with the fan-in's outcome |
| Frontier.ReadAndFilterPaths | index.js:146-172 | the method calls back with the readAndFilterPaths definition's outcome, reading the frontier with a clone of the options |
| FrontierFacts.ReadAndFilterPathsFacts | index.js:146-172 | it never calls back exactly when the frontier is empty; it lists one level below each path with the cloned options, so RegExp ignore rules no longer apply; its results are sorted and come from readDir of some frontier path; without stopOnErrors it holds exactly the reference entries; under stopOnErrors it fails with the first failure, and otherwise returns the same as without |
| FrontierFacts.ReadEachShape | index.js:157-171 | the frontier fan-in always completes, fails only under stopOnErrors, and keeps only entries of readDir of a frontier path |
| FrontierFacts.ReadEachContents | index.js:157-171 | without stopOnErrors it gathers exactly the reference entries of the remaining paths |
| FrontierFacts.ReadEachStops | index.js:157-160 | under stopOnErrors the first failing path wins; without a failure it returns the same as without stopOnErrors |
| FrontierFacts.SortKeepsFrontier | index.js:169 | sorting keeps the entries and their provenance |
| Frontier.Matching | index.js:205-211 | keeps exactly the entries whose path matches the pattern, never adding any |
| FrontierFacts.MatchingCount | index.js:205-211 | the filter keeps every copy of a matching entry and no copy of another |
| FrontierFacts.MatchingRespectsMultiset | index.js:205-211 | filtering ignores the order in which the fan-in gathered the entries |
| Frontier.ReadAndFilterFiles | index.js:175-217 | the method calls back with the readAndFilterFiles definition's outcome, reading the frontier with a clone of the options |
| FrontierFacts.ReadAndFilterFilesFacts | index.js:175-217 | an empty frontier calls back with nothing; it always calls back; the results are sorted, come from readDir of a frontier path with the cloned options (the caller's recursive flag, no name filter, no RegExp ignore rules), and match the whole pattern; without stopOnErrors they are exactly the matching reference entries; under stopOnErrors the first failure wins |
| FrontierFacts.FilesShape | index.js:189-214 | a non-empty frontier calls back with sorted entries that readDir of a frontier path emits with the cloned options, all matching the filter |
| FrontierFacts.FilesContents | index.js:193-214 | without stopOnErrors the results are the matching reference entries of the frontier under the cloned options |
| FrontierFacts.FilesStop | index.js:193-196 | under stopOnErrors the first failure along the frontier under the cloned options wins |
| FrontierFacts.FilteredShape | index.js:205-214 | filtering then sorting keeps provenance and yields only matching, sorted entries |
| Search.IndexOf | index.js:362 | indexOf on arrays, and on strings at index.js:310: -1 exactly when the element is absent; otherwise its first position |
| Search.IndexOfAtMost | index.js:362 | indexOf finds an element no later than any of its positions |
| PatternResolver.IsPattern | index.js:309-311 | a string is a pattern exactly when it contains '*' |
| PatternResolver.PatternFrom | index.js:93-98 | defines readPart over the remaining segments: a missing or empty segment calls back with the sorted results; otherwise one segment either goes on or calls back |
| PatternResolver.SegmentStep | index.js:100-139 | defines one segment on a clone of the options: `**` reads the frontier with the whole pattern as filter; a wildcard, or a literal on a non-empty frontier, before the end lists subdirectories; a leading literal is pushed; the last segment lists the frontier |
| PatternResolver.ReadPatternSpec | index.js:88-91 | defines readPattern: the normalised pattern split into segments, from an empty frontier |
| PatternResolver.ResolveSegment | index.js:100-139 | one segment in the source's branch order (`**`, a listing before the end, a literal pushed, the last segment), on a clone of the options, calls back with the segment definition's step |
| PatternResolver.ReadPattern | index.js:88-143 | the segment loop calls back with the readPattern definition's outcome |
| PatternFacts.FrontierIsClean | index.js:235-241 | entries from the frontier pass the ignore rules that survive cloning and have the requested shape |
| PatternFacts.GlobstarClean | index.js:109-113 | a `**` segment's read fails only under stopOnErrors and returns sorted entries that no ignore rule surviving cloning matches, of the requested shape |
| PatternFacts.LastSegmentClean | index.js:129-138 | the same for the last segment's listing |
| PatternFacts.StepShape | index.js:100-139 | one segment keeps the results clean, fails only under stopOnErrors, and completes sorted and clean; clean means no ignore rule other than a RegExp matches |
| PatternFacts.PatternShape | index.js:93-139 | over any remaining segments, readPattern fails only under stopOnErrors, and its results are sorted, matched by no ignore rule other than a RegExp, and of the requested shape |
| PatternFacts.ReadPatternShape | index.js:88-143 | the same for a whole pattern |
| PatternFacts.MiddleSegmentDescends | index.js:115-124 | before the end, a listed segment replaces the frontier by the paths of what it found and keeps the results; what it found is emitted by readDir of a frontier path with the segment as filter, directories only and no descent; without stopOnErrors the listing succeeds and finds exactly the reference entries; in stats mode each is a directory directly inside a frontier path, named by the segment, and matched by no ignore rule that survives cloning |
| PatternFacts.ListedSubdirectories | index.js:116-118 | entries found by such a listing pass the cloned ignore rules, have the requested shape, and in stats mode are directories directly inside a frontier path named by the segment |
| PatternFacts.GlobstarStep | index.js:109-113 | a `**` segment calls back at once, with paths matching the whole pattern |
| PatternFacts.MiddleStepKeepsResults | index.js:115-128 | a segment before the end never adds results and never calls back with a success |
| PatternFacts.GlobstarMatchesPattern | index.js:93-128 | with a `**` segment ahead, everything readPattern returns matches the whole pattern |
| PatternFacts.ReadPatternGlobstar | index.js:109-113 | a pattern with a `**` segment returns only paths matching it |
| PatternFacts.LastSegmentFiltersNames | index.js:129-138 | without `**`, in stats mode, every record returned is named by the last segment |
| PatternFacts.ReadPatternLastSegment | index.js:102-138 | the same for a whole pattern |
| PatternFacts.LastSegmentEmptyFrontier | index.js:129-138 | a last segment other than `**` that meets an empty frontier ends readPattern without a callback, whatever the results so far |
| PatternFacts.SingleSegmentNeverCompletes | index.js:105-107 | a pattern of one segment other than `**` or empty never calls back |
| PatternFacts.PatternFromNext | index.js:93-128 | a segment that goes on hands the remaining segments the new frontier and results |
| PatternFacts.PatternLosesRegExpIgnore | index.js:322-327 | a RegExp ignore rule matching every path still lets the pattern `src/*.js` return `src/foo.js`, while readDir of `src` with the same options returns nothing |
| PatternFacts.ExamplePatternIgnoresRegExps | index.js:101 | on the example tree, with only RegExp ignore rules, the pattern `src/*.js` returns `src/foo.js` whatever the rules match |
| PatternFacts.EmptyListingBeforeLastNeverCompletes | index.js:104-138 | `r*/*.js` never calls back when `r*` matches no directory: the empty listing leaves the last segment an empty frontier |
| PatternFacts.EmptyListingRestartsFrontier | index.js:105-128 | `r*/sub/*.js` returns `sub/a.js` although `r*` matches no directory: the empty frontier left by the first listing is taken for the initial one |
| Gerard.IgnoreRules | index.js:42-45 | an array is kept as is; one rule becomes a one-element array unless it is the empty string; no rule gives [] |
| Gerard.Falsy | index.js:45 | the only ignore value given alone that JavaScript treats as false is the empty string |
| Gerard.Defaults | index.js:38-41 | stopOnErrors and recursive are on unless set to false; the ignore rules are normalised and stats passes through |
| Gerard.Inputs | index.js:52 | one path becomes a one-element array; an array is kept |
| Gerard.ReadInputs | index.js:72-80 | every input's outcome, in input order |
| Gerard.ReadInput | index.js:73-79 | defines one input: a pattern goes to readPattern, anything else to readDir with the options as given |
| Gerard.GatherFrom | index.js:55-70 | defines the fan-in over the inputs' outcomes: the first failure calls back under stopOnErrors and is dropped otherwise; an input that never calls back keeps the counter above zero; at the end the results are made unique (with the corrected uniq in stats mode) and sorted |
| Gerard.GerardSpec | index.js:52-80 | defines gerard: no inputs never call back; otherwise the fan-in over every input's outcome (with the corrected uniq in stats mode) |
| Gerard.Gerard | index.js:21-81 | the method calls back with the gerard definition's outcome, made unique with the corrected stats branch of uniq |
| GerardFacts.InputShape | index.js:73-80 | each input, directory or pattern, fails only under stopOnErrors and returns entries of the requested shape |
| GerardFacts.InputsShaped | index.js:73-80 | every input that succeeds returns entries of the requested shape |
| GerardFacts.GatherCompletes | index.js:57-71 | the fan-in calls back with a success exactly when every input calls back and none fails under stopOnErrors |
| GerardFacts.GatherValue | index.js:62-69 | a successful fan-in returns the sorted concatenation of every successful input's results, in input order, deduplicated by path (the corrected uniq in stats mode) |
| GerardFacts.GatherSuccess | index.js:62-69 | when every successful input has the requested shape, a successful fan-in is sorted, has no path twice, holds exactly the paths gathered from the inputs (with the corrected uniq in stats mode) and has that shape |
| GerardFacts.GatherFails | index.js:57-60 | under stopOnErrors the first failing input's error is passed on; a failure is passed on only under stopOnErrors, and it is the first one |
| GerardFacts.GerardFacts | index.js:21-81 | no inputs: no callback; success exactly when every input completes and none fails under stopOnErrors; a success is sorted, has no path twice, loses no path (with the corrected uniq in stats mode) and has the requested shape; under stopOnErrors the first input's failure wins, and failures happen only then |
| GerardFacts.GatheredShaped | index.js:62-64 | the concatenated results have the requested shape |
| GerardFacts.GerardPlainCanonical | index.js:69 | in plain mode the result is the only sorted, duplicate-free list of the gathered paths |
| GerardFacts.GerardPlainOrderFree | index.js:52-80 | in plain mode the result depends only on the set of paths found, not on the order or grouping of the inputs |
| GerardFacts.SortKeepsKeys | index.js:69 | sorting keeps distinct paths and loses none |
| GerardFacts.CountAtMostOne | index.js:345-365 | after uniq no entry occurs twice |
| GerardFacts.PlainDeterminedByKeys | index.js:336-341 | two sorted duplicate-free plain lists with the same paths are equal |
| GerardFacts.KeptMembers | index.js:350-357 | uniq keeps only input entries |
| Sorting.Insert | index.js:341 | inserting adds exactly the one entry |
| Sorting.Sort | index.js:336-342 | the reference sort is a permutation of its input |
| Sorting.SortSorted | index.js:336-342 | the reference sort is ascending by path |
| Sorting.InsertSorted | index.js:341 | inserting into a sorted list keeps it sorted |
| Sorting.ShiftGreater | index.js:341 | the inner loop shifts the earlier entries that sort after the one being inserted one place right, leaving the gap where writing it completes the insertion; the rest of the array is untouched |
| Sorting.InsertInPlace | index.js:341 | one pass leaves the array's prefix equal to the sorted prefix with the next entry inserted |
| Sorting.SortInPlace | index.js:336-342 | sorting in place leaves the array equal to the reference sort of what it held |
| Sorting.SortEntries | index.js:336-342 | sort applied to a results list returns the reference sort |
| Sorting.SortedPermutationUnique | index.js:336-342 | two sorted lists with the same entries and no two different entries on one path are equal: the order is determined |
| Sorting.SortPlain | index.js:337-341 | the order depends on paths alone: sorting records then dropping to paths equals sorting the paths |
| StringOrder.Below | index.js:341 | the default sort order on strings: a proper prefix sorts first, otherwise the first differing character decides |
| StringOrder.BelowIrreflexive | index.js:341 | no string sorts before itself |
| StringOrder.BelowTransitive | index.js:341 | the default order is transitive |
| StringOrder.BelowTotal | index.js:341 | any two strings are equal or ordered |
| StringOrder.AtMostTransitive | index.js:341 | "not after" is transitive |
| StringOrder.BelowAntisymmetric | index.js:341 | strings neither of which sorts before the other are equal |
| Uniq.UniqStats | index.js:346-359 | the dictionary loop (with the corrected uniq in stats mode: an empty dictionary instead of `{}`) returns the first entry of each path, in input order |
| Uniq.UniqStep | index.js:350-356 | one more entry adds its path to those seen and is kept exactly when its path is new |
| Uniq.KeptKeys | index.js:350-357 | deduplication loses no path |
| Uniq.KeptDistinct | index.js:350-357 | deduplication leaves no path twice |
| Uniq.DedupFacts | index.js:345-359 | distinct paths, and exactly the input's paths |
| Uniq.KeptAreFirstOccurrences | index.js:350-357 | the kept entries are exactly the first occurrences of their paths, at increasing input positions |
| Uniq.DedupIsFirstOccurrences | index.js:345-359 | the same for the whole input: first occurrence kept, order preserved |
| Uniq.FilterFirstIndex | index.js:360-364 | defines the plain branch's filter over a prefix: an item is kept when indexOf finds it at its own position |
| Uniq.UniqPlain | index.js:360-364 | defines the plain branch over the whole array |
| Uniq.UniqBy | index.js:345-365 | defines uniq with the corrected stats branch: deduplication by path in stats mode, the filter otherwise |
| Uniq.Dedup | index.js:346-358 | defines the corrected stats branch: the first entry of each path, in input order |
| Uniq.FirstIndexIsFirstKey | index.js:361-363 | for bare paths, "indexOf finds this position" holds exactly when no earlier entry has the same path |
| Uniq.FilterFirstIndexStep | index.js:361-363 | the filter keeps one more entry exactly when it is the first with its path |
| Uniq.FilterFirstIndexIsKept | index.js:361-363 | over a prefix, the filter keeps the same entries as deduplication by path |
| Uniq.UniqPlainIsDedup | index.js:360-364 | for bare paths, the filter/indexOf branch equals deduplication by path |
| Uniq.UniqByFacts | index.js:345-365 | uniq in either mode is deduplication by path: distinct paths, none lost |
| Uniq.UniqStatsAsWritten | index.js:347-357 | with `{}` as the dictionary, no record whose path names an inherited property survives |
| Uniq.UniqStatsAsWrittenDropsToString | index.js:351 | a record with path "toString" is dropped as written and kept by deduplication |

## Left out

- Real I/O is not modelled. `fs.readdir`, `fs.stat`, `path.join`,
  `path.normalize`/`path.sep` and Minimatch are parameters. A directory is
  a finite tree below its listing, so symbolic links and cycles do not
  arise. Nothing ties the two ways a directory is read to each other:
  `Env.readdir` lists the inputs and the frontier paths, while descent
  uses the subtree that `fs.stat` reported. So a directory matched by one
  segment may list differently, or fail, when the next segment reads it,
  as it may on a filesystem that changes between reads.
- Asynchronous completion order is not modelled. The fan-ins visit children
  and inputs in listing order, so "the first failure" means the first in that
  order, not the first to arrive. The model also ignores that the source may
  call back again after an error under stopOnErrors, and may go on reading
  after it.
- Gerard.Defaults: returns the defaulted options as a new value. The source
  writes the defaults and the normalised ignore rules back into the caller's
  options object (index.js:38-50), a side effect the caller can observe
  after the call and the model does not capture.
- The argument checks at index.js:22-36 are not modelled: too few arguments,
  options omitted, a callback that is not a function. They only select
  arguments.
- `clone` (index.js:314-333) is modelled only on the options object
  (`Entries.Clone`). Its other effects, a fresh object and copied arrays,
  are not observable once values are immutable.
- The `stats` object of a record is reduced to its is-directory bit, the only
  part the source reads.
- Caller-supplied `filter` and `dirOnly` options are not modelled. Only the
  pattern resolver sets them, and only to a glob string.
- A filter that is a RegExp is not modelled, since the resolver only sets
  glob strings.
- StringOrder.Below: compares characters as Dafny `char`s. It does not model
  JavaScript's UTF-16 code-unit order for characters outside the Basic
  Multilingual Plane.
- Sorting.Sort: in stats mode the source passes a comparator that returns a
  boolean (`a.path > b.path`). Its result depends on the engine's sort
  algorithm. The model sorts records by path, as the comparator evidently
  intends, and proves that the order depends on paths alone
  (Sorting.SortPlain).
- Sorting.SortInPlace: insertion sort stands in for the engine's sort
  algorithm. Only the resulting order is modelled, and it is stable.
- Gerard.Gerard: composes the corrected stats branch of uniq
  (`Uniq.UniqStats`, equal to `Uniq.Dedup`), not the one written at
  index.js:347-357. In stats mode the source also drops every record whose
  path is an Object.prototype name such as `toString`. `Uniq.UniqStatsAsWritten`
  models that, and the Findings table below records it.
- Gerard.GatherFrom: makes the gathered results unique with the corrected
  stats branch of uniq, so it keeps records at Object.prototype names that
  the source's `{}` dictionary drops (`Uniq.UniqStatsAsWritten`).
- Gerard.GerardSpec: inherits the corrected stats uniq from
  `Gerard.GatherFrom`; the source's also drops records at Object.prototype
  names (`Uniq.UniqStatsAsWritten`).
- GerardFacts.GatherValue: states the result with the corrected stats uniq;
  with the source's, records at Object.prototype names are also missing.
- GerardFacts.GatherSuccess: "holds exactly the paths gathered" holds of the
  corrected stats uniq; the source's loses the Object.prototype names
  (`Uniq.KeptKeys` with `Uniq.PrototypeKeys`).
- GerardFacts.GerardFacts: "loses no path" holds of the corrected stats
  uniq; the source's loses the Object.prototype names.
- The case where a subdirectory's readDir never calls back is modelled as
  ending the fan-in at once (`DirectoryReader.VisitChild`,
  `Frontier.ReadEachFrom`), where the source's counter would still let a
  later sibling's error call back under stopOnErrors; it never occurs, since
  readDir always completes (ReadDirWellShaped).
- PatternResolver.SegmentStep: passes a failure of `readAndFilterPaths` on
  whatever stopOnErrors says. The source would go on with an undefined
  frontier when it is off, but readAndFilterPaths fails only under
  stopOnErrors (ReadAndFilterPathsFacts), so that case never occurs.

## Findings

| source | as written | input that shows it | evidently intended | confidence | as-written member | corrected member |
|---|---|---|---|---|---|---|
| index.js:347-357 | uniq's stats branch uses `{}` as its dictionary. `unique[item.path]` is already truthy for names inherited from Object.prototype, so a record whose path is such a name is dropped even the first time it appears | gerard('.', {stats: true}) on a directory holding a file named toString: path.join('.', 'toString') is "toString", so that record never reaches the results | every path kept once: the first record of each path, in input order | not executed | Uniq.UniqStatsAsWritten, Uniq.UniqStatsAsWrittenDropsToString | Uniq.UniqStats, Uniq.DedupFacts |
