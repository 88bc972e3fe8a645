# Dichotomous key to directory tree — a Dafny model

The program reads a dichotomous classification key and builds a nested directory hierarchy from it. The key is a named tree of species. Each species has a name and an ordered list of yes/no characteristics (a question and the species' answer).

Each question a species answers becomes one folder level, named after the answer label and the question. Each species ends in a leaf file `<name>.txt`.

This project models the core of that program as pure Dafny functions and short methods, and proves properties of them. The core has five parts:

- **Species** (`SpeciesDomain`, `species.dfy`): creating a species, appending a characteristic, and checking a species' questions against the canonical order.
- **Tree** (`TreeDomain`, `dicotomic_tree.dfy`):
  - creating a tree and appending species;
  - first-seen, deduplicated question extraction;
  - the validator, which only reports species that are out of order.
- **Path synthesis and materialization**:
  - `PathSynthesis` (`paths.dfy`) maps a species, the canonical question list and the naming configuration to a chain of directories and a leaf path.
  - `DirectoryStructure` (`directory_structure.dfy`) creates what is missing on an abstract storage (`FileSystem`, `file_system.dfy`). It works species by species and stops at the first failure.
- **Process bookkeeping** (`ProcessManager`, `process_manager.dfy`):
  - the fold over reaped child statuses;
  - the processor-count clamp;
  - the parent's admission counter in multi-process mode.

  Whatever the operating system decides is an input: the processor count, whether each fork succeeds, and what each `wait()` returns.
- **The key loader** (`JsonLexer`, `json_lexer.dfy` and `JsonReader`, `json_reader.dfy`):
  - the tokenizer, including `parser_parse_string` as the program writes it;
  - the recursive-descent reader of `{"name":[{"species":[{"question":true},...]},...]}`.

  The reader is given the text as a character sequence.

Shared vocabulary (status codes, concatenation modes, `Option`) is in `Types` (`types.dfy`).

Behaviours of the program worth knowing:

- The species order check returns `false` at the FIRST out-of-order or unknown question and looks at nothing after it (`src/core/domain/species.c:114-121`, `129-136`).
- In multi-process mode, a child reaped by the throttling `wait(NULL)` has its status discarded. So not every worker's failure reaches the final result (see Findings).
- The reader accepts a comma just before a closing bracket, because after a comma the loop condition simply fails on `]`. It also ignores anything after the final closing brace.

## Model

| member | source | states |
|---|---|---|
| Types.Code | include/common/types.h:9-18 | A status code's numeric value is 0 exactly for SUCCESS, and every code is between 0 and 6, so a child's `exit(error)` reports failure exactly when its step failed |
| SpeciesDomain.Create | src/core/domain/species.c:9-30 | A new species has exactly the given name and no characteristics |
| SpeciesDomain.AddCharacteristic | src/core/domain/species.c:32-66 | A NULL species or question is refused with false and changes nothing. Otherwise the count grows by exactly one, the new (question, answer) sits at the old count, everything before it is unchanged, and the name is kept |
| SpeciesDomain.FollowsQuestionOrder | src/core/domain/species.c:89-140 | Returns true iff the expected list is non-empty and the species' questions are a prefix of it. An empty list gives false with NoExpectedQuestions. An OutOfOrder verdict at index i means the questions before i matched, and question i first appears further ahead, not at the cursor. An Unexpected verdict at i means question i does not occur from the cursor onwards. Both are decided by the characteristics up to i alone |
| TreeDomain.Create | src/core/domain/dicotomic_tree.c:9-32 | A new tree has the given name, no species and no questions |
| TreeDomain.AddSpecies | src/core/domain/dicotomic_tree.c:34-55 | A NULL species is refused and the tree is unchanged. Otherwise the species is appended at the end, earlier species keep their order, and the name and question cache are untouched |
| TreeDomain.IsQuestionInArray | src/core/domain/dicotomic_tree.c:65-76 | Reports true exactly when the question occurs among the first n entries |
| TreeDomain.ExtractQuestions | src/core/domain/dicotomic_tree.c:78-164 | Fails, leaving the tree unchanged, exactly when there are no species. Otherwise the old cache is discarded and replaced by the first-seen deduplication of all questions, so the result does not depend on the old cache and a second extraction gives the same list |
| TreeDomain.FirstSeenSameElements | src/core/domain/dicotomic_tree.c:116-130 | The extracted list holds exactly the questions that occur in some species |
| TreeDomain.FirstSeenNoDuplicates | src/core/domain/dicotomic_tree.c:124-128 | The extracted list has no duplicates |
| TreeDomain.FirstSeenFirstOccurrenceOrder | src/core/domain/dicotomic_tree.c:115-130 | The extracted list is ordered by first occurrence: an earlier entry first occurs strictly before a later one when scanning species, then characteristics |
| TreeDomain.FirstSeenBoundedByCharacteristics | src/core/domain/dicotomic_tree.c:98-103 | The list is no longer than the total number of characteristics, which is the size of the temporary array |
| TreeDomain.FirstSeenOfDistinct | src/core/domain/dicotomic_tree.c:115-130 | Extraction over a list without repeats returns the list itself |
| TreeDomain.FirstSeenAppend | src/core/domain/dicotomic_tree.c:116-130 | Scanning more questions only extends the extracted list: what has been kept stays in place |
| TreeDomain.FirstSeenPrefix | src/core/domain/dicotomic_tree.c:116-130 | The first species' questions, deduplicated, head the canonical list |
| TreeDomain.FirstSpeciesFollowsExtraction | src/core/domain/dicotomic_tree.c:116-130 | A first species that repeats no question always passes the order check against the extracted list |
| TreeDomain.FirstSpeciesFollowsOnlyIfDistinct | src/core/domain/dicotomic_tree.c:116-130 | Conversely, a first species that passes the order check against the extracted list repeats no question, and that list is non-empty |
| TreeDomain.Validate | src/core/domain/dicotomic_tree.c:166-196 | Returns false only for a tree without species. It extracts only when the cache is empty, otherwise keeps it. The species are never changed. Exactly the species that fail the order check are reported, and the result is still true |
| FileSystem.CreateDirectory | src/adapters/file_system/unix_file_system.c:12-28 | A path already taken, by a directory or by a regular file, answers SUCCESS and nothing changes, even if the storage would refuse the path (`mkdir` fails with EEXIST, which the adapter reports as success). Otherwise a create succeeds exactly when the storage does not refuse the path, and then adds the directory. A refusal returns its code and changes nothing. Directories and files that were kept apart stay apart |
| FileSystem.CreateFile | src/adapters/file_system/unix_file_system.c:30-41 | A path that is a directory cannot be opened for writing: ERROR_FILE_CREATION, nothing changes. Otherwise success adds the file, and a refusal returns its code and changes nothing. Directories and files that were kept apart stay apart |
| PathSynthesis.CharacteristicPathShape | src/core/usecases/create_directory_structure.c:13-50 | A characteristic path begins with the current path and a slash, and lies directly inside it (no further slash) exactly when neither the label nor the question contains a slash. The segment after the slash is the label and the question joined as the mode says (prefix, suffix, both). Its length plus the terminator equals the allocated size (+3, +3, +4) |
| PathSynthesis.SiblingBranchesDiffer | src/core/usecases/create_directory_structure.c:21-46 | With different true and false labels, the yes and no directories of the same question differ, in every mode |
| PathSynthesis.SegmentsDiffer | src/core/usecases/create_directory_structure.c:30-44 | Different labels give different directory names for the same question in every mode |
| PathSynthesis.LookupFindsFirst | src/core/usecases/create_directory_structure.c:78-86 | The answer to a question is None exactly when no characteristic carries it; otherwise it is the answer of the first characteristic with that exact text |
| PathSynthesis.FindAnswer | src/core/usecases/create_directory_structure.c:75-86 | The inner search finds an answer exactly when a characteristic carries the question, and returns the first such answer |
| PathSynthesis.AnsweredMembers | src/core/usecases/create_directory_structure.c:70-92 | The questions that produce a directory are exactly the canonical questions the species has an answer for |
| PathSynthesis.WalkShape | src/core/usecases/create_directory_structure.c:70-124 | The chain has one directory per answered canonical question, in canonical order. Level i is the characteristic path of the i-th answered question and its answer in the species, built on the root for the first level and on level i-1 after that; so each level begins with the one before and a slash |
| PathSynthesis.WalkLevelsDirectlyInside | src/core/usecases/create_directory_structure.c:70-124 | When neither label nor any question contains a slash, every level of the chain lies directly inside the level before it, the first inside the root |
| PathSynthesis.LeafPath | src/core/usecases/create_directory_structure.c:127-134 | The leaf is `<dir>/<name>.txt`. It lies directly inside the final directory exactly when the species name contains no slash. It fills the allocated `len(dir) + len(name) + 6` buffer exactly |
| PathSynthesis.UnmatchedSpeciesLandsInRoot | src/core/usecases/create_directory_structure.c:61 | A species that answers no canonical question gets no directories, and its leaf is `root/<name>.txt` |
| PathSynthesis.WalkSplit | src/core/usecases/create_directory_structure.c:70-124 | Synthesis over a question list is synthesis over a prefix, continued from the directory that prefix ends in |
| PathSynthesis.SharedAnswersShareDirectories | src/core/usecases/create_directory_structure.c:70-124 | Two species with the same answers to the first k canonical questions share the directories those questions produce, and those directories head both chains |
| PathSynthesis.WalkSameAnswers | src/core/usecases/create_directory_structure.c:70-124 | Species giving the same answers to every listed question get the same chain |
| DirectoryStructure.EnsureDirectoriesGrows | src/core/usecases/create_directory_structure.c:109-119 | Creating the chain only adds directories, only listed paths, and never files. Every call made is a directory create of a listed path that did not exist before |
| DirectoryStructure.EnsureDirectoriesInOrder | src/core/usecases/create_directory_structure.c:70-124 | The create calls follow the chain order |
| DirectoryStructure.EnsureDirectoriesSuccess | src/core/usecases/create_directory_structure.c:109-124 | When the chain succeeds, every path on it is a directory afterwards, unless a regular file already held it (that create answered EEXIST and made nothing) |
| DirectoryStructure.EnsureDirectoriesFailure | src/core/usecases/create_directory_structure.c:112-118 | When the chain fails, the last call made is the refused create, and its code is the result |
| DirectoryStructure.EnsureDirectoriesIdle | src/core/usecases/create_directory_structure.c:110 | When every directory of the chain exists, no call is made and nothing changes |
| DirectoryStructure.EnsureDirectoriesOverTakenPaths | src/core/usecases/create_directory_structure.c:109-124 | When every path of the chain is taken, by a directory or a file, the chain succeeds and changes nothing. Its only calls are directory creates of the paths files hold, since the existence check asks for a directory |
| DirectoryStructure.EnsureFile | src/core/usecases/create_directory_structure.c:136-140 | The leaf is created only when it does not exist as a file. Success adds exactly that file. A failure changes nothing: it is ERROR_FILE_CREATION when a directory holds the path, and the storage's refusal code otherwise. Directories are untouched |
| DirectoryStructure.SpeciesStepProperties | src/core/usecases/create_directory_structure.c:53-146 | One species only adds its own directories and its own leaf. On success the leaf exists, and every path of the chain is a directory unless a file already held it. The leaf is attempted only once the whole chain is in place in that sense, so a failing directory stops the species before its file. When everything already exists, no call is made |
| DirectoryStructure.EnsureDirectoriesAppend | src/core/usecases/create_directory_structure.c:70-124 | Creating a concatenated chain creates the first part, then continues with the second from the resulting storage, unless the first part failed |
| DirectoryStructure.CreateSpeciesDirectories | src/core/usecases/create_directory_structure.c:53-146 | The per-species loop's status, storage and calls are exactly the reference per-species step: chain directories in order, stop at the first failure, then the leaf if missing |
| DirectoryStructure.RunSequentialGrows | src/core/usecases/create_directory_structure.c:217-231 | A sequential run only adds directories and files |
| DirectoryStructure.SequentialStopsAtFirstFailure | src/core/usecases/create_directory_structure.c:217-231 | A failing run failed at some species k. The species before k all succeeded, and the run's status, storage and calls equal those of the run cut after k, so later species are never attempted |
| DirectoryStructure.SequentialSuccessCreatesAll | src/core/usecases/create_directory_structure.c:217-234 | After a successful run, every species' leaf exists, and every path of its chain is taken, as a directory or by a file that held it |
| DirectoryStructure.SequentialRunOnCompleteStorage | src/core/usecases/create_directory_structure.c:217-234 | When everything already exists, a run makes no call and returns SUCCESS |
| DirectoryStructure.SequentialRunOnTakenStorage | src/core/usecases/create_directory_structure.c:217-234 | When every leaf exists and every chain path is taken, a run returns SUCCESS and changes nothing. Its only calls are directory creates of paths files hold |
| DirectoryStructure.MaterializeTwiceIsNoOp | src/core/usecases/create_directory_structure.c:148-235 | Materializing again on the storage a successful run left behind succeeds and changes nothing. Its only calls are directory creates of paths regular files hold, and when no file holds the root or a chain path it makes no call at all |
| DirectoryStructure.RunSpecies | src/core/usecases/create_directory_structure.c:216-231 | The sequential loop equals the reference run: species in tree order, stopping at the first failing one |
| DirectoryStructure.CreateDirectoryStructure | src/core/usecases/create_directory_structure.c:148-235 | The root is ensured first, and a root failure is returned at once. Sequential mode is exactly the reference materialization. In multi-process mode the parent returns the admission-and-reaping status |
| ProcessManager.WaitForChildProcesses | src/infrastructure/process/process_manager.c:15-44 | True iff every reaped child exited normally with status 0. A non-zero exit or a signal makes it false, but every child is still reaped. With no child it is true |
| ProcessManager.GetMaxProcesses | src/infrastructure/process/process_manager.c:46-53 | The bound is at least 1, and equals the processor count when that is positive |
| ProcessManager.Throttle | src/core/usecases/create_directory_structure.c:172-176 | At the bound, one wait reaps the next child, drops its status and frees a slot; below the bound nothing changes |
| ProcessManager.Spawn | src/core/usecases/create_directory_structure.c:194-199 | A successful fork adds one live child and raises the peak to cover it |
| ProcessManager.AdmitFrom | src/core/usecases/create_directory_structure.c:169-206 | Admission completes iff every remaining fork succeeds. Live plus reaped children then equal the species count, and the live count and the peak never exceed the bound. The discarded statuses are exactly the ones the throttling waits reaped |
| ProcessManager.AdmitStep | src/core/usecases/create_directory_structure.c:171-199 | One admission with a successful fork keeps the counter invariants and continues from the next species |
| ProcessManager.DispatchChildren | src/core/usecases/create_directory_structure.c:164-213 | The parent's loop returns ERROR_MEMORY_ALLOCATION on a failed fork. Otherwise it returns the verdict over the children still live after admission, which is the reference parent status |
| ProcessManager.SettledStep | src/core/usecases/create_directory_structure.c:171-199 | One successful admission takes the closed-form counters for i children to those for i + 1 |
| ProcessManager.AdmitClosedForm | src/core/usecases/create_directory_structure.c:169-206 | With every fork succeeding, n species and bound m, admission ends with min(n, m) live children, n - min(n, m) reaped, and exactly those statuses discarded |
| ProcessManager.ParentStatusAsWritten | src/core/usecases/create_directory_structure.c:164-213 | Any failed fork gives ERROR_MEMORY_ALLOCATION. Otherwise no more than m children are ever live, the first n - m statuses are discarded, and the run succeeds iff the remaining statuses are clean exits; otherwise it gives ERROR_DIRECTORY_CREATION |
| ProcessManager.ThrottledFailureIsLost | src/core/usecases/create_directory_structure.c:172-176 | One processor, two species, the first child failing: the run still reports SUCCESS |
| ProcessManager.ParentStatusCollectingSeesEveryChild | src/core/usecases/create_directory_structure.c:209-212 | The corrected aggregation, with every fork succeeding, succeeds iff every child exited cleanly |
| JsonLexer.SkipSpaceMaximal | src/adapters/parsers/json_parser.c:122-126 | Whitespace skipping passes only whitespace and stops at the first non-whitespace character or at the end |
| JsonLexer.NumberEndMaximal | src/adapters/parsers/json_parser.c:219-228 | The number scan passes only number characters and stops at the first other character or at the end |
| JsonLexer.Scan | src/adapters/parsers/json_parser.c:267-286 | The closing-quote search stays within the input and stops at a quote or at the end. It counts at most one character per raw position |
| JsonLexer.Copy | src/adapters/parsers/json_parser.c:296-340 | The copy writes at most one character per raw position walked, so never more than the positions it was given |
| JsonLexer.NextToken | src/adapters/parsers/json_parser.c:113-245 | Only string and number tokens carry a value. The position never moves back or past the end. EndOfInput comes exactly when only whitespace remains. Every other token except a failed keyword strictly advances |
| JsonLexer.PunctuationToken | src/adapters/parsers/json_parser.c:139-162 | Each of `{ } [ ] : ,` after whitespace is its own token and advances by exactly one |
| JsonLexer.TrueKeyword | src/adapters/parsers/json_parser.c:167-181 | `true` is recognised iff all four letters fit and match, and then advances by four; the next character is not checked |
| JsonLexer.FalseKeyword | src/adapters/parsers/json_parser.c:182-197 | `false` is recognised iff all five letters fit and match, and then advances by five |
| JsonLexer.NullKeyword | src/adapters/parsers/json_parser.c:198-212 | `null` is recognised iff all four letters fit and match, and then advances by four |
| JsonLexer.FailedKeyword | src/adapters/parsers/json_parser.c:176-211 | A `t`, `f` or `n` that does not start its keyword gives no token and leaves the position on that letter |
| JsonLexer.NumberTokens | src/adapters/parsers/json_parser.c:213-236 | A number token comes exactly when the first character is a digit or `-`. Its text is the maximal run of number characters from there, and the position ends after it |
| JsonLexer.StrayCharacter | src/adapters/parsers/json_parser.c:237-242 | Any character that starts no token gives no token and is stepped over by one |
| JsonLexer.ScanPlain | src/adapters/parsers/json_parser.c:267-280 | Without backslashes the scan counts exactly the characters it passes and meets no quote before its stop |
| JsonLexer.CopyPlain | src/adapters/parsers/json_parser.c:334-337 | Without backslashes the copy is the raw text |
| JsonLexer.PlainStringToken | src/adapters/parsers/json_parser.c:259-342 | A literal without backslashes reads as exactly the characters between the quotes. The position ends just past the closing quote, or at the end for an unterminated literal |
| JsonLexer.StringBufferBound | src/adapters/parsers/json_parser.c:289-340 | The value has at most `len` characters, so it fits the `len + 1` buffer, and the raw positions read lie before the stop of the scan |
| JsonLexer.EscapedStringLosesTail | src/adapters/parsers/json_parser.c:298 | As written, the literal `"\nab"` reads as a newline followed by `a`; the `b` is lost |
| JsonLexer.EscapeScan | src/adapters/parsers/json_parser.c:267-280 | The scan over an escaped value followed by a quote stops at that quote and counts exactly the value's length |
| JsonLexer.EscapeCopy | src/adapters/parsers/json_parser.c:296-338 | Copying the raw positions of an escaped value yields the value |
| JsonLexer.IntendedStringRoundTrip | src/adapters/parsers/json_parser.c:259-342 | The corrected reading returns any value, quoted and escaped, unchanged, and ends just past the closing quote |
| JsonLexer.IntendedKeepsTail | src/adapters/parsers/json_parser.c:298 | The corrected reading returns newline, `a`, `b` for `"\nab"` |
| JsonLexer.IntendedAgreesWithoutEscapes | src/adapters/parsers/json_parser.c:298 | On a literal without backslashes, the program's reading and the corrected one coincide |
| JsonReader.CLength | src/adapters/parsers/json_parser.c:97 | The text the reader sees is everything before the first NUL |
| JsonReader.Expect | src/adapters/parsers/json_parser.c:247-257 | Consumes the current token iff it has the expected kind, and otherwise fails without moving |
| JsonReader.ParseCharacteristics | src/adapters/parsers/json_parser.c:503-573 | The characteristics loop never moves backwards and keeps the species' name |
| JsonReader.CharacteristicsOnlyAppend | src/adapters/parsers/json_parser.c:503-573 | The characteristics loop only appends: what the species held is kept, in place |
| JsonReader.SpeciesOnlyAppend | src/adapters/parsers/json_parser.c:394-459 | The species loop only appends: the species already in the tree are kept, in place |
| JsonReader.ParseSpecies | src/adapters/parsers/json_parser.c:486-583 | A species read from its array carries the given name |
| JsonReader.ParseEntry | src/adapters/parsers/json_parser.c:505-556 | A successful entry read strictly advances |
| JsonReader.AnswerShape | src/adapters/parsers/json_parser.c:519-555 | After a question, the reader accepts exactly a colon, a `true` or `false` literal and a closing brace. The answer is true exactly for `true`; any other token after the colon refuses the entry |
| JsonReader.EntryShape | src/adapters/parsers/json_parser.c:505-556 | An entry is accepted exactly when its key is a string followed by a colon, a boolean literal and `}`. A non-string key refuses it. An accepted entry yields that question with that answer and ends after the brace |
| JsonReader.CharacteristicsShape | src/adapters/parsers/json_parser.c:503-573 | The characteristics array is refused when an entry is refused, or when an entry is followed by anything but `,` or `]` |
| JsonReader.SpeciesShape | src/adapters/parsers/json_parser.c:486-583 | A characteristic array is accepted exactly when it opens with `[` and its entry loop succeeds and stops on `]` |
| JsonReader.SpeciesEntryShape | src/adapters/parsers/json_parser.c:394-442 | A species object is refused unless its key is a string followed by a colon and an accepted characteristic array. The species read carries that key as its name |
| JsonReader.SpeciesListShape | src/adapters/parsers/json_parser.c:394-459 | The species array is refused when a species is refused, or when a species is followed by anything but `,` or `]` |
| JsonReader.TreeValueShape | src/adapters/parsers/json_parser.c:376-484 | The document's species array is refused unless it opens with `[`, its loop stops on `]`, `}` follows and at least one species was read. The tree carries the given name |
| JsonReader.TreeShape | src/adapters/parsers/json_parser.c:351-380 | A document is refused unless it opens with `{`, then a string, a colon and `[`. The tree is named by that string |
| JsonReader.LoadRejectsMalformedHead | src/adapters/parsers/json_parser.c:351-380 | A text whose first token is not `{`, whose second is not a string, whose third is not a colon or whose fourth is not `[` loads as nothing. What loads is named by the second token |
| JsonReader.ReadBoolean | src/adapters/parsers/json_parser.c:344-349 | `true` and `false` in the text read as their tokens, so the parsed answer is the written one |
| JsonReader.ReadQuoted | src/adapters/parsers/json_parser.c:163-166 | A plain quoted string reads as a string token with exactly that value, ending after the closing quote |
| JsonReader.ReadEntry | src/adapters/parsers/json_parser.c:505-556 | A written `{"q":b}` entry reads back as the characteristic (q, b) and ends after its closing brace |
| JsonReader.ReadEntries | src/adapters/parsers/json_parser.c:503-573 | A written list of entries followed by `]` reads back entry by entry. Each is appended in order, and the loop stops on the bracket |
| JsonReader.ReadCharacteristicArray | src/adapters/parsers/json_parser.c:486-583 | A written characteristic array reads back as a species with the given name and exactly those characteristics in order |
| JsonReader.ReadSpeciesEntry | src/adapters/parsers/json_parser.c:394-442 | A written species object reads back as that species |
| JsonReader.ReadSpeciesList | src/adapters/parsers/json_parser.c:394-459 | A written list of species followed by `]` reads back species by species, in order |
| JsonReader.ReadTreeValue | src/adapters/parsers/json_parser.c:376-484 | A written species array and closing brace read back as a tree of exactly those species, with questions extracted |
| JsonReader.ReadTree | src/adapters/parsers/json_parser.c:351-484 | A written key parses back to its tree with the questions extracted |
| JsonReader.LoadRenderedTree | src/adapters/parsers/json_parser.c:351-484 | Loading a written key gives its name and species in order, each with its characteristics in order, and the extracted questions. A key with an empty species array is refused |
| JsonReader.LoadedTreeIsExtracted | src/adapters/parsers/json_parser.c:475-483 | Every accepted key has at least one species. Its question list holds every question once, in first-seen order, without duplicates |

## Left out

- Reading the key from a file (`parse_json_file`, src/adapters/parsers/json_parser.c:54-91). The reader starts from the text; `Load` keeps only what lies before the first NUL, like `strlen`.
- Allocation failures of every kind and all `free` bookkeeping, including the platform-dependent `malloc(0)` in extraction. Sequences and strings are values here.
- SpeciesDomain.AddCharacteristic: does not model the `false` return when copying the question fails (src/core/domain/species.c:45-60), since allocation is treated as infallible.
- TreeDomain.ExtractQuestions: does not model the failure paths of its allocations (src/core/domain/dicotomic_tree.c:106-111, 133-157).
- DirectoryStructure.CreateSpeciesDirectories: does not model the ERROR_MEMORY_ALLOCATION returns of its three allocations.
- SpeciesDomain.FollowsQuestionOrder: NULL arguments are not represented; a count of zero or less is the empty expected list.
- ProcessManager.GetMaxProcesses: takes the processor count as an unbounded integer; the narrowing of `sysconf`'s `long` result to `int` is not modelled.
- Real `fork`, `wait` and `sysconf`, and the interleaving of children. Their outcomes are inputs: the processor count, a success flag per fork, and the status each successive `wait()` returns. Which child a wait picks is folded into that sequence.
- DirectoryStructure.CreateDirectoryStructure: in multi-process mode, the children's own storage work runs concurrently and is not modelled. The contract states only the parent's status and the root creation.
- The storage primitives (`mkdir`, `fopen`, `stat` in src/adapters/file_system/unix_file_system.c). They are replaced by `FileSystem.Storage`: sets of directory and file paths, plus the paths the storage refuses with a status code. The storage has no notion of one path lying beneath another, so a create beneath a path a regular file holds (which fails with ENOTDIR on a real file system) fails only when the refusals say so.
- JsonLexer.NextToken: `isspace` and `isdigit` are modelled for the default C locale on character values. The undefined behaviour of passing a negative `char` is not modelled. A failed allocation of a number or string value (a NULL value) is not modelled.
- The logger (src/common/logger.c), the error table (src/common/errors.c), the argument parser (src/infrastructure/cli/args_parser.c) and `main` (src/main.c). They are output, option parsing and orchestration only.
- `dicotomic_tree_free`, `species_free` and `parser_free`, which only release memory.

## Findings

| source | as written | input that shows it | evidently intended | confidence | as-written member | corrected member |
|---|---|---|---|---|---|---|
| src/adapters/parsers/json_parser.c:298 | The copy loop walks `len` raw positions. `len` counts decoded characters, so every escape shortens the walk by one and the value loses as many trailing characters as it has escapes | The literal `"\nab"` (quote, backslash, `n`, `a`, `b`, quote) gives newline and `a` | Copy the raw positions up to the closing quote; the value is newline, `a`, `b` | high; not executed | JsonLexer.EscapedStringLosesTail | JsonLexer.IntendedStringRoundTrip |
| src/core/usecases/create_directory_structure.c:174 | The throttling `wait(NULL)` reaps a child but discards its exit status. A child that failed and is reaped there never reaches the final aggregation | One processor, two species; the first child exits with ERROR_DIRECTORY_CREATION (4) and the second with 0; the run returns SUCCESS | Count the statuses reaped while throttling with the final ones, so that any failing child fails the run | medium; not executed | ProcessManager.ThrottledFailureIsLost | ProcessManager.ParentStatusCollectingSeesEveryChild |

Both as-written members describe the program. So the tokenizer (`JsonLexer.ParseString`) and the parent's loop (`ProcessManager.DispatchChildren`, `ProcessManager.ParentStatus`) keep the behaviour as written. The corrected definitions are `JsonLexer.ParseStringIntended` and `ProcessManager.ParentStatusCollecting`; their intended properties are proved beside them.

`JsonLexer.IntendedAgreesWithoutEscapes` shows that the two string readings coincide on every literal without a backslash. Those are the only literals the reader's round trip (`JsonReader.LoadRenderedTree`) relies on.
