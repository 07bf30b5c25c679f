# A verified model of the rule engine and makefile lexer of a tracing build tool

The build tool reads a makefile of rules: targets, declared dependencies and
tab-indented commands. It decides whether a target must be rebuilt by comparing
the file accesses recorded the last time the rule's commands ran with the
current file system. While the commands run, it records every file they open.
This project models two parts of that tool in Dafny and proves properties of
them.

**The rule engine (rules.cc).**
- `BuildModel` gives the meaning of the engine as functions over a value
  `World`. A `World` holds the rule registry, the build cache, the dependency
  store (recalculated hash ↦ recorded accesses) and the log of commands handed
  to the tracer.
- `Execute`, `CheckDep` and `CallbackEntry` are mutually recursive, as in the
  source. They terminate over a finite universe of paths.
- `RuleEngine` holds the classes `Rule` and `Engine`. Their methods update
  fields and objects in place, as `Rule`'s members and statics do. The
  `Rule` constructor, the six builders (`AddTarget` … `AddCommandList`) and
  `SetDefaultTargets` state their new fields directly. Every other method's
  postcondition ties its result and new state to the corresponding
  `BuildModel` function.
- `Resolution` and `BuildProperties` prove what the engine promises about
  these functions:
  - rule lookup is unique and does not depend on registration order;
  - the rebuild decision holds exactly when it should;
  - the cache makes a second build of a target inert;
  - the dependency set is idempotent and order-insensitive.
- `Recording` proves what a rebuild records. The log receives the rule's
  expanded commands in list order. The record stored under the hash is the
  in-flight set with every reported exit access inserted. This holds for
  commands that open no file with a unique rule. A concrete world shows what
  goes wrong otherwise.
- `DepSet` models `std::set<pair<string,bool>>` as a strictly ordered
  sequence.
- `RuleHash` models the byte stream that `recalcHash` feeds to SHA-256. Each
  string is written without a separator.

**The lexer (parse.cc).**
- `LexerModel` describes the lexer as functions over its static state: the
  buffer allocation, the valid size, the read offset, the mode, and the unread
  rest of the file.
- `Lexer.Lexer` is a class over an `array<char>` that runs the source's loops.
  A realloc replaces the array. Each method is proved equal to the model.
- Where the C code has undefined behaviour (a read past the allocation, or a
  `memmove` of negative length), the model's outcome is `Undefined`. The
  method then returns `None`, and only then.
- `LexerProperties` proves two groups of facts. The first is what a refill
  does: it grows the buffer, or it compacts it and keeps every unread byte.
  The second is which token each first character produces.

The collaborators are parameters of `Env`:
- the file system snapshot (what `fileExists` and `fileTime` read);
- the accesses each traced command reports, delivered to `callback_entry` and
  `callback_exit`;
- the wildcard matcher `::match`;
- SHA-256 as an uninterpreted function to 32-byte digests.

The makefile contents are the constructor argument of the lexer.

Where the code and the design description differ, the model follows the code:
- `checkDep` catches every exception from `find` (rules.cc:358). A dependency
  with several matching rules is therefore treated like a source file. It does
  not abort the build.
- `strchr("|:\n\t", c)` also matches the terminating NUL (parse.cc:82). A NUL
  byte is therefore consumed and returned as token 0.
- When `refillBuffer` compacts the buffer in the middle of an identifier,
  `newBufferOffset` is not moved back by the compacted amount (parse.cc:86-104).
  The read position can then pass `size`. `CompactingRefillOverrunsOffset`
  exhibits this on a concrete input, and the model keeps that behaviour.
- The declared dependencies of a rule are a list. Nothing in rules.cc reads
  them.
- The recorded dependency set is cleared only after the commands of a rebuild
  have run and been stored (rules.cc:149-150).
- The in-flight set `dependencies` belongs to the `Rule` object, not to one
  call of `execute`. Suppose a command opens a file whose unique rule is the
  running rule itself. Then the nested `execute` (rules.cc:76-77) runs its
  own commands, commits the shared set under the nested target's hash and
  clears it (rules.cc:149-150). Accesses reported before the open are then
  missing from the outer target's record. `NestedSameRuleCommit` proves this
  for any world of that shape. `SelfBuildMeetsHypotheses` gives a concrete
  one: a pattern rule `*` whose command reads `x` and then opens `y`. The
  record committed for `a` is only `(y, true)`, whatever the hash. The model
  keeps this behaviour.

## Model

| member | source | states |
|---|---|---|
| DepSet.Insert | rules.cc:86 | after the insertion the pair is in the set, and the set grows by at most one element |
| DepSet.InsertSpec | rules.cc:86 | inserting into an ordered dependency set keeps it ordered and duplicate-free, and its elements are exactly the old ones plus the new pair |
| DepSet.InsertPresent | rules.cc:78 | inserting a pair already present in an ordered set leaves the set unchanged |
| DepSet.InsertCommutes | rules.cc:84-91 | two insertions give the same set in either order |
| DepSet.OrderedUnique | rules.cc:86 | two ordered sets with the same elements are equal, so the representation is canonical |
| RuleHash.HashInput | rules.cc:289-311 | the hashed bytes begin with the target patterns and end with the target name |
| RuleHash.Fingerprint | rules.cc:289-311 | the digest is SHA-256 of the target patterns, then the commands, then the target name, back to back |
| RuleHash.HashInputLayout | rules.cc:289-311 | the hashed bytes are all targets, then all commands, then the target name, a missing list contributing nothing |
| RuleHash.ConcatAppend | rules.cc:295-303 | writing two lists in turn writes the concatenation of their bytes |
| RuleHash.SameBytesSameDigest | rules.cc:289-311 | any two rules whose concatenated bytes agree receive the same digest, whatever the list boundaries |
| RuleHash.BoundaryShiftCollides | rules.cc:294-304 | targets ["ab"] with commands ["c"] and targets ["a"] with commands ["bc"] have the same digest (no separators) |
| RuleHash.HashInputDeterminesTarget | rules.cc:305 | for a fixed rule, different target names give different hash inputs |
| RuleHash.AbsentListWritesNothing | rules.cc:294-304 | a NULL list and an empty list feed the same bytes; with no targets and no commands only the target name is hashed |
| BuildModel.Matches | rules.cc:192-206 | a rule that matches has a target list and it is not empty; a NULL or empty list never matches |
| BuildModel.Find | rules.cc:168-190 | a rule that find returns is in the registry and matches the target |
| BuildModel.CanBeBuilt | rules.cc:208-220 | a file that cannot be built does not exist and has no unique matching rule |
| BuildModel.GeneratedStale | rules.cc:333-357 | a generated dependency that was rebuilt is stale; for a directory only the rebuild counts, never its time |
| BuildModel.SourceStale | rules.cc:358-381 | a missing source is stale exactly when it existed at record time; a directory is stale exactly when it did not exist then |
| BuildModel.Matching | rules.cc:173-183 | the indices of the matching rules, strictly increasing, each in range, containing exactly the rules that match |
| BuildModel.SetTargetTime | rules.cc:107 | the rule's target time is replaced and every other rule is untouched |
| BuildModel.Prepared | rules.cc:100-110 | the target joins the cache and the rule's time becomes the file's time when it exists, else stays; definitions, dependencies, store and log are untouched |
| BuildModel.ReadTargetTime | rules.cc:106-110 | a missing target leaves the stale time; an existing one sets the file's time; nothing else changes |
| BuildModel.AddDep | rules.cc:78 | the rule's dependency set receives the pair; every invariant of the world is kept and no other rule changes |
| BuildModel.Execute | rules.cc:93-158 | a build step keeps every rule definition, only grows the cache and the log, keeps the world's invariants, and leaves the target in the cache |
| BuildModel.Decide | rules.cc:118-150 | checking a record and possibly rebuilding keeps definitions and invariants and only grows the cache and log |
| BuildModel.CheckAll | rules.cc:124-126 | folding checkDep over a record keeps the invariants, and once a dependency was stale the verdict stays stale |
| BuildModel.CheckDep | rules.cc:318-384 | checking one dependency (possibly building it) keeps definitions and invariants |
| BuildModel.Rebuild | rules.cc:143-157 | a rebuild always reports true, stores a fresh record under the hash and leaves the in-flight set empty; what the record and the log hold is RebuildRecords |
| BuildModel.Commit | rules.cc:149-150 | the store maps the hash to the collected set, the set is cleared, nothing else changes |
| BuildModel.RunCommands | rules.cc:144-148 | running the command list keeps definitions and invariants; what it logs and records is RunCommandsRecords |
| BuildModel.RunEvents | rules.cc:145 | delivering the accesses one traced command reports keeps definitions and invariants; what it records is RunEventsRecords |
| BuildModel.Deliver | rules.cc:70-91 | one reported access goes to callback_entry or callback_exit and keeps the invariants |
| BuildModel.CallbackEntry | rules.cc:70-82 | building a dependency on access keeps definitions and invariants |
| BuildModel.CallbackExit | rules.cc:84-91 | the finished access is inserted into exactly the running rule's set; store, cache and log are untouched |
| Resolution.FindFoundIff | rules.cc:168-190 | find returns rule i exactly when rule i matches and no other rule does |
| Resolution.FindNoRuleIff | rules.cc:185-189 | find fails with "No rule" exactly when no rule matches |
| Resolution.FindMultipleIff | rules.cc:175-179 | find fails with "Multiple rules" exactly when two distinct rules match |
| Resolution.CanBeBuiltIff | rules.cc:208-220 | a file can be built exactly when it exists or exactly one rule matches it |
| Resolution.CanBeBuiltFailures | rules.cc:214-219 | a missing file with no matching rule, or with two matching rules, cannot be built |
| Resolution.MatchingSnoc | rules.cc:173-183 | registering one more rule adds one to the match count exactly when it matches |
| Resolution.MatchingPrefix | rules.cc:173-183 | the matches among the first i + 1 rules are those among the first i, followed by i when rule i matches |
| Resolution.SecondMatchAmbiguous | rules.cc:175-179 | once a rule matches after an earlier match, find's outcome is "Multiple rules" whatever rules follow |
| Resolution.ScanStep | rules.cc:173-183 | one iteration of find's loop either decides "Multiple rules" or keeps its flag and remembered rule equal to the matches seen so far |
| Resolution.ScanDone | rules.cc:185-189 | after the whole registry is scanned, the flag and remembered rule give find's outcome |
| Resolution.MatchingAppend | rules.cc:173-183 | the match count of two registries concatenated is the sum of their counts |
| Resolution.MatchCountPermutation | rules.cc:173-183 | reordering the registry does not change how many rules match |
| Resolution.FindOrderIndependent | rules.cc:168-190 | the outcome of find, and the rule it finds, do not depend on registration order |
| Resolution.FindStable | rules.cc:168-206 | find depends only on the rules' targets, so building (which changes times and dependency sets) never changes lookups |
| Resolution.MatchingEqual | rules.cc:192-206 | registries that agree rule by rule on matching have the same matching indices |
| BuildProperties.ExecuteCached | rules.cc:99-103 | executing a target already in the cache returns false and changes nothing |
| BuildProperties.ExecuteTwice | rules.cc:100-103 | right after any execute of a target, executing it again by any rule is inert |
| BuildProperties.ExecuteInert | rules.cc:105 | a rule without targets or without commands only marks the target as built and reports false |
| BuildProperties.MissingTargetKeepsTime | rules.cc:106-110 | when the target does not exist, the rule keeps the target time it had |
| BuildProperties.RebuildDecision | rules.cc:100-141 | execute reports true exactly when the target is not cached, the rule has targets and commands, and either no record exists or some recorded dependency is stale |
| BuildProperties.RebuildCommits | rules.cc:143-150 | after a rebuild the store holds a record under the rule's hash and the rule's in-flight set is empty, with or without nested builds; the record's contents are FreshBuildRecords |
| BuildProperties.UnknownDependenciesRebuild | rules.cc:135-141 | with no record for the hash, an active uncached rule always rebuilds |
| BuildProperties.CheckDepSource | rules.cc:358-381 | for a path without a unique rule, stale exactly when its existence flipped or it exists, is newer than the target and is not a directory; nothing changes |
| BuildProperties.CheckDepGenerated | rules.cc:333-357 | for a path with a rule, it gets built, and it is stale exactly when that build rebuilt, or it is now missing, or newer and not a directory |
| BuildProperties.DirectoryTimesIgnored | rules.cc:345-364 | a directory is never stale by time; only an existence flip counts |
| BuildProperties.SomeSourceStaleCons | rules.cc:124-126 | staleness of a record of source files is the staleness of its head or of its tail |
| BuildProperties.CheckAllSources | rules.cc:123-131 | over a record of source files only, the loop changes nothing and its verdict is whether any entry is stale |
| BuildProperties.CheckAllVisitsAll | rules.cc:124-126 | the loop does not stop early: every recorded generated file is built |
| BuildProperties.CheckAllCons | rules.cc:124-126 | one turn of the loop checks the head entry and continues with the tail, the verdict or-ed in |
| BuildProperties.ExistenceFlipIsStale | rules.cc:364 | a source file whose existence differs from the record makes the record stale |
| BuildProperties.ExistenceFlipRebuilds | rules.cc:123-157 | such a flip forces the rule to rebuild |
| BuildProperties.UpToDateSkipsRebuild | rules.cc:123-131 | for any record under the hash, when checking it finds nothing stale, execute reports false and the world is exactly what checking left: no command is traced and nothing is committed for this rule |
| BuildProperties.UpToDateChangesNothing | rules.cc:129-131 | the special case of UpToDateSkipsRebuild for a record of up-to-date source files only: then even the world is unchanged apart from the claimed target and its time |
| BuildProperties.CallbackExitCollapses | rules.cc:84-91 | reporting the same access twice records it once |
| BuildProperties.CallbackExitsCommute | rules.cc:84-91 | the order in which two accesses are reported does not matter |
| BuildProperties.CallbackEntryMiss | rules.cc:79-81 | an access to a path without a unique rule changes nothing |
| BuildProperties.CallbackEntryHit | rules.cc:76-78 | an access to a path with a rule builds it and records it as a successful dependency |
| Recording.RunEventsRecords | rules.cc:70-91 | when no opened path has a unique rule, the callbacks of one command only insert every reported exit access into the running rule's set, in order; all else is kept |
| Recording.RunEventsTwo | rules.cc:145 | two reported accesses are delivered one after the other |
| Recording.RunCommandsRecords | rules.cc:144-148 | under the same hypothesis, the loop appends each expanded command to the log in list order and inserts every reported exit access into the set; cache, store and other rules are kept |
| Recording.RunCommandsOne | rules.cc:144-148 | a one-command loop logs the expanded command and delivers its accesses |
| Recording.RebuildRecords | rules.cc:143-150 | under the same hypothesis, a rebuild reports true, the log gains the expanded commands in order, the store maps the hash to the old set with every reported exit access inserted, the set is cleared, and cache and other rules are kept |
| Recording.FreshBuildRecords | rules.cc:99-157 | a new target with no record, under the same hypothesis, is rebuilt, and the whole resulting world is stated: target cached, time read, commands logged in order, the reported accesses committed under the hash, the set cleared |
| Recording.ExecuteFresh | rules.cc:135-157 | a new target of an active rule with no record under its hash goes straight to the rebuild |
| Recording.RebuildOne | rules.cc:143-150 | a one-command rebuild commits exactly what that command's accesses leave in the set |
| Recording.EntrySameRule | rules.cc:76-78 | opening a new path whose unique rule is the running rule builds it, which commits and clears the shared set, so afterwards the set is only (path, true) |
| Recording.ReadThenSelfOpen | rules.cc:76-86 | a read of x followed by an open of such a path leaves only (path, true) in the set: the read is lost |
| Recording.NestedSameRuleCommit | rules.cc:143-150 | for any rule whose command reads x and then opens a new path built by that same rule, the record committed for the outer target is only (path, true) |
| Recording.SelfBuildMeetsHypotheses | rules.cc:76-78 | the pattern rule `*` with command `c` that reads `x` and opens `y`, built for `a`, meets every hypothesis of NestedSameRuleCommit, for every hash |
| RuleEngine.Rule.constructor | rules.cc:160-166 | a new rule has no lists and an empty set, and is appended to the registry; nothing else changes |
| RuleEngine.Rule.AddTarget | rules.cc:222-228 | the target is appended to the list, created empty when absent; the other fields are untouched |
| RuleEngine.Rule.AddTargetList | rules.cc:230-237 | the list replaces the old one (possibly with NULL) |
| RuleEngine.Rule.AddDependency | rules.cc:239-245 | the dependency is appended to the declared list, created when absent |
| RuleEngine.Rule.AddDependencyList | rules.cc:247-254 | the declared list is replaced |
| RuleEngine.Rule.AddCommand | rules.cc:256-262 | the command is appended to the list, created when absent |
| RuleEngine.Rule.AddCommandList | rules.cc:264-271 | the command list is replaced |
| RuleEngine.Rule.Match | rules.cc:192-206 | true exactly when the rule has targets and one of them matches |
| RuleEngine.Engine.constructor | rules.cc:19-22 | an empty registry, an empty cache and the given dependency store |
| RuleEngine.Engine.Find | rules.cc:168-190 | the loop's outcome is the lookup the model defines (unique rule, "No rule" or "Multiple rules") |
| RuleEngine.Engine.CanBeBuilt | rules.cc:208-220 | the method agrees with the model's canBeBuilt |
| RuleEngine.Engine.SetDefaultTargets | rules.cc:273-282 | no rules: nothing; a first rule without targets: the error "First rule has no targets"; otherwise every target of the first rule is handed on, in order |
| RuleEngine.Engine.Execute | rules.cc:93-158 | the new state and the result are those of the model's execute |
| RuleEngine.Engine.Decide | rules.cc:118-150 | the record check and the rebuild agree with the model |
| RuleEngine.Engine.CheckRecord | rules.cc:123-131 | the loop over a record agrees with the model's fold of checkDep |
| RuleEngine.Engine.Rebuild | rules.cc:143-157 | the rebuild agrees with the model and reports true |
| RuleEngine.Engine.Commit | rules.cc:149-150 | the set is stored under the hash and cleared, as in the model |
| RuleEngine.Engine.SetTargetTime | rules.cc:106-110 | the target time is read as the model says |
| RuleEngine.Engine.RunCommandList | rules.cc:144-148 | the command loop agrees with the model |
| RuleEngine.Engine.Trace | rules.cc:145 | the command is logged and its reported accesses are delivered in order |
| RuleEngine.Engine.Deliver | rules.cc:70-91 | one reported access is dispatched as in the model |
| RuleEngine.Engine.CheckDep | rules.cc:318-384 | the check of one dependency agrees with the model |
| RuleEngine.Engine.CallbackEntry | rules.cc:70-82 | agrees with the model's callback_entry |
| RuleEngine.Engine.CallbackExit | rules.cc:84-91 | agrees with the model's callback_exit |
| RuleEngine.Engine.InsertDep | rules.cc:78-86 | the ordered set insertion agrees with the model |
| LexerModel.Resize | parse.cc:39 | the reallocated buffer has exactly the requested length |
| LexerModel.Overwrite | parse.cc:44-51 | copying into the buffer keeps its length |
| LexerModel.Initial | parse.cc:180-184 | the initial state is well formed, positioned at its start, and its unread text is the whole file |
| LexerModel.Refill | parse.cc:32-61 | a refill keeps the state well formed and the mode, rewinds the offset to 0, never gains input, and when it reports success it has consumed input and the buffer is not empty |
| LexerModel.SkipSpaces | parse.cc:67-69 | skipping only moves the offset forward |
| LexerModel.EatSpaces | parse.cc:65-79 | the state stays well formed with the same mode; when more input exists the offset is not at the end |
| LexerModel.AlnumEnd | parse.cc:88-90 | the scan never moves backwards |
| LexerModel.ScanIdent | parse.cc:86-105 | the identifier loop always yields a token and a well-formed state |
| LexerModel.NormalParse | parse.cc:63-109 | a defined outcome has a well-formed state with the same mode |
| LexerModel.LineEnd | parse.cc:132-134 | the scan never moves backwards, and moves past a byte that is not a newline |
| LexerModel.ScanCommand | parse.cc:130-145 | a defined outcome has a well-formed state with the same mode |
| LexerModel.CommandStart | parse.cc:122-130 | a defined outcome is well formed |
| LexerModel.CommandParse | parse.cc:111-146 | a defined outcome is well formed |
| LexerModel.Yylex | parse.cc:148-170 | a defined outcome is well formed |
| LexerProperties.RefillGrows | parse.cc:37-45 | when the offset is 0 the allocation is reallocated to size + 80 bytes, the size valid bytes stay, up to 80 new bytes are appended and consumed from the file |
| LexerProperties.RefillCompacts | parse.cc:46-57 | otherwise the unread bytes move to the front, up to offset bytes from the file follow them, the allocation keeps its length and the size shrinks when the file runs short |
| LexerProperties.RefillReportsRead | parse.cc:59-60 | a refill reports true exactly when the file had unread bytes |
| LexerProperties.RefillKeepsUnread | parse.cc:32-61 | a refill from a positioned state loses nothing: the unread text, buffer then file, is the same |
| LexerProperties.SkipSpacesConsumesSpaces | parse.cc:67-69 | skipping removes only spaces and stops at a non-space or the end |
| LexerProperties.EatSpacesConsumesSpaces | parse.cc:65-79 | across refills, the unread text afterwards is the old one with its leading spaces dropped, and more input is reported exactly when some is left |
| LexerProperties.EatSpacesRemovesOnlySpaces | parse.cc:65-79 | on the unread text itself: what the loop removes is a leading run of spaces, and every byte after it is kept in order |
| LexerProperties.NormalParseExhausted | parse.cc:72-75 | input of only spaces yields token 0 with nothing left unread |
| LexerProperties.NormalParsePunct | parse.cc:82-83 | after spaces, a bar, colon, newline or tab is returned as itself and consumed |
| LexerProperties.NormalParseNul | parse.cc:82-83 | after spaces, a NUL byte is consumed and returned as token 0 |
| LexerProperties.NormalParseOther | parse.cc:106-107 | after spaces, any other non-letter yields token 0 and is not consumed |
| LexerProperties.AlnumEndAt | parse.cc:88-90 | the identifier scan stops at the first non-alphanumeric byte |
| LexerProperties.AlnumEndAll | parse.cc:88-90 | the identifier scan reaches the end when every byte is alphanumeric |
| LexerProperties.NormalParseIdent | parse.cc:84-105 | a letter followed by alphanumerics ending inside the buffer yields ID and moves past the identifier |
| LexerProperties.NormalParseIdentAtEnd | parse.cc:93-98 | an identifier reaching the end of the input yields token 0, not ID |
| LexerProperties.CommandParseNotTab | parse.cc:122-126 | in command mode a line not starting with a tab switches to normal mode and is lexed there |
| LexerProperties.LineEndAt | parse.cc:132-134 | the command scan stops at the first newline |
| LexerProperties.CommandParseLine | parse.cc:130-140 | a tab line ending in an unescaped newline inside the buffer yields RULECOMMAND and moves past the newline |
| LexerProperties.EscapedNewlineAtEnd | parse.cc:136-144 | a continuation line with no more input yields token 0 after one refill |
| LexerProperties.CommandParseExhausted | parse.cc:117-121 | command mode at the end of the input yields token 0 |
| LexerProperties.YylexDispatch | parse.cc:152-158 | yylex is normalParse in normal mode and commandParse in command mode |
| LexerProperties.CompactingRefillMovesA | parse.cc:46-57 | on a concrete 80-byte buffer read to its last byte, the refill moves that byte to the front and appends the rest of the file |
| LexerProperties.CompactingRefillOverrunsOffset | parse.cc:86-104 | on that input an identifier split by the refill leaves the offset at 80 with size 4, past the valid bytes, and the next yylex has undefined behaviour |
| Lexer.ResizeAt | parse.cc:39 | the reallocated buffer keeps the old bytes and is zero beyond them |
| Lexer.OverwriteAt | parse.cc:44-51 | copying into the buffer changes exactly the target range |
| Lexer.ScanCommandRefills | parse.cc:136-144 | when no unescaped newline is in the buffer, the command scan is a refill followed by a scan from the same position |
| Lexer.Lexer.constructor | parse.cc:180-184 | normal mode, empty buffer of one byte, offset 0, the whole file unread |
| Lexer.Lexer.SetNormalMode | parse.cc:22-25 | only the mode changes, to Normal |
| Lexer.Lexer.SetCommandMode | parse.cc:27-30 | only the mode changes, to Command |
| Lexer.Lexer.Grow | parse.cc:39-43 | a fresh array reallocated to size + 80 bytes; the size valid bytes stay |
| Lexer.Lexer.MoveToFront | parse.cc:48 | the unread bytes are copied to the front, the rest of the array is kept |
| Lexer.Lexer.ReadInto | parse.cc:44-51 | reads min(count, remaining) bytes of the file into the array at the position and consumes them |
| Lexer.Lexer.RefillBuffer | parse.cc:32-61 | the result and the new state are the model's refill |
| Lexer.Lexer.SkipSpaces | parse.cc:67-69 | the loop agrees with the model |
| Lexer.Lexer.EatSpaces | parse.cc:65-79 | the loop with refills agrees with the model |
| Lexer.Lexer.AlnumEnd | parse.cc:88-90 | the loop returns the model's end of the identifier |
| Lexer.Lexer.IdentRound | parse.cc:88-101 | one round either ends with the model's token, or refills, consumes input and leaves a scan equal to the original |
| Lexer.Lexer.ScanIdent | parse.cc:86-105 | the identifier loop agrees with the model |
| Lexer.Lexer.NormalParse | parse.cc:63-109 | returns the model's token and state; None exactly when the model's outcome is undefined |
| Lexer.Lexer.LineEnd | parse.cc:132-134 | the loop returns the model's end of the line |
| Lexer.Lexer.CommandRound | parse.cc:132-144 | one round either ends as the model's scan does or refills, consumes input and leaves a scan equal to the original |
| Lexer.Lexer.ScanCommand | parse.cc:130-145 | the command loop agrees with the model; None exactly when undefined |
| Lexer.Lexer.CommandParse | parse.cc:111-146 | agrees with the model; None exactly when undefined |
| Lexer.Lexer.Yylex | parse.cc:148-170 | agrees with the model; None exactly when undefined |

`Rule::built` (rules.cc:313-316) is the predicate `RuleEngine.Engine.Built`.
`Rule::expand_command` (rules.cc:284-287) is the identity function
`BuildModel.ExpandCommand`. Both have no contract of their own. `Built` is
used by `RuleEngine.Engine.Execute`, and `ExpandCommand` by
`BuildModel.RunCommands` and `RuleEngine.Engine.RunCommandList`.

## Left out

- find.cc (the command-line front end and the `build` entry point) is not part of this model.
- `parse_makefile`'s `fopen` and its error, `yyparse` and `yyerror` are left out. The makefile's bytes are the lexer constructor's argument, and the grammar is generated code.
- The out-of-memory exception of `realloc` (parse.cc:40-42) is left out. Allocation always succeeds.
- Bytes that `malloc`/`realloc` leave uninitialised are taken as NUL.
- `fread` is deterministic. It delivers min(requested, remaining) bytes and never fails part-way.
- SHA-256 is an uninterpreted function `env.sha`. Only the bytes fed to it are modelled, and digest collisions are not excluded.
- Process tracing (`trace`, the subprocess and ptrace layer): `env.events` gives, for each command, the accesses it reports. Commands do not change the file-system snapshot, and a failing command is not distinguished. The model cannot express a build whose outputs change later time comparisons.
- Persistence of the dependency store (`retrieve_dependencies`, `clear_dependencies`, `add_dependencies`): the store is an in-memory map. Clearing followed by adding equals one map update.
- `set_target`: the model appends the target to `goals`. Whatever the implementation in find.cc does is not part of this model.
- Debug output, `indentation`, `Rule::print` and the `ruleTarget` argument of `checkDep` are left out. These serve only diagnostics.
- The `Match` and `Plotter` declarations of rules.h (`find` returning a pair, `setPlotter`) are left out. rules.cc does not implement them, and the model follows rules.cc.
- The `default:` branch of `yylex` (parse.cc:159-160) is left out. The two-valued `Mode` makes it unreachable.
- C undefined behaviour is not modelled byte by byte. A read past the allocation and a `memmove` of negative length both become `Undefined`, and the lexer methods return `None`.
- The token at a compacting refill inside an identifier or a continuation line is not shown to be correct. The model reproduces the source's stale positions instead (see `CompactingRefillOverrunsOffset`), so no lemma states the multi-chunk tokens of an identifier or a continued command.
- `Lexer.Lexer` does not re-establish `offset <= size` after a refill splits an identifier. Its `Valid` only requires `size` to fit in the array, and the model itself shows the offset can pass `size`.
- `Rule::execute` is one C++ function. The model splits it into `Execute`, `Decide`, `CheckRecord`, `Rebuild`, `RunCommandList`, `Commit` and `SetTargetTime`, and splits the lexer's inner loops and loop rounds into their own methods. The behaviour is unchanged, and each piece is proved against its model function.
- Recursion depth (stack exhaustion) is not modelled.
- `AddTargetList`, `AddDependencyList` and `AddCommandList` take the list by value. rules.cc:230-271 keeps the caller's `list` pointer, so later changes through the caller's pointer show up in the rule, and it deletes the list it replaces. Sharing and deletion are not modelled.
- The C widths are not modelled. `inputBufferSize` and `inputBufferOffset` are `int` in parse.cc and `targetTime` is a `time_t`, but the model uses unbounded integers. Overflow past 2^31 bytes of buffer or of the time type cannot happen in the model.
- RebuildRecords, RunCommandsRecords, RunEventsRecords and FreshBuildRecords: the exact record is stated only for commands that open no path with a unique rule. A nested build by another rule adds its own store entries and log lines between the commands, which these lemmas do not describe. A nested build by the same rule loses accesses (see `NestedSameRuleCommit`).
