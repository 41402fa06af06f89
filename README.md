# Deterministic risk gate: a Dafny model

`scripts/risk-rules.mjs` is the deterministic half of a pull-request risk gate.
It takes the list of changed files and a rules document. The rules document
holds high-risk categories, each a name and a list of globs, and a list of
low-risk globs. The script does the following:

- It validates the rules document and collects one message per failed check.
- It compiles every glob to an anchored regular expression.
- It records a hit for every (changed file, matching high-risk category) pair.
- It applies the lockfile-only exception. A run whose hits are all known
  lockfiles, none with its manifest changed, is not forced high.
- It derives the tier (`high`, `low` or `unknown`) with strict precedence, and a
  summary sentence.

The model has five modules:

- `Text` (`text.dfy`) holds the string operations the script relies on: the
  decimal text of an index, `indexOf`, `replace` with a string pattern, and
  `join`.
- `RuleSchema` (`rule_schema.dfy`) holds the parsed JSON value, `validateRules`
  (a loop that pushes messages, proved against a function of the document),
  the schema as a predicate, and the rule set a valid document describes.
- `Glob` (`glob.dfy`) holds `toRegex` and the matching of its result.
  - A glob compiles to a token sequence by the same three ordered, leftmost,
    non-overlapping rewrite passes (`**/`, then `**`, then `*`).
  - The tokens are given an anchored matching semantics: `[^/]*`, `.*` and
    `(.*/)?`.
- `Lockfile` (`lockfile.dfy`) holds `lockfileMap`, `path.basename`, the
  manifest path computed by `replace`, and the per-hit test of the exception.
  It also holds the test as written with JavaScript's `in`, which also sees
  `Object.prototype`.
- `Classifier` (`classifier.dfy`) holds the nested scan (a method with loop
  invariants, proved against a function), the de-duplication of category names
  in first-seen order, the tier and flag precedence, the summary, and the whole
  gate from rules document to result record. It also holds worked examples.

## Model

| member | source | states |
|---|---|---|
| Text.DecimalRoundTrip | scripts/risk-rules.mjs:28-33 | the decimal text interpolated for a category index reads back as that index |
| Text.NatToStringInjective | scripts/risk-rules.mjs:28-33 | different category indices give different texts in the messages |
| Text.IndexOf | scripts/risk-rules.mjs:103 | `indexOf` returns -1 exactly when the pattern does not occur; otherwise it returns an occurrence with none before it |
| Text.ReplaceChangesLength | scripts/risk-rules.mjs:103 | when the pattern occurs, `replace` swaps its length for the replacement's |
| Text.JoinLayout | scripts/risk-rules.mjs:119 | `join` lays out every item in order, each at the width of the items before it, with the separator between neighbours, and its length is the items' widths plus one separator fewer than items |
| Text.JoinLength | scripts/risk-rules.mjs:119 | the joined text is as long as the items plus one separator fewer than there are items |
| Text.JoinItemAt | scripts/risk-rules.mjs:119 | item `k` occurs in the joined text right after the first `k` items and their separators |
| Text.JoinSeparatorAt | scripts/risk-rules.mjs:119 | the separator follows every item but the last |
| RuleSchema.ValidateRules | scripts/risk-rules.mjs:20-49 | the message-pushing loop computes exactly `Validate(rules)`; a `null` category ends it with a crash |
| RuleSchema.AcceptedIffSchema | scripts/risk-rules.mjs:20-49 | validation completes with no message exactly when the document follows the schema: non-empty category array, each category with a non-empty string name and a non-empty array of strings, and a non-empty array of string low-risk patterns |
| RuleSchema.CrashIffNull | scripts/risk-rules.mjs:23-27 | validation throws exactly for a `null` document or a `null` entry in a non-empty category array |
| RuleSchema.CrashPersists | scripts/risk-rules.mjs:26-35 | once a category read throws, the rest of the `forEach` never completes |
| RuleSchema.IndexedMessageInjective | scripts/risk-rules.mjs:28-33 | an indexed message determines its category index and the check it names |
| RuleSchema.PlainMessagesAreNotIndexed | scripts/risk-rules.mjs:24-41 | the three document-level messages are never mistaken for an indexed one |
| RuleSchema.CategoriesErrorsMention | scripts/risk-rules.mjs:26-35 | over the categories, an indexed message appears exactly when that category fails that check |
| RuleSchema.MessagesIffChecksFail | scripts/risk-rules.mjs:23-42 | each message is present exactly when its check fails, in both directions, for all four kinds of message |
| RuleSchema.MessagesInCheckOrder | scripts/risk-rules.mjs:26-35 | messages come in category order; within one category the name message precedes the patterns message |
| RuleSchema.LowMessageLast | scripts/risk-rules.mjs:38-42 | a `lowRiskPatterns` message, when present, is the last message |
| RuleSchema.OnlyCheckMessages | scripts/risk-rules.mjs:20-49 | every collected message is one a check pushes (a document-level message or an indexed category message), and no message occurs twice; with `MessagesIffChecksFail`, the list holds exactly one message per failed check |
| RuleSchema.EmptyCategoriesRejected | scripts/risk-rules.mjs:23-24 | an empty category array is rejected with its message |
| RuleSchema.Decode | scripts/risk-rules.mjs:68-73 | an accepted document yields the category names, pattern lists and low-risk patterns it holds, in order, with the non-empty shape the classifier relies on |
| Glob.CompileSpellsGlob | scripts/risk-rules.mjs:57-64 | the compiled tokens spell back the glob: escaping and the three passes lose no character |
| Glob.CompileIsCanonical | scripts/risk-rules.mjs:58-64 | after the passes in their order: no `*` is left literal, no `**` is followed by `/`, no `*` is followed by `*` or `**`, and no `**` precedes a `*` followed by `/` |
| Glob.PassesKeepStarFreeTokens | scripts/risk-rules.mjs:58-64 | the passes touch only `*`; every other (escaped) character passes through unchanged |
| Glob.LiteralGlobMatchesOnlyItself | scripts/risk-rules.mjs:57-65 | a glob without `*` matches exactly the identical path; every metacharacter but `?` is escaped, and both ends are anchored |
| Glob.LiteralsSemantics | scripts/risk-rules.mjs:59 | an escaped character matches exactly itself |
| Glob.StarSemantics | scripts/risk-rules.mjs:62 | `*` matches exactly the runs free of `/` |
| Glob.DoubleStarSemantics | scripts/risk-rules.mjs:64 | `**` matches exactly the runs free of line terminators, `/` included |
| Glob.DirectoryThenSemantics | scripts/risk-rules.mjs:63 | the non-empty alternative of `(.*/)?` matches exactly the prefixes that end in `/` |
| Glob.DoubleStarSlashSemantics | scripts/risk-rules.mjs:63 | `**/` matches either nothing or a prefix ending in `/` |
| Glob.StarStaysInSegment | scripts/risk-rules.mjs:62 | a glob without `**` matches only paths with as many `/` as the glob |
| Glob.DepthMismatchRejects | scripts/risk-rules.mjs:62-65 | a glob without `**` rejects every path of another depth |
| Glob.DoubleStarMatchesEverything | scripts/risk-rules.mjs:61-64 | `**` alone matches exactly the paths without line terminators |
| Glob.CompileAnyDepthPrefix | scripts/risk-rules.mjs:60 | a leading `**/` always becomes the any-depth prefix, whatever follows |
| Glob.CompileTripleStarSlash | scripts/risk-rules.mjs:60-62 | `***/` compiles to `[^/]*(.*/)?`: the first pass takes the last two stars |
| Glob.CompileDoubleStarSlashDoubleStar | scripts/risk-rules.mjs:60-64 | `**/**` compiles to `(.*/)?.*` |
| Glob.CompileInnerDoubleStar | scripts/risk-rules.mjs:61 | `a**b` compiles to `a`, `.*`, `b`: the inner `**` becomes one `.*`, not two `[^/]*` |
| Glob.CompileOneStar | scripts/risk-rules.mjs:62 | a single `*` between star-free text compiles to one `[^/]*` between literals |
| Glob.OneStarMatches | scripts/risk-rules.mjs:62-65 | a one-star glob matches its text with any single-segment run in place of the star |
| Glob.SourceGlobMatchesFile | scripts/risk-rules.mjs:57-65 | `src/*.ts` matches `src/a.ts` |
| Glob.SourceGlobRejectsNestedFile | scripts/risk-rules.mjs:57-65 | `src/*.ts` matches no path one directory deeper |
| Glob.AnyDepthStarSuffix | scripts/risk-rules.mjs:60-65 | `**/*<ext>` matches only paths ending in `<ext>` |
| Glob.AnyDepthStarMatches | scripts/risk-rules.mjs:60-65 | `**/*<ext>` matches every file ending in `<ext>`, at the root or in any directory |
| Glob.LockGlobMatchesBareName | scripts/risk-rules.mjs:60-65 | `**/*.lock` matches `c.lock` at the root |
| Glob.LockGlobMatchesNestedName | scripts/risk-rules.mjs:60-65 | `**/*.lock` matches `a/b/c.lock` |
| Glob.LockGlobRejectsLongerName | scripts/risk-rules.mjs:60-65 | `**/*.lock` does not match `c.lock.bak` |
| Glob.AnyDepthLiteralMatches | scripts/risk-rules.mjs:60-65 | `**/<name>` matches the name in every directory |
| Glob.AnyDepthLiteralSuffix | scripts/risk-rules.mjs:60-65 | `**/<name>` matches only paths that end in the name |
| Glob.CompilePrefixThenDoubleStar | scripts/risk-rules.mjs:61 | `<prefix>**` compiles to the literal prefix followed by `.*` |
| Glob.PrefixGlobSemantics | scripts/risk-rules.mjs:61-65 | `<prefix>**` matches exactly the paths that start with the prefix, with no line terminator after it |
| Lockfile.Basename | scripts/risk-rules.mjs:101 | the basename is the longest `/`-free suffix of the path |
| Lockfile.Dirname | scripts/risk-rules.mjs:101-103 | the directory part and the basename make up the path; the directory part is empty or ends in `/` |
| Lockfile.FirstOccurrenceIsBasename | scripts/risk-rules.mjs:103 | when the directory does not contain the name, the first occurrence of the basename is the basename itself |
| Lockfile.ReplaceBasename | scripts/risk-rules.mjs:103 | in that case `replace` swaps the basename and nothing else |
| Lockfile.ManifestIsSibling | scripts/risk-rules.mjs:103 | in that case the computed manifest is the sibling manifest |
| Lockfile.SiblingManifest | scripts/risk-rules.mjs:100-104 | a lockfile in a directory shorter than its name is excused exactly when its sibling manifest did not change |
| Lockfile.ManifestPathInDirectory | scripts/risk-rules.mjs:103 | a directory that contains the lockfile's name gets the replacement instead; `ago.sum/go.sum` maps to `ago.mod/go.sum`, not the sibling |
| Lockfile.OnlyKnownLockfilesDowngrade | scripts/risk-rules.mjs:89-102 | the own-key test excuses only the six listed lockfile names |
| Lockfile.AsWrittenAgreesOffPrototype | scripts/risk-rules.mjs:102-104 | away from the names inherited from `Object.prototype`, the test as written is the own-key test |
| Lockfile.PrototypeNamePassesAsWritten | scripts/risk-rules.mjs:102-104 | as written, a hit on a file named `toString`, `isPrototypeOf` or `__proto__` is excused, even though that file is itself a changed file; the own-key test does not excuse it |
| Lockfile.InheritedNamePasses | scripts/risk-rules.mjs:102-104 | an inherited name whose replacement text has another length passes the test as written |
| Lockfile.ThrowingNameFailsAsWritten | scripts/risk-rules.mjs:102-103 | as written, a hit on a file named `valueOf`, `hasOwnProperty` or `toLocaleString` makes the test throw; the own-key test just does not excuse it |
| Lockfile.HitTestOfReplaced | scripts/risk-rules.mjs:102-104 | for an inherited name that does not throw, the test as written checks the replaced path, and the own-key test fails |
| Classifier.Names | scripts/risk-rules.mjs:78-79 | the pushed category names are the hits' categories, position by position |
| Classifier.ScanHighHits | scripts/risk-rules.mjs:75-82 | the nested loop produces exactly `HighHits(files, cats)`; the category list is those hits' names in order |
| Classifier.HitsForFileMembership | scripts/risk-rules.mjs:76-80 | a file's hits are exactly its matching categories, in both directions |
| Classifier.HitMembership | scripts/risk-rules.mjs:75-82 | a hit is recorded exactly for a changed file and a category with a matching pattern |
| Classifier.HighHitsAppend | scripts/risk-rules.mjs:75-82 | hits are grouped file by file: the scan of a concatenation is the concatenation of the scans |
| Classifier.HitsForFileBound | scripts/risk-rules.mjs:76-80 | a file produces no more hits than there are categories, all for that file |
| Classifier.HitsForOneCategory | scripts/risk-rules.mjs:77-80 | one category gives one hit when one of its patterns matches the file and none otherwise |
| Classifier.HitsForFileAppend | scripts/risk-rules.mjs:76-81 | a file's hits over two category lists in a row are the hits over the first followed by the hits over the second |
| Classifier.HitsForFileAtCategory | scripts/risk-rules.mjs:76-81 | each category contributes exactly one hit when it matches and none when it does not, at its own place in document order |
| Classifier.Dedup | scripts/risk-rules.mjs:84 | `[...new Set(xs)]` holds the same elements as `xs`, each once |
| Classifier.DedupKeepsFirstSeenOrder | scripts/risk-rules.mjs:84 | the kept elements are in first-seen order |
| Classifier.DedupEmpty | scripts/risk-rules.mjs:84 | de-duplication is empty exactly when its input is |
| Classifier.ForcedIffUnexcusedHit | scripts/risk-rules.mjs:98-107 | `forced_high` holds exactly when some hit is not excused by the lockfile exception |
| Classifier.HighIffUnexcusedMatch | scripts/risk-rules.mjs:98-112 | the tier is `high` exactly when some changed file matches some high-risk category and is not an excused lockfile |
| Classifier.LowIffAllSafe | scripts/risk-rules.mjs:108-112 | the tier is `low` exactly when the change is non-empty, every file matches a low-risk glob, and no unexcused high-risk match exists |
| Classifier.EmptyChangeIsUnknown | scripts/risk-rules.mjs:98-124 | an empty change is `unknown`, with no flag set, no hit, no category and the LLM sentence |
| Classifier.MatchedCategoriesAreHitNames | scripts/risk-rules.mjs:84 | `matched_categories` are the hit categories, each once, in first-seen order; empty exactly when there is no hit |
| Classifier.LockfileOnlyIsNotForced | scripts/risk-rules.mjs:107-121 | a lockfile-only change is never forced high and says so in its summary |
| Classifier.ForcedSummaryNamesCategories | scripts/risk-rules.mjs:117-119 | a forced-high summary names every matched category in order between its parentheses, each followed by `, ` unless it is the last |
| Classifier.SummaryIdentifiesOutcome | scripts/risk-rules.mjs:118-124 | the summary sentence identifies the branch of the precedence: forced, lockfile-only, low-safe or undecided |
| Classifier.Classify | scripts/risk-rules.mjs:75-125 | scan, de-duplication and record building together compute `ClassificationOf(files, rules)` |
| Classifier.RunGate | scripts/risk-rules.mjs:44-125 | a document is classified exactly when it follows the schema; otherwise the gate reports its messages or the crash |
| Classifier.OneExcusedHitOutcome | scripts/risk-rules.mjs:98-112 | a single excused hit with some file outside the low-risk globs gives `lockfile_only`, not forced, tier `unknown` |
| Classifier.OneUnexcusedHitOutcome | scripts/risk-rules.mjs:98-112 | a single unexcused hit forces `high` |
| Classifier.LockfileOnlyExample | scripts/risk-rules.mjs:86-121 | `package-lock.json` changed alone under `**/package-lock.json`: lockfile-only, not forced, `unknown` |
| Classifier.LockfileWithManifestExample | scripts/risk-rules.mjs:98-119 | the same lockfile changed with its `package.json`: forced `high` |
| Classifier.DocsOnlyExample | scripts/risk-rules.mjs:108-123 | two files under `docs/` with `docs/**` as the low-risk glob: no hit, all low-safe, tier `low` |

## Left out

- Reading the command line, the changed-files file and the rules file is not
  modelled. So are splitting on newlines, trimming, dropping empty lines and
  `JSON.parse` (lines 5-17). The model starts from the list of changed files and
  the parsed JSON value.
- The process effects are not modelled: printing the messages and exiting with
  status 1 (lines 44-48), writing `risk-result.json`, appending to
  `GITHUB_OUTPUT`, and printing the record (lines 127-136). `RunGate` returns
  the messages or the record instead.
- JSON numbers are integers in the model. Floating point does not affect any
  check, since validation only asks whether a value is a string or an array.
- The regular-expression engine is not modelled. The compiled glob is a token
  sequence with its own matching relation. The relation follows the JavaScript
  semantics of `[^/]*`, `.*` and `(.*/)?` without flags: `.` matches no line
  terminator. Backtracking order and match positions are not modelled; only
  whether the whole path matches is.
- Glob.Compile: the placeholders `::DOUBLE_STAR_SLASH::` and `::DOUBLE_STAR::`
  are modelled as tokens. So a glob that contains the text `DOUBLE_STAR` is
  compiled as plain text, whereas the script's last two passes can also pick up
  that text. For example, `::DOUBLE_STAR**` becomes `^.*DOUBLE_STAR::$` in the
  script, while the model gives the literal `::DOUBLE_STAR` followed by `.*`.
- Glob.Compile: `?` is not in the escaped set, and the model treats it as an
  escaped literal like every character other than `*`. In the script it stays a
  regular-expression quantifier, with three effects the model does not capture:
  - After a literal character, one `?` makes that character optional, and a
    second makes that optional match lazy (`a??`).
  - After `*`, `**` or `**/`, one `?` makes `[^/]*`, `.*` or `(.*/)?` lazy
    (`[^/]*?`, `.*?`, `(.*/)??`). That does not change whether an anchored
    pattern matches.
  - Any further `?` has nothing left to repeat, and `new RegExp` throws a
    `SyntaxError` ("Nothing to repeat"). The script then stops before
    classifying. This happens for a leading `?` (`^?`), for the third `?` after
    a literal character (`a???`), and for the second `?` after `*`, `**` or
    `**/` (`[^/]*??`, `.*??`, `(.*/)???`).
- Lockfile.Basename: a path ending in `/` gets the empty basename, where
  `path.basename` first drops trailing slashes. Changed-file lists never end a
  path with `/`.
- Lockfile.ManifestPathInDirectory: the case where the directory contains the
  lockfile's name is stated for a one-character prefix directory (the
  `ago.sum/go.sum` shape), not for every such directory. Its requirement that
  the manifest name be as long as the lockfile name holds only for `go.sum`.
- Lockfile.HitTestAsWritten: the throw for inherited names whose method throws
  when called without a receiver is an outcome (`None`) of this one function.
  The rest of the model uses the corrected own-key test `Downgradable`, so the
  classifier itself has no throw path.
- The JSON serialization of the result record is not modelled. The record is a
  datatype with the same fields.
- Classifier.LockfileOnlyExample, LockfileWithManifestExample: the worked
  examples are stated for every short directory without `d` as its first
  character, which includes the root, rather than for one literal path.

## Findings

| source | as written | input that shows it | evidently intended | confidence | as-written member | corrected member |
|---|---|---|---|---|---|---|
| scripts/risk-rules.mjs:102-103 | `basename in lockfileMap` also holds for the names every object inherits from `Object.prototype` | a change containing only `src/toString`, matched by a high-risk glob such as `src/**`: the hit counts as an excused lockfile, so the run is lockfile-only and not forced high | only the six own keys of `lockfileMap` are lockfiles (`Object.hasOwn`) | not executed | Lockfile.PrototypeNamePassesAsWritten | Lockfile.OnlyKnownLockfilesDowngrade |
| scripts/risk-rules.mjs:102-103 | for an inherited name such as `valueOf`, `lockfileMap[basename]` is a method of `Object.prototype`, which `replace` calls without a receiver | a change whose only hit is `src/valueOf`, matched by a high-risk glob such as `src/**`: the call throws a `TypeError`, so the script stops without writing a result | only the six own keys of `lockfileMap` are lockfiles, so the hit is simply not excused | not executed | Lockfile.ThrowingNameFailsAsWritten | Lockfile.OnlyKnownLockfilesDowngrade |
