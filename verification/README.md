# service-worker-checker, modelled in Dafny

The checker is a CI step for the Galata Dergisi web site. It compares eight
built bundles in a local checkout (`REPO_PATH`) with the copies deployed at
`https://galatadergisi.org/`. Both sides are normalised first: carriage returns
are deleted and every literal escaped CRLF (backslash, `r`, backslash, `n`) is
rewritten to an escaped LF (backslash, `n`). The checker stops at the first
bundle that differs. It then writes both texts to `local.txt` and `remote.txt`
and checks that the service worker's `CACHE_NAME` was changed as well. If the
cache name is the same, the step fails.

The model is functional. All I/O is supplied as an `Env`: whether `REPO_PATH`
can be accessed, a function from relative path to file contents or error, and
a function from URL to response body or error. Every run returns its outcome
together with the ordered list of I/O effects it performed. This list is used
to state which files were read or fetched and how often the cache-name
comparison ran.

The bundle loop receives two values computed from the `Env`. The first is the
`Verdict` of every bundle: read failed, fetch failed, same, or differs with
both normalised texts. The second is the result of the cache-name comparison.
Both are pure values, so computing them performs no I/O. A file's read and
fetch appear among the effects only if the loop reaches that file. The cache
comparison's effects appear only if the loop stops at a change.

Modules:

- `Results`: `Result` and `Option`, standing in for thrown exceptions.
- `Normalize`: the two `replace` calls of index.mjs lines 98-99 / 103-104.
  It also gives a reference definition (`Kept`) that lists the characters
  normalisation keeps.
- `Urls`: deriving the remote URL from a repository path.
- `CacheName`: `parseCacheName`. The regular expression is stated in two
  forms, a declarative one (`PatternPrefix`, `MatchesAt`) and a scanner
  (`MatchPrefix`, `ParseCacheName`), and the two are proved to agree.
- `Checker`: `compareServiceWorkerCacheNames`, the bundle loop and `main`.
- `Scenarios`: whole runs against small concrete environments.

One might expect normalisation to be idempotent; it is not. The code's
two-step rewrite can leave an escaped CRLF behind, and the model follows the
code. `Normalize.NormalizeNotIdempotent` gives the
counterexample, and `Normalize.NormalizeTwice` says exactly when a second pass
changes the text.

## Model

| member | source | states |
|---|---|---|
| Normalize.RemoveCR | index.mjs:98 | The result contains no CR, is no longer than the input, and keeps every other character with the same multiplicity. |
| Normalize.RemoveCRAppend | index.mjs:98 | CR deletion distributes over concatenation, so the characters it keeps stay in their order. |
| Normalize.RemoveCRIdentity | index.mjs:98 | CR deletion leaves a text unchanged if and only if the text contains no CR. |
| Normalize.RemoveCRIdempotent | index.mjs:98 | Deleting CRs twice gives the same text as deleting them once. |
| Normalize.NoSelfOverlap | index.mjs:99 | No occurrence of the literal escaped CRLF starts within the three positions after another, so a left-to-right replacement handles every occurrence. |
| Normalize.Collapse | index.mjs:99 | Each occurrence of the escaped CRLF makes the text two characters shorter, and every character of the result comes from the input. |
| Normalize.KeptAtOccurrence | index.mjs:99 | Across one occurrence of the escaped CRLF, the reference definition keeps only its backslash and its 'n', which is what the replacement by the escaped LF leaves. |
| Normalize.CollapseIsKept | index.mjs:99 | The replacement keeps every character except the `r` and the second backslash of each occurrence, and keeps their order. |
| Normalize.CollapseIdentity | index.mjs:99 | The replacement leaves a text unchanged if and only if the escaped CRLF does not occur in it. |
| Normalize.Normalize | index.mjs:97-99 | The normalised text contains no CR and is never longer than the input. |
| Normalize.NormalizeIsKept | index.mjs:97-99 | Normalisation deletes the CRs, then the two middle characters of each remaining escaped CRLF, and changes nothing else. |
| Normalize.NormalizeIdentity | index.mjs:102-104 | A text is unchanged by normalisation if and only if it has no CR and no literal escaped CRLF. |
| Normalize.NormalizeTwice | index.mjs:102-104 | A second normalisation changes the text if and only if the first one left an escaped CRLF behind. |
| Normalize.NormalizeNotIdempotent | index.mjs:97-99 | The literal text backslash r backslash r backslash n normalises to an escaped CRLF, and a second pass turns that into an escaped LF. |
| Urls.StripPrefix | index.mjs:96 | A path that starts with the prefix loses exactly that prefix. Any other path is returned unchanged. |
| Urls.DeriveUrl | index.mjs:96 | The URL is the origin followed by the path without its single leading prefix, or followed by the whole path if it has no such prefix. |
| Urls.UrlRoundTrip | index.mjs:96 | For a path with the prefix, removing the origin from its URL and putting the prefix back gives the path again. |
| Urls.DeriveUrlInjective | index.mjs:96 | Two distinct prefixed paths never get the same URL. |
| Urls.StripPrefixOnce | index.mjs:96 | The prefix is removed once only: a doubled prefix keeps its second copy. |
| Urls.ServiceWorkerUrlValue | index.mjs:53-54 | The service worker is fetched from `https://galatadergisi.org/service-worker.js`. |
| CacheName.LeadingSpaces | index.mjs:42 | Measures the longest run of `\s` at the start of the text. The character after the run, if any, is not a space. |
| CacheName.LeadingName | index.mjs:42 | Measures the longest quote-free run at the start of the text. The character after the run, if any, is a quote. |
| CacheName.MatchPrefix | index.mjs:42 | A name matched at the start of the text is non-empty and contains neither quote. |
| CacheName.MatchPrefixSound | index.mjs:42 | Every name the scanner returns is captured by a match of the pattern: `const`, one or more spaces, `CACHE_NAME`, spaces, `=`, spaces, a quote, the name, a quote. |
| CacheName.MatchPrefixComplete | index.mjs:42 | Whenever the pattern matches at the start of the text, with either quote at either end, the scanner returns the captured name. |
| CacheName.MatchesAtUnique | index.mjs:42 | At any one position the pattern can capture at most one name. |
| CacheName.MatchesAtIffScanner | index.mjs:42 | The pattern matches at position i with a given name if and only if the scanner returns that name at i. |
| CacheName.FindFrom | index.mjs:43-47 | The leftmost-match search of the non-global `match`: a name it returns is non-empty and quote-free, and its only error is the parse failure. `FindFromCorrect` states that the name comes from the first matching position. |
| CacheName.FindFromCorrect | index.mjs:42-48 | Searching from position i returns the name of the first matching position, or fails only when no position matches. |
| CacheName.ParseCacheName | index.mjs:41-49 | A returned name is non-empty and quote-free. A failure carries the error "Failed to parse cache name.". |
| CacheName.ParseCacheNameSound | index.mjs:47-48 | A returned name is captured by a match at some position, and no earlier position starts a match. |
| CacheName.ParseCacheNameFails | index.mjs:43-45 | Parsing fails if and only if no position of the text starts a match. |
| CacheName.ParseLeadingMatch | index.mjs:47-48 | If the pattern matches at the very start of the text, that match's name is returned. |
| CacheName.ParseDeclaration | index.mjs:42-48 | `const CACHE_NAME = "<name>"` at the start of a text yields the name, for every non-empty quote-free name. |
| CacheName.ParseExample | index.mjs:42-48 | `const CACHE_NAME = "v3";` yields `v3`. |
| CacheName.ParseMixedQuotes | index.mjs:42 | A declaration that opens with `'` and closes with `"`, with a tab and no spaces around `=`, is accepted. |
| CacheName.ParseWithoutConst | index.mjs:43-45 | A text in which `const` never occurs has no cache name. |
| Checker.DecideCacheNames | index.mjs:58-70 | The verdict taken from the two texts after the local read and the remote fetch. What it means is stated by `DecideCacheNamesSpec` and `CacheStatusSpec`. |
| Checker.DecideCacheNamesSpec | index.mjs:58-70 | Any read, fetch or parse error gives CompareFailed. Both names parsed and equal gives NamesSame. Both parsed and different gives NamesDiffer. |
| Checker.CompareCacheNames | index.mjs:51-71 | The local service worker is read first. It is fetched only if the read worked. The verdict is DecideCacheNames of the two results. |
| Checker.CacheStatus | index.mjs:61-69 | The step succeeds exactly when the names differ. Otherwise it fails with "Cache names are the same." or "Failed to compare service cache names.". |
| Checker.CacheStatusSpec | index.mjs:61-70 | The comparison succeeds if and only if both names parsed and differ. Every failure is "Cache names are the same." or "Failed to compare service cache names.", and no error is passed on. |
| Checker.Classify | index.mjs:96-106 | A bundle is ReadFailed if and only if its local read failed, and FetchFailed if and only if the read worked but the fetch failed. It is Same if and only if both copies agree after normalisation. Otherwise it Differs and carries the two different normalised texts. |
| Checker.CompareFrom | index.mjs:95-122 | The loop ends with no changes, or it stops at a position in the list with a change or an error. |
| Checker.CompareFromNoChanges | index.mjs:95-124 | The loop reports no changes if and only if every file from the start position on compared equal. |
| Checker.CompareFromNoChangesEffects | index.mjs:95-124 | A run with no changes only read and fetched each file once, in order. |
| Checker.CompareFromStops | index.mjs:97-118 | The loop stops at the first file that did not compare equal. It reports a change carrying that file's normalised texts and the cache verdict, or an error if a copy was missing. |
| Checker.CompareFromStopSound | index.mjs:95-122 | Where the loop stops, every earlier file compared equal. A change is at a file that differs and carries its texts. An error is at a file whose read or fetch failed. |
| Checker.CompareFromChangedEffects | index.mjs:95-118 | After a change at k: the files up to k were read and fetched, the two normalised texts were written, and the cache-name comparison's effects followed. |
| Checker.CompareFromErrorEffects | index.mjs:97-104 | After an error at k: the files before k were read and fetched, then file k was read, and it was fetched only if its read worked. |
| Checker.StepsHaveNoWrites | index.mjs:96-106 | Comparing one bundle only reads the local file and fetches the remote one; nothing is written before a change is found. |
| Checker.CacheComparisonReadsOnce | index.mjs:55-56 | The cache-name comparison reads the service worker exactly once. |
| Checker.ChangedReadsServiceWorker | index.mjs:118 | Over a list without the service worker, a run that found a change reads the service worker only through the cache-name comparison. |
| Checker.ChangedReadsNothingLater | index.mjs:95-118 | Over a list of distinct files, no file after the first change is read. |
| Checker.BundleFilesDistinct | index.mjs:84-93 | The eight bundle paths are pairwise distinct, and the service worker is not among them. |
| Checker.Main | index.mjs:73-129 | Accessibility of REPO_PATH is checked before anything else. The run ends in AccessFailed if and only if REPO_PATH is inaccessible. |
| Checker.MainAccessDenied | index.mjs:77-82 | With an inaccessible REPO_PATH nothing is read or fetched, and the step fails with `Failed to access REPO_PATH: "<path>"`. |
| Checker.MainNoChanges | index.mjs:95-124 | The run reports no changes if and only if REPO_PATH is accessible and every bundle compared equal after normalisation. The step then succeeds and the service worker is never read. |
| Checker.MainChanged | index.mjs:106-118 | At the first differing bundle: every earlier bundle compared equal, the outcome and the written debug files hold the normalised texts, the effects are exactly the access check, the bundle steps up to the change, the two dumps and the cache-name comparison, and the cache verdict decides the status. |
| Checker.MainChangedEffects | index.mjs:77-118 | A run that found a change at k performs exactly the access check, the reads and fetches of the bundles up to k, the two dumps, and the cache-name comparison, in that order. |
| Checker.MainChangedReads | index.mjs:106-118 | After a change no later bundle is read, and the service worker is read exactly once, so the cache-name comparison runs once. |
| Checker.MainBundleError | index.mjs:125-128 | A read or fetch error in the loop fails the step with "Failed to compare bundles.". Every earlier bundle compared equal, and the service worker was not read. |
| Checker.MainStatus | index.mjs:62-127 | The step succeeds exactly when nothing changed, or something changed and the cache names differ. Every failure carries one of the four messages of `main` and `compareServiceWorkerCacheNames`. `MainAccessDenied`, `MainBundleError` and `MainSucceeds` tie it to whole runs. |
| Checker.MainSucceeds | index.mjs:61-127 | The step succeeds if and only if nothing changed, or something changed and the cache names differ. |
| Scenarios.ScenarioNoChanges | index.mjs:95-124 | When every bundle matches, the outcome is NoChanges, the step succeeds, and nothing is written. |
| Scenarios.BundleJsStopsTheLoop | index.mjs:95-118 | When only `public/bundle.js` differs, the run stops at position 4 with its two normalised texts. |
| Scenarios.ScenarioNewCacheName | index.mjs:106-118 | When `bundle.js` changed and the cache name went from `a` to `b`, the step succeeds. |
| Scenarios.ScenarioSameCacheName | index.mjs:58-63 | When `bundle.js` changed and the cache name stayed `a`, the step fails with "Cache names are the same.". |
| Scenarios.ScenarioNoRepository | index.mjs:77-82 | When REPO_PATH cannot be accessed, the only effect is the access check, and the step fails. |

## Left out

- `getURL` (index.mjs:23-39), the HTTPS client. A fetch is an input of the `Env` that is either an already-decoded body or an error. Status codes and transport failures are all just errors, because the script never tells them apart.
- Lossy UTF-8 decoding (`response.setEncoding('utf-8')` at index.mjs:32, `readFile(..., 'utf-8')` at index.mjs:55 and 97). Malformed bytes become U+FFFD instead of causing an error, so two files whose bytes differ can still compare equal. The `Env` supplies text that is already decoded, so the model does not see bytes.
- Reading files, `fs.promises.access` and `path.join`. They are abstracted as `Env` inputs keyed by the path relative to REPO_PATH.
- `Diff.diffChars` and the coloured diff on standard error (index.mjs:107-114). The diff comes from a foreign library, and its segments only affect output.
- Failures of `fs.writeFileSync` (index.mjs:116-117). The writes are recorded as effects and assumed to succeed.
- `@actions/core` logging, `core.getInput`, `console.trace` and ANSI colours. Only the messages passed to `setFailed` are modelled, as `Status`.
- async/await sequencing and the top-level `main()` call. The script is sequential, and the model is a pure function.
- JavaScript strings are UTF-16 code units while Dafny `char` is a Unicode scalar value. Nothing modelled depends on this difference.
- CacheName.IsSpace lists the ECMAScript WhiteSpace and LineTerminator characters as of Unicode 6.3 and later, where U+180E is no longer a space. The general soundness and completeness lemmas rely only on the pattern's letters, `=` and quotes not being spaces; the concrete examples (`ParseDeclaration`, `ParseExample`, `ParseMixedQuotes` and the scenarios built on them) also rely on ' ' and the tab being spaces.
- Checker.BundleError records the position of the failing file. The script's catch-all does not know this position. It is an observation added by the model and does not change any status.
