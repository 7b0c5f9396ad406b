/**
 * The decision logic of the checker script (index.mjs lines 51-129) with its
 * I/O taken out. The file system and the web are the two functions of an Env;
 * every run returns the effects it performed, in order, so that which files
 * were read and fetched is part of the result.
 */
module Checker {
  import opened Results
  import Normalize
  import Urls
  import CacheName

  /** Why a read or fetch failed (a file system error, a status code other than
      200, a network error). The script only logs it; no caller ever sees it. */
  datatype IoError = IoError(reason: string)

  type Fetched = Result<string, IoError>

  /** The outside world of one run: whether REPO_PATH can be accessed, the file
      contents under REPO_PATH by relative path, and the web by URL. */
  datatype Env = Env(accessible: bool, disk: string -> Fetched, web: string -> Fetched)

  /** The observable I/O of a run. */
  datatype Effect =
    | CheckAccess
    | ReadFile(path: string)
    | Fetch(url: string)
    | WriteFile(name: string, contents: string)

  /** The three ends of the cache-name comparison. */
  datatype CacheOutcome = NamesDiffer | NamesSame | CompareFailed

  /** The ends of the bundle comparison. Changed carries the position of the
      first differing file, its two normalised texts and the cache-name verdict;
      BundleError carries the position of the file whose read or fetch failed. */
  datatype BundleOutcome =
    | AccessFailed
    | NoChanges
    | Changed(index: nat, local: string, remote: string, cache: CacheOutcome)
    | BundleError(index: nat)

  /** A finished (part of a) run: where it ended and what it did on the way. */
  datatype Run<T> = Run(outcome: T, effects: seq<Effect>)

  /** The CI step's final status: untouched, or failed through `setFailed`. */
  datatype Status = Succeeded | Failed(message: string)

  const ServiceWorkerFile: string := "client/service-worker.js"

  /** The bundles, in the order they are compared (index.mjs lines 84-93). */
  const BundleFiles: seq<string> := [
    "public/global.css",
    "public/legacy-player.js",
    "public/index.html",
    "public/bundle.css",
    "public/bundle.js",
    "public/katkida-bulunun/index.html",
    "public/katkida-bulunun/bundle.js",
    "public/katkida-bulunun/bundle.css"
  ]

  const LocalDump: string := "local.txt"
  const RemoteDump: string := "remote.txt"

  const SameNamesMessage: string := "Cache names are the same."
  const CacheFailureMessage: string := "Failed to compare service cache names."
  const BundleFailureMessage: string := "Failed to compare bundles."

  function AccessFailureMessage(repoPath: string): string {
    "Failed to access REPO_PATH: \"" + repoPath + "\""
  }

  function BundleUrl(file: string): string {
    Urls.DeriveUrl(file, Urls.PublicPrefix)
  }

  function ServiceWorkerUrl(): string {
    Urls.DeriveUrl(ServiceWorkerFile, Urls.ClientPrefix)
  }

  // ---------------------------------------------------------------------------
  // compareServiceWorkerCacheNames
  // ---------------------------------------------------------------------------

  /** The verdict of `compareServiceWorkerCacheNames` from the two texts it
      obtained (index.mjs lines 58-70). */
  function DecideCacheNames(local: Fetched, remote: Fetched): CacheOutcome {
    match (local, remote)
    case (Ok(l), Ok(r)) =>
      (match (CacheName.ParseCacheName(l), CacheName.ParseCacheName(r))
       case (Ok(a), Ok(b)) => if a == b then NamesSame else NamesDiffer
       case _ => CompareFailed)
    case _ => CompareFailed
  }

  /** Every error, whether from reading, fetching or parsing, ends in the same
      CompareFailed; identical names are NamesSame and different names NamesDiffer. */
  lemma DecideCacheNamesSpec(local: Fetched, remote: Fetched)
    ensures var r := DecideCacheNames(local, remote);
      && (r == CompareFailed <==>
            || local.Err? || remote.Err?
            || CacheName.ParseCacheName(local.value).Err?
            || CacheName.ParseCacheName(remote.value).Err?)
      && (r == NamesSame <==>
            && local.Ok? && remote.Ok?
            && (exists name :: CacheName.ParseCacheName(local.value) == Ok(name)
                            && CacheName.ParseCacheName(remote.value) == Ok(name)))
  {
  }

  /** `compareServiceWorkerCacheNames(repoPath)`: read the local service worker,
      then (only if that worked) fetch the deployed one, then decide. */
  function CompareCacheNames(env: Env): (r: Run<CacheOutcome>)
    ensures 1 <= |r.effects| <= 2 && r.effects[0] == ReadFile(ServiceWorkerFile)
    ensures |r.effects| == 2 <==> env.disk(ServiceWorkerFile).Ok?
    ensures |r.effects| == 2 ==> r.effects[1] == Fetch(ServiceWorkerUrl())
    ensures r.outcome == DecideCacheNames(env.disk(ServiceWorkerFile), env.web(ServiceWorkerUrl()))
  {
    var local := env.disk(ServiceWorkerFile);
    if local.Err? then Run(CompareFailed, [ReadFile(ServiceWorkerFile)])
    else
      var remote := env.web(ServiceWorkerUrl());
      Run(DecideCacheNames(local, remote), [ReadFile(ServiceWorkerFile), Fetch(ServiceWorkerUrl())])
  }

  /** What `compareServiceWorkerCacheNames` reports through the status channel. */
  function CacheStatus(c: CacheOutcome): (r: Status)
    ensures r == Succeeded <==> c == NamesDiffer
    ensures r.Failed? ==> r.message == SameNamesMessage || r.message == CacheFailureMessage
  {
    match c
    case NamesDiffer => Succeeded
    case NamesSame => Failed(SameNamesMessage)
    case CompareFailed => Failed(CacheFailureMessage)
  }

  /** The status never depends on which error occurred, nor on the names
      themselves beyond whether they are equal. */
  lemma CacheStatusSpec(local: Fetched, remote: Fetched)
    ensures var s := CacheStatus(DecideCacheNames(local, remote));
      && (s == Succeeded <==>
            local.Ok? && remote.Ok?
            && CacheName.ParseCacheName(local.value).Ok?
            && CacheName.ParseCacheName(remote.value).Ok?
            && CacheName.ParseCacheName(local.value).value != CacheName.ParseCacheName(remote.value).value)
      && (s.Failed? ==> s.message in {SameNamesMessage, CacheFailureMessage})
  {
  }

  // ---------------------------------------------------------------------------
  // One bundle
  // ---------------------------------------------------------------------------

  /** Both copies of a bundle could be obtained. */
  predicate Obtained(env: Env, file: string) {
    env.disk(file).Ok? && env.web(BundleUrl(file)).Ok?
  }

  /** Both copies were obtained and agree after normalisation. */
  predicate Unchanged(env: Env, file: string) {
    && Obtained(env, file)
    && Normalize.Normalize(env.disk(file).value) == Normalize.Normalize(env.web(BundleUrl(file)).value)
  }

  /** How comparing one bundle ends (index.mjs lines 96-121). */
  datatype Verdict =
    | ReadFailed
    | FetchFailed
    | Same
    | Differs(local: string, remote: string)

  /** Read the local copy, fetch the deployed one, normalise both, compare. */
  function Classify(env: Env, file: string): (v: Verdict)
    ensures v == ReadFailed <==> env.disk(file).Err?
    ensures v == FetchFailed <==> env.disk(file).Ok? && env.web(BundleUrl(file)).Err?
    ensures v == Same <==> Unchanged(env, file)
    ensures v.Differs? <==> Obtained(env, file) && !Unchanged(env, file)
    ensures v.Differs? ==>
      && v.local == Normalize.Normalize(env.disk(file).value)
      && v.remote == Normalize.Normalize(env.web(BundleUrl(file)).value)
      && v.local != v.remote
  {
    match env.disk(file)
    case Err(_) => ReadFailed
    case Ok(rawLocal) =>
      match env.web(BundleUrl(file))
      case Err(_) => FetchFailed
      case Ok(rawRemote) =>
        var local := Normalize.Normalize(rawLocal);
        var remote := Normalize.Normalize(rawRemote);
        if local == remote then Same else Differs(local, remote)
  }

  /** The verdict of every file of the list, as the environment determines it. */
  function Verdicts(env: Env, files: seq<string>): (vs: seq<Verdict>)
    ensures |vs| == |files|
    ensures forall j :: 0 <= j < |files| ==> vs[j] == Classify(env, files[j])
  {
    seq(|files|, j requires 0 <= j < |files| => Classify(env, files[j]))
  }

  // ---------------------------------------------------------------------------
  // The bundle loop of main
  // ---------------------------------------------------------------------------

  /** The read and the fetch that comparing one bundle performs. */
  function Step(file: string): seq<Effect> {
    [ReadFile(file), Fetch(BundleUrl(file))]
  }

  /** The effects of comparing files[i..k] one after another. */
  function Steps(files: seq<string>, i: nat, k: nat): seq<Effect>
    requires i <= k <= |files|
    decreases k - i
  {
    if i == k then [] else Step(files[i]) + Steps(files, i + 1, k)
  }

  /** The two debug files written when a bundle differs (index.mjs lines 116-117). */
  function Dumps(local: string, remote: string): seq<Effect> {
    [WriteFile(LocalDump, local), WriteFile(RemoteDump, remote)]
  }

  /** The loop of `main` from position i on (index.mjs lines 95-124): go through
      the files in order and stop at the first one that differs or fails. The
      verdicts say how each file would compare; only the files the loop reaches
      appear among the effects. `cache` is the cache-name comparison, whose
      effects are performed only when the loop stops at a change. A run that
      stops does so at a position of the list. */
  function CompareFrom(files: seq<string>, vs: seq<Verdict>, cache: Run<CacheOutcome>, i: nat): (r: Run<BundleOutcome>)
    requires |vs| == |files| && i <= |files|
    ensures r.outcome.NoChanges? || r.outcome.Changed? || r.outcome.BundleError?
    ensures r.outcome.Changed? ==> i <= r.outcome.index < |files|
    ensures r.outcome.BundleError? ==> i <= r.outcome.index < |files|
    decreases |files| - i
  {
    if i == |files| then Run(NoChanges, [])
    else
      match vs[i]
      case ReadFailed => Run(BundleError(i), [ReadFile(files[i])])
      case FetchFailed => Run(BundleError(i), Step(files[i]))
      case Differs(local, remote) =>
        Run(Changed(i, local, remote, cache.outcome), Step(files[i]) + Dumps(local, remote) + cache.effects)
      case Same =>
        var rest := CompareFrom(files, vs, cache, i + 1);
        Run(rest.outcome, Step(files[i]) + rest.effects)
  }

  /** Every file in files[i..k] compared equal. */
  ghost predicate SameBetween(vs: seq<Verdict>, i: nat, k: nat)
    requires i <= k <= |vs|
  {
    forall j :: i <= j < k ==> vs[j] == Same
  }

  /** The loop reports no changes exactly when every file from i on compared equal. */
  lemma {:induction false} CompareFromNoChanges(files: seq<string>, vs: seq<Verdict>, cache: Run<CacheOutcome>, i: nat)
    requires |vs| == |files| && i <= |files|
    ensures CompareFrom(files, vs, cache, i).outcome == NoChanges <==> SameBetween(vs, i, |files|)
    decreases |files| - i
  {
    if i < |files| {
      CompareFromNoChanges(files, vs, cache, i + 1);
    }
  }

  /** A run with no changes only read and fetched each file once, in order. */
  lemma {:induction false} CompareFromNoChangesEffects(files: seq<string>, vs: seq<Verdict>, cache: Run<CacheOutcome>, i: nat)
    requires |vs| == |files| && i <= |files|
    requires CompareFrom(files, vs, cache, i).outcome == NoChanges
    ensures CompareFrom(files, vs, cache, i).effects == Steps(files, i, |files|)
    decreases |files| - i
  {
    if i < |files| {
      CompareFromNoChangesEffects(files, vs, cache, i + 1);
    }
  }

  /** The loop stops at the first file that did not compare equal: with its
      normalised texts and the cache-name verdict if it differs, with an error
      if one of its copies could not be obtained. */
  lemma {:induction false} CompareFromStops(files: seq<string>, vs: seq<Verdict>, cache: Run<CacheOutcome>, i: nat, k: nat)
    requires |vs| == |files| && i <= k < |files|
    requires SameBetween(vs, i, k) && vs[k] != Same
    ensures CompareFrom(files, vs, cache, i).outcome ==
      if vs[k].Differs? then Changed(k, vs[k].local, vs[k].remote, cache.outcome) else BundleError(k)
    decreases k - i
  {
    if i < k {
      CompareFromStops(files, vs, cache, i + 1, k);
    }
  }

  /** Conversely, where the loop stops every earlier file compared equal, and
      the file it stops at differs (change) or could not be obtained (error). */
  lemma {:induction false} CompareFromStopSound(files: seq<string>, vs: seq<Verdict>, cache: Run<CacheOutcome>, i: nat)
    requires |vs| == |files| && i <= |files|
    ensures var o := CompareFrom(files, vs, cache, i).outcome;
      && (o.Changed? ==>
            && SameBetween(vs, i, o.index)
            && vs[o.index] == Differs(o.local, o.remote)
            && o.cache == cache.outcome)
      && (o.BundleError? ==> SameBetween(vs, i, o.index) && vs[o.index] in {ReadFailed, FetchFailed})
    decreases |files| - i
  {
    if i < |files| && vs[i] == Same {
      CompareFromStopSound(files, vs, cache, i + 1);
    }
  }

  /** Regrouping a concatenation of four effect lists. */
  lemma EffectsRegroup(a: seq<Effect>, b: seq<Effect>, c: seq<Effect>, d: seq<Effect>)
    ensures a + (b + c + d) == (a + b) + c + d
  {
  }

  /** After a change at position k the run has read and fetched files[i..k+1]
      and nothing after them, written both normalised texts, and then performed
      the cache-name comparison. */
  lemma {:induction false} CompareFromChangedEffects(files: seq<string>, vs: seq<Verdict>, cache: Run<CacheOutcome>, i: nat)
    requires |vs| == |files| && i <= |files|
    requires CompareFrom(files, vs, cache, i).outcome.Changed?
    ensures var r := CompareFrom(files, vs, cache, i);
      r.effects == Steps(files, i, r.outcome.index + 1) + Dumps(r.outcome.local, r.outcome.remote) + cache.effects
    decreases |files| - i
  {
    var r := CompareFrom(files, vs, cache, i);
    var k := r.outcome.index;
    assert Steps(files, i, k + 1) == Step(files[i]) + Steps(files, i + 1, k + 1);
    if k == i {
      assert Steps(files, i + 1, k + 1) == [];
    } else {
      var rest := CompareFrom(files, vs, cache, i + 1);
      assert vs[i] == Same && r == Run(rest.outcome, Step(files[i]) + rest.effects);
      CompareFromChangedEffects(files, vs, cache, i + 1);
      EffectsRegroup(Step(files[i]), Steps(files, i + 1, k + 1), Dumps(r.outcome.local, r.outcome.remote), cache.effects);
    }
  }

  /** After an error at position k the run has read and fetched files[i..k],
      then read files[k] and fetched it only if the read worked. */
  lemma {:induction false} CompareFromErrorEffects(files: seq<string>, vs: seq<Verdict>, cache: Run<CacheOutcome>, i: nat)
    requires |vs| == |files| && i <= |files|
    requires CompareFrom(files, vs, cache, i).outcome.BundleError?
    ensures var r := CompareFrom(files, vs, cache, i);
      var k := r.outcome.index;
      r.effects == Steps(files, i, k) + (if vs[k] == ReadFailed then [ReadFile(files[k])] else Step(files[k]))
    decreases |files| - i
  {
    var r := CompareFrom(files, vs, cache, i);
    var k := r.outcome.index;
    if k == i {
      assert Steps(files, i, k) == [];
    } else {
      assert vs[i] == Same;
      CompareFromErrorEffects(files, vs, cache, i + 1);
      assert r.effects == Step(files[i]) + CompareFrom(files, vs, cache, i + 1).effects;
      assert Steps(files, i, k) == Step(files[i]) + Steps(files, i + 1, k);
    }
  }

  /** Only the files of files[i..k] are read in Steps(files, i, k). */
  lemma {:induction false} StepsReadOnly(files: seq<string>, i: nat, k: nat, p: string)
    requires i <= k <= |files|
    requires ReadFile(p) in Steps(files, i, k)
    ensures p in files[i..k]
    decreases k - i
  {
    if i < k {
      if ReadFile(p) !in Step(files[i]) {
        StepsReadOnly(files, i + 1, k, p);
        assert files[i + 1..k] <= files[i..k][1..];
      }
    }
  }

  /** The bundle steps only read and fetch; they never write. */
  lemma {:induction false} StepsHaveNoWrites(files: seq<string>, i: nat, k: nat, e: Effect)
    requires i <= k <= |files|
    requires e in Steps(files, i, k)
    ensures e.ReadFile? || e.Fetch?
    decreases k - i
  {
    if e !in Step(files[i]) {
      StepsHaveNoWrites(files, i + 1, k, e);
    }
  }

  /** No file appears twice in the list, and the service worker is not in it. */
  predicate DistinctFiles(files: seq<string>) {
    && ServiceWorkerFile !in files
    && forall a, b :: 0 <= a < b < |files| ==> files[a] != files[b]
  }

  /** How many times the effects read the file at path p. */
  function ReadCount(effects: seq<Effect>, p: string): nat {
    if effects == [] then 0
    else (if effects[0] == ReadFile(p) then 1 else 0) + ReadCount(effects[1..], p)
  }

  lemma {:induction false} ReadCountAppend(a: seq<Effect>, b: seq<Effect>, p: string)
    ensures ReadCount(a + b, p) == ReadCount(a, p) + ReadCount(b, p)
  {
    if a == [] {
      assert a + b == b;
    } else {
      assert (a + b)[1..] == a[1..] + b;
      ReadCountAppend(a[1..], b, p);
    }
  }

  /** A file that is never read has read count zero. */
  lemma {:induction false} ReadCountAbsent(effects: seq<Effect>, p: string)
    requires ReadFile(p) !in effects
    ensures ReadCount(effects, p) == 0
  {
    if effects != [] {
      assert forall e :: e in effects[1..] ==> e in effects;
      ReadCountAbsent(effects[1..], p);
    }
  }

  /** Effects that never read p add nothing to the read count of what follows. */
  lemma ReadCountAfterUnread(a: seq<Effect>, b: seq<Effect>, p: string)
    requires ReadFile(p) !in a
    ensures ReadCount(a + b, p) == ReadCount(b, p)
  {
    ReadCountAbsent(a, p);
    ReadCountAppend(a, b, p);
  }

  /** The cache-name comparison reads the service worker once. */
  lemma CacheComparisonReadsOnce(env: Env)
    ensures ReadCount(CompareCacheNames(env).effects, ServiceWorkerFile) == 1
  {
    var cache := CompareCacheNames(env).effects;
    assert cache[1..] == [] || cache[1..] == [Fetch(ServiceWorkerUrl())];
    ReadCountAbsent(cache[1..], ServiceWorkerFile);
  }

  /** After a change the service worker is read exactly as often as the
      cache-name comparison reads it. */
  lemma ChangedReadsServiceWorker(files: seq<string>, vs: seq<Verdict>, cache: Run<CacheOutcome>)
    requires |vs| == |files| && ServiceWorkerFile !in files
    requires CompareFrom(files, vs, cache, 0).outcome.Changed?
    ensures ReadCount(CompareFrom(files, vs, cache, 0).effects, ServiceWorkerFile)
            == ReadCount(cache.effects, ServiceWorkerFile)
  {
    var o := CompareFrom(files, vs, cache, 0).outcome;
    CompareFromChangedEffects(files, vs, cache, 0);
    ServiceWorkerUnreadBeforeCache(files, o.index + 1, o.local, o.remote);
    ReadCountAfterUnread(Steps(files, 0, o.index + 1) + Dumps(o.local, o.remote), cache.effects, ServiceWorkerFile);
  }

  /** Over a list without the service worker, neither the bundle steps nor the
      two dumps read it. */
  lemma ServiceWorkerUnreadBeforeCache(files: seq<string>, k: nat, local: string, remote: string)
    requires k <= |files| && ServiceWorkerFile !in files
    ensures ReadFile(ServiceWorkerFile) !in Steps(files, 0, k) + Dumps(local, remote)
  {
    if ReadFile(ServiceWorkerFile) in Steps(files, 0, k) {
      StepsReadOnly(files, 0, k, ServiceWorkerFile);
    }
  }

  /** After a change at position k of a list of distinct files, no later file is
      read, provided the cache-name comparison reads only the service worker. */
  lemma ChangedReadsNothingLater(files: seq<string>, vs: seq<Verdict>, cache: Run<CacheOutcome>, j: nat)
    requires |vs| == |files| && DistinctFiles(files)
    requires forall e :: e in cache.effects && e.ReadFile? ==> e.path == ServiceWorkerFile
    requires CompareFrom(files, vs, cache, 0).outcome.Changed?
    requires CompareFrom(files, vs, cache, 0).outcome.index < j < |files|
    ensures ReadFile(files[j]) !in CompareFrom(files, vs, cache, 0).effects
  {
    var r := CompareFrom(files, vs, cache, 0);
    var k := r.outcome.index;
    CompareFromChangedEffects(files, vs, cache, 0);
    var steps := Steps(files, 0, k + 1);
    if ReadFile(files[j]) in steps {
      StepsReadOnly(files, 0, k + 1, files[j]);
    }
    assert files[j] != ServiceWorkerFile;
  }

  // ---------------------------------------------------------------------------
  // main
  // ---------------------------------------------------------------------------

  /** `main()` (index.mjs lines 73-129): check that REPO_PATH can be accessed,
      then compare the bundles in their fixed order. */
  function Main(env: Env): (r: Run<BundleOutcome>)
    ensures r.effects != [] && r.effects[0] == CheckAccess
    ensures r.outcome == AccessFailed <==> !env.accessible
  {
    if !env.accessible then Run(AccessFailed, [CheckAccess])
    else
      var loop := CompareFrom(BundleFiles, Verdicts(env, BundleFiles), CompareCacheNames(env), 0);
      Run(loop.outcome, [CheckAccess] + loop.effects)
  }

  /** The status a run leaves behind: the messages handed to `setFailed`. */
  function MainStatus(o: BundleOutcome, repoPath: string): (r: Status)
    ensures r == Succeeded <==> o == NoChanges || (o.Changed? && o.cache == NamesDiffer)
    ensures r.Failed? ==>
              r.message in {AccessFailureMessage(repoPath), SameNamesMessage, CacheFailureMessage, BundleFailureMessage}
  {
    match o
    case AccessFailed => Failed(AccessFailureMessage(repoPath))
    case NoChanges => Succeeded
    case Changed(_, _, _, cache) => CacheStatus(cache)
    case BundleError(_) => Failed(BundleFailureMessage)
  }

  /** The service worker is not one of the bundles, and no two bundles are the same file. */
  lemma BundleFilesDistinct()
    ensures DistinctFiles(BundleFiles)
  {
  }

  /** An inaccessible REPO_PATH fails the step before anything is read or fetched. */
  lemma MainAccessDenied(env: Env, repoPath: string)
    requires !env.accessible
    ensures Main(env) == Run(AccessFailed, [CheckAccess])
    ensures MainStatus(Main(env).outcome, repoPath) == Failed("Failed to access REPO_PATH: \"" + repoPath + "\"")
  {
  }

  /** Every bundle compared equal after normalisation. */
  ghost predicate AllUnchanged(env: Env) {
    forall j :: 0 <= j < |BundleFiles| ==> Unchanged(env, BundleFiles[j])
  }

  /** The run reports no changes exactly when REPO_PATH is accessible and every
      bundle compared equal after normalisation; the service worker is then
      never read and the step succeeds. */
  lemma MainNoChanges(env: Env, repoPath: string)
    ensures Main(env).outcome == NoChanges <==> env.accessible && AllUnchanged(env)
    ensures Main(env).outcome == NoChanges ==>
      && MainStatus(Main(env).outcome, repoPath) == Succeeded
      && Main(env).effects == [CheckAccess] + Steps(BundleFiles, 0, |BundleFiles|)
      && ReadFile(ServiceWorkerFile) !in Main(env).effects
  {
    var vs := Verdicts(env, BundleFiles);
    var cache := CompareCacheNames(env);
    CompareFromNoChanges(BundleFiles, vs, cache, 0);
    assert SameBetween(vs, 0, |BundleFiles|) <==> AllUnchanged(env);
    if Main(env).outcome == NoChanges {
      CompareFromNoChangesEffects(BundleFiles, vs, cache, 0);
      BundleFilesDistinct();
      if ReadFile(ServiceWorkerFile) in Steps(BundleFiles, 0, |BundleFiles|) {
        StepsReadOnly(BundleFiles, 0, |BundleFiles|, ServiceWorkerFile);
      }
    }
  }

  /** At the first differing bundle every earlier bundle compared equal, the
      outcome and the debug files hold the normalised texts, and the cache-name
      verdict decides the status. */
  lemma MainChanged(env: Env, repoPath: string)
    requires Main(env).outcome.Changed?
    ensures var r := Main(env);
      var k := r.outcome.index;
      && env.accessible
      && k < |BundleFiles|
      && (forall j :: 0 <= j < k ==> Unchanged(env, BundleFiles[j]))
      && Obtained(env, BundleFiles[k])
      && r.outcome.local == Normalize.Normalize(env.disk(BundleFiles[k]).value)
      && r.outcome.remote == Normalize.Normalize(env.web(BundleUrl(BundleFiles[k])).value)
      && r.outcome.local != r.outcome.remote
      && WriteFile(LocalDump, r.outcome.local) in r.effects
      && WriteFile(RemoteDump, r.outcome.remote) in r.effects
      && r.effects == [CheckAccess] + Steps(BundleFiles, 0, k + 1)
                      + Dumps(r.outcome.local, r.outcome.remote) + CompareCacheNames(env).effects
      && r.outcome.cache == CompareCacheNames(env).outcome
      && MainStatus(r.outcome, repoPath) == CacheStatus(CompareCacheNames(env).outcome)
  {
    var vs := Verdicts(env, BundleFiles);
    var cache := CompareCacheNames(env);
    CompareFromStopSound(BundleFiles, vs, cache, 0);
    MainChangedEffects(env);
  }

  /** The exact effects of a run that found a change at k: the access check, the
      bundles up to k read and fetched, the two dumps, then the cache-name comparison. */
  lemma MainChangedEffects(env: Env)
    requires Main(env).outcome.Changed?
    ensures var r := Main(env);
      r.effects == [CheckAccess] + Steps(BundleFiles, 0, r.outcome.index + 1)
                   + Dumps(r.outcome.local, r.outcome.remote) + CompareCacheNames(env).effects
  {
    var vs := Verdicts(env, BundleFiles);
    var cache := CompareCacheNames(env);
    var loop := CompareFrom(BundleFiles, vs, cache, 0);
    assert env.accessible;
    assert Main(env) == Run(loop.outcome, [CheckAccess] + loop.effects);
    AccessThenChangedEffects(BundleFiles, vs, cache);
  }

  /** CompareFromChangedEffects behind the access check. */
  lemma AccessThenChangedEffects(files: seq<string>, vs: seq<Verdict>, cache: Run<CacheOutcome>)
    requires |vs| == |files| && CompareFrom(files, vs, cache, 0).outcome.Changed?
    ensures var loop := CompareFrom(files, vs, cache, 0);
      [CheckAccess] + loop.effects
        == [CheckAccess] + Steps(files, 0, loop.outcome.index + 1)
           + Dumps(loop.outcome.local, loop.outcome.remote) + cache.effects
  {
    var loop := CompareFrom(files, vs, cache, 0);
    CompareFromChangedEffects(files, vs, cache, 0);
    var pre := Steps(files, 0, loop.outcome.index + 1);
    var dumps := Dumps(loop.outcome.local, loop.outcome.remote);
    assert [CheckAccess] + (pre + dumps + cache.effects) == [CheckAccess] + pre + dumps + cache.effects;
  }

  /** After a change no later bundle is read and the service worker is read
      exactly once: the cache-name comparison runs once. */
  lemma MainChangedReads(env: Env)
    requires Main(env).outcome.Changed?
    ensures var r := Main(env);
      && (forall j :: r.outcome.index < j < |BundleFiles| ==> ReadFile(BundleFiles[j]) !in r.effects)
      && ReadCount(r.effects, ServiceWorkerFile) == 1
  {
    var vs := Verdicts(env, BundleFiles);
    var cache := CompareCacheNames(env);
    var r := Main(env);
    var loop := CompareFrom(BundleFiles, vs, cache, 0);
    assert r.effects == [CheckAccess] + loop.effects;
    assert r.effects[1..] == loop.effects;
    BundleFilesDistinct();
    CacheComparisonReadsOnce(env);
    ChangedReadsServiceWorker(BundleFiles, vs, cache);
    forall j | r.outcome.index < j < |BundleFiles|
      ensures ReadFile(BundleFiles[j]) !in r.effects
    {
      ChangedReadsNothingLater(BundleFiles, vs, cache, j);
    }
  }

  /** A read or fetch error in the loop fails the step with the generic message;
      every earlier bundle compared equal and the service worker was not read. */
  lemma MainBundleError(env: Env, repoPath: string)
    requires Main(env).outcome.BundleError?
    ensures var r := Main(env);
      var k := r.outcome.index;
      && env.accessible
      && k < |BundleFiles|
      && (forall j :: 0 <= j < k ==> Unchanged(env, BundleFiles[j]))
      && !Obtained(env, BundleFiles[k])
      && ReadFile(ServiceWorkerFile) !in r.effects
      && MainStatus(r.outcome, repoPath) == Failed(BundleFailureMessage)
  {
    var vs := Verdicts(env, BundleFiles);
    var cache := CompareCacheNames(env);
    var loop := CompareFrom(BundleFiles, vs, cache, 0);
    var k := loop.outcome.index;
    assert Main(env) == Run(loop.outcome, [CheckAccess] + loop.effects);
    CompareFromStopSound(BundleFiles, vs, cache, 0);
    CompareFromErrorEffects(BundleFiles, vs, cache, 0);
    BundleFilesDistinct();
    var steps := Steps(BundleFiles, 0, k);
    if ReadFile(ServiceWorkerFile) in steps {
      StepsReadOnly(BundleFiles, 0, k, ServiceWorkerFile);
    }
    assert loop.effects == steps + (if vs[k] == ReadFailed then [ReadFile(BundleFiles[k])] else Step(BundleFiles[k]));
  }

  /** The step succeeds exactly when nothing changed, or something changed and
      the cache name was changed with it. */
  lemma MainSucceeds(env: Env, repoPath: string)
    ensures MainStatus(Main(env).outcome, repoPath) == Succeeded <==>
      || Main(env).outcome == NoChanges
      || (Main(env).outcome.Changed? && Main(env).outcome.cache == NamesDiffer)
  {
  }
}
