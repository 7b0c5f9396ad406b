/**
 * Whole runs of the checker against small concrete worlds: everything
 * unchanged, one bundle changed with a new cache name, one bundle changed with
 * the old cache name, and an inaccessible REPO_PATH.
 */
module Scenarios {
  import opened Results
  import Normalize
  import Urls
  import CacheName
  import opened Checker

  /** A service worker declaring the given cache name. */
  function Worker(name: string): string {
    "const CACHE_NAME = \"" + name + "\"" + ";"
  }

  /** Local and deployed copies of every bundle are the same text. */
  function SameEverywhere(): Env {
    Env(true, p => Ok("body"), u => Ok("body"))
  }

  /** `public/bundle.js` differs; the service workers declare the given names. */
  function BundleJsChanged(localName: string, remoteName: string): Env {
    Env(true,
        p => if p == "public/bundle.js" then Ok("a")
             else if p == ServiceWorkerFile then Ok(Worker(localName))
             else Ok("body"),
        u => if u == Urls.Origin + "bundle.js" then Ok("b")
             else if u == ServiceWorkerUrl() then Ok(Worker(remoteName))
             else Ok("body"))
  }

  lemma NormalizePlain(s: string)
    requires s in {"a", "b"}
    ensures Normalize.Normalize(s) == s
  {
    Normalize.NormalizeIdentity(s);
    assert !Normalize.OccursAt(s, 0);
  }

  /** Every bundle matches: no changes, the step succeeds, nothing is written. */
  lemma ScenarioNoChanges(repoPath: string)
    ensures Main(SameEverywhere()).outcome == NoChanges
    ensures MainStatus(Main(SameEverywhere()).outcome, repoPath) == Succeeded
    ensures forall e :: e in Main(SameEverywhere()).effects ==> !e.WriteFile?
  {
    var env := SameEverywhere();
    assert AllUnchanged(env);
    MainNoChanges(env, repoPath);
    forall e | e in Steps(BundleFiles, 0, |BundleFiles|)
      ensures !e.WriteFile?
    {
      StepsHaveNoWrites(BundleFiles, 0, |BundleFiles|, e);
    }
  }

  /** The bundle at position 4 differs and only it; the comparison stops there
      with both normalised texts. */
  lemma BundleJsStopsTheLoop(localName: string, remoteName: string)
    ensures var env := BundleJsChanged(localName, remoteName);
      Main(env).outcome == Changed(4, "a", "b", CompareCacheNames(env).outcome)
  {
    var env := BundleJsChanged(localName, remoteName);
    assert BundleFiles[4] == "public/bundle.js";
    assert BundleUrl(BundleFiles[4]) == Urls.Origin + "bundle.js";
    forall j | 0 <= j < 4
      ensures Unchanged(env, BundleFiles[j])
    {
      assert BundleFiles[j] != "public/bundle.js";
      assert BundleFiles[j] != ServiceWorkerFile;
      assert |BundleUrl(BundleFiles[j])| != |Urls.Origin + "bundle.js"|;
      Urls.ServiceWorkerUrlValue();
      assert |BundleUrl(BundleFiles[j])| != |ServiceWorkerUrl()|;
    }
    assert Obtained(env, BundleFiles[4]);
    NormalizePlain("a");
    NormalizePlain("b");
    var vs := Verdicts(env, BundleFiles);
    assert SameBetween(vs, 0, 4);
    CompareFromStops(BundleFiles, vs, CompareCacheNames(env), 0, 4);
  }

  /** The cache name was bumped: the step succeeds. */
  lemma ScenarioNewCacheName(repoPath: string)
    ensures var env := BundleJsChanged("a", "b");
      && Main(env).outcome == Changed(4, "a", "b", NamesDiffer)
      && MainStatus(Main(env).outcome, repoPath) == Succeeded
  {
    var env := BundleJsChanged("a", "b");
    BundleJsStopsTheLoop("a", "b");
    CacheName.ParseDeclaration("a", ";");
    CacheName.ParseDeclaration("b", ";");
  }

  /** The cache name was not bumped: the step fails with the message saying so. */
  lemma ScenarioSameCacheName(repoPath: string)
    ensures var env := BundleJsChanged("a", "a");
      && Main(env).outcome == Changed(4, "a", "b", NamesSame)
      && MainStatus(Main(env).outcome, repoPath) == Failed("Cache names are the same.")
  {
    var env := BundleJsChanged("a", "a");
    BundleJsStopsTheLoop("a", "a");
    CacheName.ParseDeclaration("a", ";");
  }

  /** REPO_PATH cannot be accessed: immediate failure, no read and no fetch. */
  lemma ScenarioNoRepository(repoPath: string)
    ensures var env := Env(false, p => Ok("body"), u => Ok("body"));
      && Main(env).effects == [CheckAccess]
      && MainStatus(Main(env).outcome, repoPath).Failed?
  {
  }
}
