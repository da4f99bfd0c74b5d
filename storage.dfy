/** The test-case cache of `src/jira/storage.ts`: a list filled by the first fetch that finds test
    cases, and a lock flag that keeps a second caller from fetching while a fetch is under way. */
module Storage {
  import opened Options
  import opened Utils
  import opened Client

  /** The list one fetch produces when its requests are answered by `run`. */
  function FetchResult(c: JiraClient, run: seq<Option<Page>>): seq<JiraTestCase> {
    AllTestCases(c, run).testCases
  }

  /** The first of the fetches `runs` that produces test cases. */
  function FirstFilled(c: JiraClient, runs: seq<seq<Option<Page>>>): (r: Option<nat>)
    ensures r.Some? ==> r.value < |runs| && FetchResult(c, runs[r.value]) != []
    ensures r.Some? ==> forall j :: 0 <= j < r.value ==> FetchResult(c, runs[j]) == []
    ensures r.None? ==> forall j :: 0 <= j < |runs| ==> FetchResult(c, runs[j]) == []
  {
    if |runs| == 0 then None
    else if FetchResult(c, runs[0]) != [] then Some(0)
    else match FirstFilled(c, runs[1..])
      case None => None
      case Some(k) => Some(k + 1)
  }

  /** With a required setting missing, every fetch ends at once with nothing, so no fetch ever fills the
      cache: by the contract of `Get`, an empty, unlocked cache then keeps fetching for as long as there
      are fetches, and `get()` never returns. */
  lemma {:induction false} UnconfiguredNeverFills(c: JiraClient, runs: seq<seq<Option<Page>>>)
    requires !HasRequiredFields(c)
    ensures FirstFilled(c, runs) == None
  {
    if |runs| > 0 {
      AllTestCasesGuard(c, runs[0]);
      UnconfiguredNeverFills(c, runs[1..]);
    }
  }

  /** `n` fetches, each of which found the lock held. */
  function LockedFetches(n: nat): (r: seq<bool>)
    ensures |r| == n && forall i :: 0 <= i < n ==> r[i]
  {
    seq(n, _ => true)
  }

  class JiraStorage {
    var testCases: seq<JiraTestCase>
    var isLocked: bool
    const project: string
    const client: JiraClient
    /** The lock flag as each fetch found it when it began, one entry per fetch. */
    ghost var locksAtFetch: seq<bool>

    /** `new JiraStorage()`: an empty, unlocked cache; `project` and `client` never change afterwards. */
    constructor (cfg: Config)
      ensures testCases == [] && !isLocked && locksAtFetch == []
      ensures project == cfg.atlassian.project && client == FromConfig(cfg)
    {
      testCases := [];
      isLocked := false;
      project := cfg.atlassian.project;
      client := FromConfig(cfg);
      locksAtFetch := [];
    }

    /** `get()`, with each fetch it starts answered by the next entry of `runs`; `None` when the fetches
        run out before one of them finds test cases. A non-empty cache is returned as it is; an empty,
        locked one gives `[]` without fetching; an empty, unlocked one is fetched until a fetch finds
        test cases, each fetch under the lock. */
    method Get(runs: seq<seq<Option<Page>>>) returns (result: Option<seq<JiraTestCase>>)
      modifies this
      decreases |runs|, 2
      ensures old(testCases) != [] ==>
        result == Some(old(testCases)) && testCases == old(testCases) && isLocked == old(isLocked) &&
        locksAtFetch == old(locksAtFetch)
      ensures old(testCases) == [] && old(isLocked) ==>
        result == Some([]) && testCases == [] && isLocked && locksAtFetch == old(locksAtFetch)
      ensures old(testCases) == [] && !old(isLocked) ==> !isLocked
      ensures old(testCases) == [] && !old(isLocked) ==>
        (match FirstFilled(client, runs)
         case Some(k) =>
           result == Some(FetchResult(client, runs[k])) && testCases == FetchResult(client, runs[k]) &&
           locksAtFetch == old(locksAtFetch) + LockedFetches(k + 1)
         case None =>
           result == None && testCases == [] && locksAtFetch == old(locksAtFetch) + LockedFetches(|runs|))
    {
      if |testCases| > 0 {
        return Some(testCases);
      }
      if isLocked {
        return Some([]);
      }
      if |runs| == 0 {
        return None;
      }
      var _ := UpdateCache(runs[0]);
      result := Get(runs[1..]);
      assert [true] + LockedFetches(|runs| - 1) == LockedFetches(|runs|);
      if FirstFilled(client, runs[1..]).Some? {
        var k := FirstFilled(client, runs[1..]).value;
        assert runs[1..][k] == runs[k + 1];
        assert [true] + LockedFetches(k + 1) == LockedFetches(k + 2);
      }
    }

    /** `updateCache()`, with the fetch answered by `run`: the lock is held while the fetch is under way,
        and the cache takes the fetched list only when it is non-empty. */
    method UpdateCache(run: seq<Option<Page>>) returns (cases: seq<JiraTestCase>)
      modifies this
      decreases 1, 1
      ensures !isLocked && locksAtFetch == old(locksAtFetch) + [true]
      ensures FetchResult(client, run) != [] ==> testCases == FetchResult(client, run) && cases == testCases
      ensures FetchResult(client, run) == [] ==> testCases == old(testCases) && cases == []
    {
      BeginUpdate();
      locksAtFetch := locksAtFetch + [isLocked];
      var fetched, _ := GetAllTestCases(client, run);
      cases := FinishUpdate(fetched);
    }

    /** The part of `updateCache` before the fetch: the lock is taken. */
    method BeginUpdate()
      modifies this
      ensures isLocked && testCases == old(testCases) && locksAtFetch == old(locksAtFetch)
    {
      isLocked := true;
    }

    /** The part of `updateCache` after the fetch returned `fetched`: the lock is released, and a
        non-empty list replaces the cache and is returned through `get`. */
    method FinishUpdate(fetched: seq<JiraTestCase>) returns (cases: seq<JiraTestCase>)
      modifies this
      decreases 1, 0
      ensures !isLocked && locksAtFetch == old(locksAtFetch)
      ensures fetched != [] ==> testCases == fetched && cases == fetched
      ensures fetched == [] ==> testCases == old(testCases) && cases == []
    {
      isLocked := false;
      if |fetched| > 0 {
        testCases := fetched;
        var got := Get([]);
        cases := got.GetOr([]);
      } else {
        cases := [];
      }
    }
  }

  /** Two overlapping `get` calls on a new cache, in the order the event loop can run them: the first
      starts a fetch; the second, made while that fetch is under way, finds the lock held and returns
      `[]`; then the fetch answered by `run` completes the first. */
  method OverlappingGets(cfg: Config, run: seq<Option<Page>>)
    returns (whileLocked: Option<seq<JiraTestCase>>, fromFetch: seq<JiraTestCase>, cached: seq<JiraTestCase>)
    ensures whileLocked == Some([])
    ensures fromFetch == FetchResult(FromConfig(cfg), run)
    ensures cached == fromFetch
  {
    var storage := new JiraStorage(cfg);
    storage.BeginUpdate();
    whileLocked := storage.Get([run]);
    var fetched, _ := GetAllTestCases(storage.client, run);
    fromFetch := storage.FinishUpdate(fetched);
    cached := storage.testCases;
  }
}
