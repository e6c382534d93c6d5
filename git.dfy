/**
 * `git_commit_reachable`: whether a commit is in the history of HEAD, answered
 * from a module-level list of commit ids that is filled lazily from the output
 * of `git rev-list HEAD`. Running git is not part of this model: each call
 * receives the lines that git would print if it were run at that moment.
 */
module Git {
  import opened Wrappers

  /** The module-global `_revlist`: `None` until git has been run. */
  class RevListCache {
    var revlist: Option<seq<string>>

    /** The list is considered missing while it is `None` or empty (`if not _revlist`). */
    predicate NeedsLoad()
      reads this
    {
      revlist == None || revlist == Some([])
    }

    constructor ()
      ensures revlist == None && NeedsLoad()
    {
      revlist := None;
    }

    /**
     * Loads the commit list when it is missing (git is then run again, even if
     * it printed nothing the previous time) and reports whether `sha` is in it.
     */
    method Reachable(sha: string, revListOutput: seq<string>) returns (reachable: bool)
      modifies this
      ensures old(NeedsLoad()) ==> revlist == Some(revListOutput)
      ensures !old(NeedsLoad()) ==> revlist == old(revlist)
      ensures revlist.Some? && (reachable <==> sha in revlist.value)
    {
      if NeedsLoad() {
        revlist := Some(revListOutput);
      }
      reachable := sha in revlist.value;
    }
  }

  /** Once a non-empty list is loaded, later answers come from it and git is not consulted again. */
  method ReachableTwice(cache: RevListCache, sha1: string, out1: seq<string>, sha2: string, out2: seq<string>)
    returns (r1: bool, r2: bool)
    requires cache.NeedsLoad()
    requires out1 != []
    modifies cache
    ensures r1 <==> sha1 in out1
    ensures r2 <==> sha2 in out1
  {
    r1 := cache.Reachable(sha1, out1);
    r2 := cache.Reachable(sha2, out2);
  }
}
