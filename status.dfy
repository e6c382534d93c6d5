/**
 * The consistency rule between a Bugzilla bug's status and the statuses of
 * the Gerrit changes linked to it (the `if`/`elif` chain in `main`). The
 * answer is the status the bug should be moved to, or `None` when the
 * combination is consistent.
 */
module Status {
  import opened Wrappers
  import opened Iterables

  // Bugzilla statuses
  const New := "NEW"
  const Assigned := "ASSIGNED"
  const Post := "POST"
  const Modified := "MODIFIED"
  const SettledStatuses := {"MODIFIED", "ON_DEV", "ON_QA", "VERIFIED", "RELEASE_PENDING", "CLOSED"}

  // Gerrit change statuses the rule distinguishes
  const ChangeNew := "NEW"
  const Merged := "MERGED"
  const Abandoned := "ABANDONED"

  /** The suggested statuses differ from one another and from every settled status. */
  lemma AdviceNamesDistinct()
    ensures Modified != Post && Modified != Assigned && Post != Assigned
    ensures Post !in SettledStatuses && Assigned !in SettledStatuses
    ensures Modified !in {New, Assigned} && Post !in {New, Assigned}
  {
  }

  /**
   * The rule as checkbugs.py writes it. The advice is always one of MODIFIED,
   * POST or ASSIGNED, and never the status the bug already has.
   */
  function StatusProblem(bugStatus: string, changeStatuses: seq<string>): (advice: Option<string>)
    ensures advice.Some? ==> advice.value in {Modified, Post, Assigned} && advice.value != bugStatus
  {
    AdviceNamesDistinct();
    if bugStatus in {New, Assigned} && AnyTrue(Flags(changeStatuses, s => s != Abandoned)) then
      if AllTrue(Flags(changeStatuses, s => s == Merged)) then Some(Modified) else Some(Post)
    else if bugStatus == Post && !AnyTrue(Flags(changeStatuses, s => s == ChangeNew)) then
      if changeStatuses != [] && AllTrue(Flags(changeStatuses, s => s == Merged)) then Some(Modified)
      else Some(Assigned)
    else if bugStatus in SettledStatuses then
      if changeStatuses == [] then Some(Assigned)
      else if !AllTrue(Flags(changeStatuses, s => s in {Abandoned, Merged})) then Some(Post)
      else None
    else None
  }

  /** A NEW or ASSIGNED bug is flagged exactly when some change is not abandoned: as MODIFIED when
      every change is merged, as POST otherwise. */
  lemma NewOrAssignedRule(bugStatus: string, changeStatuses: seq<string>)
    requires bugStatus in {New, Assigned}
    ensures StatusProblem(bugStatus, changeStatuses).Some? <==>
      exists i | 0 <= i < |changeStatuses| :: changeStatuses[i] != Abandoned
    ensures StatusProblem(bugStatus, changeStatuses) == Some(Modified) <==>
      changeStatuses != [] && forall i | 0 <= i < |changeStatuses| :: changeStatuses[i] == Merged
    ensures StatusProblem(bugStatus, changeStatuses) == Some(Post) <==>
      (exists i | 0 <= i < |changeStatuses| :: changeStatuses[i] != Abandoned) &&
      (exists j | 0 <= j < |changeStatuses| :: changeStatuses[j] != Merged)
  {
  }

  /** A POST bug is left alone while some change is NEW; otherwise it should be MODIFIED when it has
      changes and all are merged, and ASSIGNED in every other case, including when it has none. */
  lemma PostRule(changeStatuses: seq<string>)
    ensures StatusProblem(Post, changeStatuses) == None <==>
      exists i | 0 <= i < |changeStatuses| :: changeStatuses[i] == ChangeNew
    ensures StatusProblem(Post, changeStatuses) == Some(Modified) <==>
      changeStatuses != [] && forall i | 0 <= i < |changeStatuses| :: changeStatuses[i] == Merged
    ensures StatusProblem(Post, changeStatuses) == Some(Assigned) <==>
      (forall i | 0 <= i < |changeStatuses| :: changeStatuses[i] != ChangeNew) &&
      (changeStatuses == [] || exists j | 0 <= j < |changeStatuses| :: changeStatuses[j] != Merged)
  {
  }

  /** A bug past POST should be ASSIGNED when it has no changes, POST when some change is neither
      abandoned nor merged, and is consistent otherwise. */
  lemma SettledRule(bugStatus: string, changeStatuses: seq<string>)
    requires bugStatus in SettledStatuses
    ensures StatusProblem(bugStatus, changeStatuses) == Some(Assigned) <==> changeStatuses == []
    ensures StatusProblem(bugStatus, changeStatuses) == Some(Post) <==>
      exists i | 0 <= i < |changeStatuses| :: changeStatuses[i] !in {Abandoned, Merged}
    ensures StatusProblem(bugStatus, changeStatuses) == None <==>
      changeStatuses != [] && forall i | 0 <= i < |changeStatuses| :: changeStatuses[i] in {Abandoned, Merged}
  {
  }

  /** Any status outside NEW, ASSIGNED, POST and the settled ones is never flagged. */
  lemma OtherStatusesRule(bugStatus: string, changeStatuses: seq<string>)
    requires bugStatus !in {New, Assigned, Post} && bugStatus !in SettledStatuses
    ensures StatusProblem(bugStatus, changeStatuses) == None
  {
  }

  /**
   * The as-written rule can send a bug back and forth. With one abandoned and
   * one merged change, an ASSIGNED bug should be POST and a POST bug should be
   * ASSIGNED, while MODIFIED, which the rule accepts, is never suggested. A
   * change in a status other than NEW, MERGED or ABANDONED (Gerrit's SUBMITTED)
   * does the same, because the POST branch treats only NEW changes as pending.
   */
  lemma StatusAdviceCycles()
    ensures StatusProblem(Assigned, [Abandoned, Merged]) == Some(Post)
    ensures StatusProblem(Post, [Abandoned, Merged]) == Some(Assigned)
    ensures StatusProblem(Modified, [Abandoned, Merged]) == None
    ensures StatusProblem(Assigned, ["SUBMITTED"]) == Some(Post)
    ensures StatusProblem(Post, ["SUBMITTED"]) == Some(Assigned)
  {
    var ss := [Abandoned, Merged];
    assert Flags(ss, s => s != Abandoned)[1];
    assert !Flags(ss, s => s == Merged)[0];
    var pending := Flags(ss, s => s == ChangeNew);
    assert !pending[0] && !pending[1];
    var submitted := ["SUBMITTED"];
    assert Flags(submitted, s => s != Abandoned)[0];
    assert !Flags(submitted, s => s == Merged)[0];
    assert !Flags(submitted, s => s == ChangeNew)[0];
  }

  /**
   * The rule made consistent with its settled branch. A change is live when it
   * is not abandoned, and closed when it is abandoned or merged. A bug should
   * be MODIFIED when it has a live change and every change is closed, and a
   * POST bug is left alone while some change is not closed (still pending).
   */
  function IntendedStatusProblem(bugStatus: string, changeStatuses: seq<string>): (advice: Option<string>)
    ensures advice.Some? ==> advice.value in {Modified, Post, Assigned} && advice.value != bugStatus
  {
    AdviceNamesDistinct();
    var anyLive := AnyTrue(Flags(changeStatuses, s => s != Abandoned));
    var allClosed := AllTrue(Flags(changeStatuses, s => s in {Abandoned, Merged}));
    if bugStatus in {New, Assigned} && anyLive then
      if allClosed then Some(Modified) else Some(Post)
    else if bugStatus == Post && allClosed then
      if anyLive then Some(Modified) else Some(Assigned)
    else if bugStatus in SettledStatuses then
      if changeStatuses == [] then Some(Assigned)
      else if !allClosed then Some(Post)
      else None
    else None
  }

  /** The correction changes nothing when every change is NEW or MERGED. */
  lemma IntendedAgreesOnNewAndMerged(bugStatus: string, changeStatuses: seq<string>)
    requires forall i | 0 <= i < |changeStatuses| :: changeStatuses[i] in {ChangeNew, Merged}
    ensures IntendedStatusProblem(bugStatus, changeStatuses) == StatusProblem(bugStatus, changeStatuses)
  {
  }

  /** With the corrected rule, following its advice leaves nothing to report, whatever the change statuses. */
  lemma IntendedAdviceSettles(bugStatus: string, changeStatuses: seq<string>)
    requires IntendedStatusProblem(bugStatus, changeStatuses).Some?
    ensures IntendedStatusProblem(IntendedStatusProblem(bugStatus, changeStatuses).value, changeStatuses) == None
  {
  }
}
