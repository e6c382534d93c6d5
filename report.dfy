/**
 * What checkbugs.py reports about the bugs of a release: the owner shown for
 * a bug or a change, the problems printed under each bug (status, target
 * milestone, unreachable merged commits) and the bugs that carry the target
 * milestone without being approved for the release.
 */
module Report {
  import opened Wrappers
  import opened Gerrit
  import opened Status

  /** The fields of a Bugzilla bug that the script reads. */
  datatype Bug = Bug(bugId: int, bugStatus: string, assignedTo: string, targetMilestone: string, url: string)

  /** One line printed by `problem`. */
  datatype Problem =
    | ShouldBe(status: string)
    | MilestoneShouldBe(milestone: string)
    | CommitNotReachable(sha: string)
    | NotApproved

  /** The text `problem` prints (without the `** ` prefix and terminal colouring). */
  function Message(p: Problem): string {
    match p
    case ShouldBe(s) => "Bug should be " + s
    case MilestoneShouldBe(m) => "Bug target milestone should be " + m
    case CommitNotReachable(sha) => "Commit " + sha + " not reachable from HEAD"
    case NotApproved => "Bug target milestone is set, but bug is not approved"
  }

  /** The leading words that tell the four kinds of line apart. */
  lemma MessageShape(p: Problem)
    ensures |Message(p)| > 4
    ensures Message(p)[0] == (if p.CommitNotReachable? then 'C' else 'B')
    ensures !p.CommitNotReachable? ==> Message(p)[4] == (if p.ShouldBe? then 's' else 't')
    ensures p.MilestoneShouldBe? || p.NotApproved? ==>
      |Message(p)| > 21 && Message(p)[21] == (if p.NotApproved? then 'i' else 's')
  {
    match p
    case ShouldBe(s) => ShouldBeShape(s);
    case MilestoneShouldBe(s) => MilestoneShape(s);
    case CommitNotReachable(sha) => CommitShape(sha);
    case NotApproved => NotApprovedShape();
  }

  // The four lemmas below cut each message literal at the characters that
  // MessageShape compares, so that the solver does not have to unfold a long literal.

  lemma ShouldBeShape(s: string)
    ensures Message(ShouldBe(s)) == "Bug s" + "hould be " + s
  {
  }

  lemma MilestoneShape(s: string)
    ensures Message(MilestoneShouldBe(s)) == "Bug t" + "arget milestone s" + "hould be " + s
  {
  }

  lemma CommitShape(sha: string)
    ensures Message(CommitNotReachable(sha)) == "C" + "ommit " + sha + " not reachable from HEAD"
  {
  }

  lemma NotApprovedShape()
    ensures Message(NotApproved) == "Bug target milestone i" + "s set, but bug is not approved"
  {
  }

  /** Different problems print different lines, so the report can be read back unambiguously. */
  lemma MessageInjective(p: Problem, q: Problem)
    requires Message(p) == Message(q)
    ensures p == q
  {
    MessageShape(p);
    MessageShape(q);
    var m := Message(p);
    if p.ShouldBe? && q.ShouldBe? {
      assert p.status == m[14..] == q.status;
    } else if p.MilestoneShouldBe? && q.MilestoneShouldBe? {
      assert p.milestone == m[31..] == q.milestone;
    } else if p.CommitNotReachable? && q.CommitNotReachable? {
      assert |p.sha| == |q.sha|;
      assert p.sha == m[7..7 + |p.sha|] == q.sha;
    }
  }

  const Domain := "@redhat.com"

  /** The user names an address in the Red Hat mail domain. */
  predicate HasDomain(user: string) {
    |user| >= |Domain| && user[|user| - |Domain|..] == Domain
  }

  /** `abbrev_user`: the login name of a Red Hat address, and `None` for any other address. */
  function AbbrevUser(user: string): (login: Option<string>)
    ensures login.Some? <==> HasDomain(user)
    ensures login.Some? ==> login.value + Domain == user
  {
    if HasDomain(user) then Some(user[..|user| - |Domain|]) else None
  }

  /** Abbreviation gives back the login name that was combined with the domain. */
  lemma AbbrevUserRoundTrip(login: string)
    ensures AbbrevUser(login + Domain) == Some(login)
  {
  }

  /** `if options.release`: the option was given and is not the empty string. */
  predicate ReleaseGiven(release: Option<string>) {
    release.Some? && release.value != ""
  }

  /** `'%s.0' % release` */
  function ReleaseMilestone(release: string): string {
    release + ".0"
  }

  /** The target-milestone check: a bug of a given release must target `<release>.0`. */
  function MilestoneProblem(release: Option<string>, targetMilestone: string): Option<Problem> {
    if ReleaseGiven(release) && targetMilestone != ReleaseMilestone(release.value) then
      Some(MilestoneShouldBe(ReleaseMilestone(release.value)))
    else None
  }

  /** Moving the bug to the milestone the problem names leaves nothing to report. */
  lemma MilestoneAdviceSettles(release: Option<string>, targetMilestone: string, advised: string)
    requires MilestoneProblem(release, targetMilestone) == Some(MilestoneShouldBe(advised))
    ensures MilestoneProblem(release, advised) == None
  {
  }

  /** For a given release exactly one target milestone passes the check, `<release>.0`. */
  lemma MilestoneUnique(release: Option<string>, m1: string, m2: string)
    requires ReleaseGiven(release)
    requires MilestoneProblem(release, m1) == None && MilestoneProblem(release, m2) == None
    ensures m1 == m2 == release.value + ".0"
  {
  }

  /** The statuses of the changes, in order. */
  function StatusesOf(changes: seq<Change>): (statuses: seq<string>)
    ensures |statuses| == |changes|
    ensures forall i | 0 <= i < |changes| :: statuses[i] == changes[i].status
  {
    if changes == [] then [] else [changes[0].status] + StatusesOf(changes[1..])
  }

  /** The loop over a bug's changes reporting merged commits that HEAD does not contain. */
  function UnreachableCommits(changes: seq<Change>, revlist: seq<string>): (problems: seq<Problem>)
    ensures |problems| <= |changes|
    ensures forall p :: p in problems ==> p.CommitNotReachable?
    ensures forall sha :: CommitNotReachable(sha) in problems <==>
      exists c :: c in changes && c.status == Merged && c.currentPatchSet.revision == sha && sha !in revlist
  {
    if changes == [] then []
    else
      var rest := UnreachableCommits(changes[1..], revlist);
      assert forall c :: c in changes <==> c == changes[0] || c in changes[1..];
      var sha := changes[0].currentPatchSet.revision;
      if changes[0].status == Merged && sha !in revlist then [CommitNotReachable(sha)] + rest else rest
  }

  /** One line per merged unreachable change, in the changes' order: the loop distributes over concatenation. */
  lemma {:induction false} UnreachableCommitsAppend(a: seq<Change>, b: seq<Change>, revlist: seq<string>)
    ensures UnreachableCommits(a + b, revlist) == UnreachableCommits(a, revlist) + UnreachableCommits(b, revlist)
  {
    if a != [] {
      assert (a + b)[1..] == a[1..] + b;
      UnreachableCommitsAppend(a[1..], b, revlist);
    } else {
      assert a + b == b;
    }
  }

  /** The status line for the advice of the status rule, if there is any. */
  function StatusProblems(advice: Option<string>): seq<Problem> {
    match advice
    case Some(s) => [ShouldBe(s)]
    case None => []
  }

  /** Proof step for `BugProblems`: which lines the status part holds, stated once so that its proof stays small. */
  lemma StatusProblemsLines(advice: Option<string>)
    ensures |StatusProblems(advice)| <= 1
    ensures forall p :: p in StatusProblems(advice) <==> advice.Some? && p == ShouldBe(advice.value)
  {
  }

  /** The target-milestone line of a bug, if there is one. */
  function MilestoneProblems(release: Option<string>, targetMilestone: string): seq<Problem> {
    match MilestoneProblem(release, targetMilestone)
    case Some(p) => [p]
    case None => []
  }

  /** Proof step for `BugProblems`: which lines the milestone part holds, stated once so that its proof stays small. */
  lemma MilestoneProblemsLines(release: Option<string>, targetMilestone: string)
    ensures forall p :: p in MilestoneProblems(release, targetMilestone) <==> MilestoneProblem(release, targetMilestone) == Some(p)
  {
  }

  /**
   * The problems printed under one bug, in order: the status problem, the
   * target-milestone problem, then one line per merged
   * linked change whose revision is not in `revlist`, the commits of HEAD.
   * The first clause fixes that order and the number of lines; the others say
   * what each kind of line means.
   */
  function BugProblems(bug: Bug, changes: seq<Change>, release: Option<string>, revlist: seq<string>): (problems: seq<Problem>)
    ensures problems ==
      StatusProblems(StatusProblem(bug.bugStatus, StatusesOf(LinkedChanges(changes, bug.bugId)))) +
      (MilestoneProblems(release, bug.targetMilestone) + UnreachableCommits(LinkedChanges(changes, bug.bugId), revlist))
    ensures forall i, j | 0 <= i < j < |problems| :: !(problems[i].ShouldBe? && problems[j].ShouldBe?)
    ensures forall s :: ShouldBe(s) in problems <==>
      StatusProblem(bug.bugStatus, StatusesOf(LinkedChanges(changes, bug.bugId))) == Some(s)
    ensures forall m :: MilestoneShouldBe(m) in problems <==>
      ReleaseGiven(release) && m == ReleaseMilestone(release.value) && bug.targetMilestone != m
    ensures forall sha :: CommitNotReachable(sha) in problems <==>
      exists c :: c in changes && LinksBug(c, bug.bugId) && c.status == Merged &&
        c.currentPatchSet.revision == sha && sha !in revlist
    ensures NotApproved !in problems
  {
    var linked := LinkedChanges(changes, bug.bugId);
    var advice := StatusProblem(bug.bugStatus, StatusesOf(linked));
    var status := StatusProblems(advice);
    var milestone := MilestoneProblems(release, bug.targetMilestone);
    var commits := UnreachableCommits(linked, revlist);
    StatusProblemsLines(advice);
    MilestoneProblemsLines(release, bug.targetMilestone);
    var problems := status + (milestone + commits);
    assert forall k | |status| <= k < |problems| :: !problems[k].ShouldBe? by {
      assert forall k | |status| <= k < |problems| :: problems[k] in milestone + commits;
    }
    assert forall p :: p in problems <==> p in status || p in milestone || p in commits;
    assert forall sha :: CommitNotReachable(sha) in problems <==> CommitNotReachable(sha) in commits;
    problems
  }

  /** `set(b.bug_id for b in bugs)` */
  function BugIds(bugs: seq<Bug>): set<int> {
    set b | b in bugs :: b.bugId
  }

  /** The target-milestone bugs whose id is not among `approvedIds`, in their original order. */
  function UnapprovedBugs(targetBugs: seq<Bug>, approvedIds: set<int>): (unapproved: seq<Bug>)
    ensures |unapproved| <= |targetBugs|
    ensures forall b :: b in unapproved <==> b in targetBugs && b.bugId !in approvedIds
  {
    if targetBugs == [] then []
    else
      var rest := UnapprovedBugs(targetBugs[1..], approvedIds);
      assert forall b :: b in targetBugs <==> b == targetBugs[0] || b in targetBugs[1..];
      if targetBugs[0].bugId !in approvedIds then [targetBugs[0]] + rest else rest
  }

  /** The unapproved list keeps the order of the target bugs: it distributes over concatenation. */
  lemma {:induction false} UnapprovedBugsAppend(a: seq<Bug>, b: seq<Bug>, approvedIds: set<int>)
    ensures UnapprovedBugs(a + b, approvedIds) == UnapprovedBugs(a, approvedIds) + UnapprovedBugs(b, approvedIds)
  {
    if a != [] {
      assert (a + b)[1..] == a[1..] + b;
      UnapprovedBugsAppend(a[1..], b, approvedIds);
    } else {
      assert a + b == b;
    }
  }

  /**
   * The closing check of a release run: the bugs targeting `<release>.0` that
   * are not among the approved bugs; nothing when no release was given.
   */
  function UnapprovedReport(release: Option<string>, targetBugs: seq<Bug>, approvedBugs: seq<Bug>): (unapproved: seq<Bug>)
    ensures !ReleaseGiven(release) ==> unapproved == []
    ensures forall b :: b in unapproved <==>
      ReleaseGiven(release) && b in targetBugs && forall a :: a in approvedBugs ==> a.bugId != b.bugId
  {
    if ReleaseGiven(release) then UnapprovedBugs(targetBugs, BugIds(approvedBugs)) else []
  }
}
