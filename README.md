# Beaker bug-status checker, modelled in Dafny

`checkbugs.py` reports on the Beaker bugs slated for a milestone or approved
for a release. It fetches the bugs from Bugzilla and the Gerrit changes that
mention them, prints each bug with its linked changes and their
verified/reviewed scores, and flags inconsistencies: a bug whose Bugzilla
status does not match the state of its changes, a bug whose target milestone
is not `<release>.0`, a merged change whose commit is not in the history of
HEAD, and a bug that targets the release milestone without being approved
for it.

This project models that decision logic with the I/O stripped away. Bugzilla
bugs, Gerrit query records and the output of `git rev-list HEAD` become plain
input values.

- `wrappers.dfy` (`Wrappers`): `Option`, standing for Python's `None`-or-value.
- `iterables.dfy` (`Iterables`): the hand-rolled `any`/`all` loops, and `Flags`, the generator expressions fed to them.
- `gerrit.dfy` (`Gerrit`): query records and changes. Covers `get_gerrit_changes`' filtering loop, `changes_for_bug` and the approval scores.
- `git.dfy` (`Git`): the lazily filled `_revlist` cache of `git_commit_reachable`, as a class.
- `status.dfy` (`Status`): the status rule from `main`, lifted into a function. It holds the case analysis of the rule as written, and a corrected rule (see Findings).
- `report.dfy` (`Report`): bugs, the problem lines and their texts, `abbrev_user`, the milestone check, the problems reported under one bug, and the list of unapproved bugs.

Bug and change statuses are strings, compared exactly as the script compares them.

## Model

| member | source | states |
|---|---|---|
| `Iterables.Any` | checkbugs.py:31-35 | The loop returns true exactly when some element is true, so it is false on an empty sequence. |
| `Iterables.All` | checkbugs.py:36-40 | The loop returns true exactly when every element is true, so it is true on an empty sequence. |
| `Iterables.EmptyIterable` | checkbugs.py:31-40 | `any` of nothing is false and `all` of nothing is true. |
| `Gerrit.ChangeRecords` | checkbugs.py:64-70 | The kept changes are exactly those of records whose `type` is not `stats`, and there are no more of them than records. |
| `Gerrit.ChangeRecordsAppend` | checkbugs.py:64-69 | Dropping the stats record keeps the records' order: the filter distributes over concatenation. |
| `Gerrit.GetGerritChanges` | checkbugs.py:64-70 | The appending loop builds exactly the filtered list of changes, in order. |
| `Gerrit.BugzillaIds` | checkbugs.py:74 | The ids collected from a change are exactly the ids of its tracking entries whose system is `Bugzilla`. |
| `Gerrit.LinksBugIff` | checkbugs.py:74-75 | A change is linked to a bug if and only if it has a `Bugzilla` tracking id equal to the bug id. Ids from other systems never link. |
| `Gerrit.LinkedChanges` | checkbugs.py:72-76 | The changes yielded for a bug are exactly the changes linked to it, and there are no more of them than changes. |
| `Gerrit.LinkedChangesAppend` | checkbugs.py:72-76 | The changes are yielded in their original order: the selection distributes over concatenation. |
| `Gerrit.ChangesForBug` | checkbugs.py:72-76 | The loop over the changes collects exactly the linked changes, in order. |
| `Gerrit.MaxOf` | checkbugs.py:120-123 | `max` of a non-empty sequence is one of its elements and no element exceeds it. |
| `Gerrit.Score` | checkbugs.py:120-123 | A score is 0 when the patch set has no approval of that category. A missing `approvals` list counts as empty. Otherwise the score is the value of one approval of that category, and no approval of that category has a higher value. |
| `Gerrit.ScoreIgnoresOtherKinds` | checkbugs.py:120-123 | Inserting an approval of another category anywhere in the list leaves the score unchanged. |
| `Gerrit.ScoresIndependent` | checkbugs.py:120-123 | A `CRVW` vote never changes the verified score, and a `VRIF` vote never changes the reviewed score. |
| `Git.RevListCache.constructor` | checkbugs.py:82 | The cache starts empty (`None`). |
| `Git.RevListCache.Reachable` | checkbugs.py:83-90 | When the list is `None` or empty, it is loaded from git's output. Otherwise it is left as it was. The answer is whether the sha is in the list. |
| `Git.ReachableTwice` | checkbugs.py:83-90 | Once a non-empty list is loaded, later queries are answered from it, whatever git would print. |
| `Status.StatusProblem` | checkbugs.py:129-145 | The rule as written. Its advice is one of MODIFIED, POST or ASSIGNED, never the bug's current status, and there is at most one piece of advice per bug. |
| `Status.NewOrAssignedRule` | checkbugs.py:129-134 | A NEW or ASSIGNED bug is flagged if and only if some change is not ABANDONED. It should be MODIFIED if and only if it has changes and all are MERGED. It should be POST if and only if some change is not ABANDONED and some change is not MERGED. |
| `Status.PostRule` | checkbugs.py:135-140 | A POST bug is not flagged if and only if some change is NEW. It should be MODIFIED if and only if it has changes and all are MERGED. It should be ASSIGNED if and only if no change is NEW and either it has no changes or some change is not MERGED. |
| `Status.SettledRule` | checkbugs.py:141-145 | A MODIFIED, ON_DEV, ON_QA, VERIFIED, RELEASE_PENDING or CLOSED bug should be ASSIGNED if and only if it has no changes. It should be POST if and only if some change is neither ABANDONED nor MERGED. Otherwise it is not flagged. |
| `Status.OtherStatusesRule` | checkbugs.py:129-145 | A bug in any other status is never flagged. |
| `Status.StatusAdviceCycles` | checkbugs.py:129-145 | With one abandoned and one merged change, the rule as written tells an ASSIGNED bug to be POST and a POST bug to be ASSIGNED. It accepts MODIFIED, which it never suggests. A single SUBMITTED change makes the same ASSIGNED/POST cycle. |
| `Status.IntendedStatusProblem` | checkbugs.py:129-145 | The corrected rule. Abandoned changes no longer count against "all merged", and a POST bug is left alone while some change is neither ABANDONED nor MERGED. Its advice is one of MODIFIED, POST or ASSIGNED and never the current status. |
| `Status.IntendedAgreesOnNewAndMerged` | checkbugs.py:129-145 | When every change is NEW or MERGED, the corrected rule gives the same advice as the rule as written. |
| `Status.IntendedAdviceSettles` | checkbugs.py:129-145 | Under the corrected rule, a bug moved to the advised status is no longer flagged, whatever the change statuses are. |
| `Report.MessageInjective` | checkbugs.py:132-163 | Different problems print different lines. |
| `Report.AbbrevUser` | checkbugs.py:78-80 | The result is present if and only if the user ends with `@redhat.com`. When present, the result followed by `@redhat.com` is the user. |
| `Report.AbbrevUserRoundTrip` | checkbugs.py:78-80 | Abbreviating `login@redhat.com` gives back `login`. |
| `Report.MilestoneAdviceSettles` | checkbugs.py:146-147 | A bug moved to the milestone that the problem names is no longer flagged. |
| `Report.MilestoneUnique` | checkbugs.py:146-147 | For a given (non-empty) release, the only target milestone that passes the check is `<release>.0`. |
| `Report.UnreachableCommits` | checkbugs.py:148-152 | Every reported line is an unreachable-commit line. A line names a sha if and only if some merged change has that revision and the revision is not among HEAD's commits. |
| `Report.UnreachableCommitsAppend` | checkbugs.py:148-152 | The lines follow the changes one by one and in order: the loop distributes over concatenation. So two merged unreachable changes give two lines, even when they share a revision. |
| `Report.BugProblems` | checkbugs.py:128-152 | The problems under one bug come in the printed order. First is the status line, if any, which is the advice of the rule as written on the linked changes. Next is the milestone line, present if and only if the milestone check fails. Last is one unreachable-commit line per merged linked change missing from HEAD, in the changes' order. There is never a not-approved line. |
| `Report.UnapprovedBugs` | checkbugs.py:160 | The unapproved bugs are exactly the target bugs whose id is not approved, and there are no more of them than target bugs. |
| `Report.UnapprovedBugsAppend` | checkbugs.py:160 | The unapproved bugs keep their original order: the filter distributes over concatenation. |
| `Report.UnapprovedReport` | checkbugs.py:156-163 | Nothing is reported unless a release was given. With a release, the reported bugs are exactly the target-milestone bugs that match no approved bug's id. |

## Left out

- Talking to Bugzilla (`get_bugs`, with its login assertions and query criteria), running `gerrit query` over ssh, and decoding its JSON lines. The bugs and query records are inputs.
- Tracking ids and approval values arrive as integers, so a malformed number (a `ValueError` from `int()` in the script) is not modelled. The script converts only Bugzilla tracking ids and approvals of the counted category. The model also holds tracking ids of other systems and approvals of other categories as integers, but these never affect a result.
- Running `git rev-list HEAD` and checking its exit status. Each `Git.RevListCache.Reachable` call receives the lines git would print. `Report.BugProblems` receives HEAD's commits directly.
- The search string built for Gerrit (`bug:N OR bug:M ...`). It is only a command-line argument for the remote query.
- Printing: the bug and change summary lines, the padding of columns, the terminal colouring in `problem`, and the sorting of bugs by (assignee, id) and changes by number. Sorting only changes the order of the printout. `Report.Message` gives the text of each problem line.
- Option parsing, including the error when neither `--milestone` nor `--release` is given. A release is an `Option<string>`, and an empty string counts as not given, as in the script's truthiness test.

## Findings

| source | as written | input that shows it | evidently intended | confidence | as-written member | corrected member |
|---|---|---|---|---|---|---|
| checkbugs.py:129-140 | The NEW/ASSIGNED and POST branches suggest MODIFIED only when every linked change is MERGED, so an abandoned change blocks MODIFIED. The POST branch treats only NEW changes as pending. The settled branch (141-145) instead accepts any mix of ABANDONED and MERGED changes and treats every other status as pending. | A bug with changes [ABANDONED, MERGED]: as ASSIGNED it "should be POST", and as POST it "should be ASSIGNED", so following the advice never ends. A single SUBMITTED change gives the same cycle. | Treat changes as the settled branch does. MODIFIED when the bug has a change that is not abandoned and every change is ABANDONED or MERGED. A POST bug is consistent while some change is neither. Following the advice then always leads to a status that is not flagged, for any change statuses. | medium, not executed | `Status.StatusAdviceCycles` | `Status.IntendedAdviceSettles` |
