/**
 * Gerrit query results as checkbugs.py sees them: the JSON records of
 * `gerrit query --format=json --current-patch-set`, the tracking ids that
 * link a change to a Bugzilla bug, and the approval scores of a patch set.
 * Records arrive already decoded (the ssh call and `json.loads` are not part
 * of this model); numeric fields that the script passes through `int()` are
 * held as integers.
 */
module Gerrit {
  import opened Wrappers

  const BugzillaSystem := "Bugzilla"
  const StatsType := "stats"
  const VerifiedType := "VRIF"
  const ReviewedType := "CRVW"

  /** One entry of a change's `trackingIds`: the tracking system and the id there. */
  datatype TrackingId = TrackingId(system: string, id: int)

  /** One approval on a patch set: its category (`type`) and its score (`value`). */
  datatype Approval = Approval(kind: string, value: int)

  /** The current patch set; `approvals` is absent from the JSON when nobody has voted. */
  datatype PatchSet = PatchSet(revision: string, approvals: Option<seq<Approval>>)

  /** The fields of a Gerrit change that the script reads. */
  datatype Change = Change(
    number: int,
    status: string,
    url: string,
    ownerEmail: string,
    trackingIds: seq<TrackingId>,
    currentPatchSet: PatchSet)

  /**
   * One JSON line of query output: its optional `type` field and, for a change,
   * the change's fields; `change` is ignored when the record is the stats line.
   */
  datatype QueryRecord = QueryRecord(recordType: Option<string>, change: Change)

  /** The trailing summary line of a query, which the script skips. */
  predicate IsStats(record: QueryRecord) {
    record.recordType == Some(StatsType)
  }

  // ---------------------------------------------------------------------------
  // get_gerrit_changes: keep every record that is not the stats line

  /** The changes among `records`, in their order. */
  function ChangeRecords(records: seq<QueryRecord>): (changes: seq<Change>)
    ensures |changes| <= |records|
    ensures forall c :: c in changes <==>
      exists i | 0 <= i < |records| :: !IsStats(records[i]) && records[i].change == c
  {
    if records == [] then []
    else
      var rest := ChangeRecords(records[1..]);
      assert forall i | 1 <= i < |records| :: records[i] == records[1..][i - 1];
      if IsStats(records[0]) then rest else [records[0].change] + rest
  }

  /** Filtering the query output keeps the order of the records: it distributes over concatenation. */
  lemma {:induction false} ChangeRecordsAppend(a: seq<QueryRecord>, b: seq<QueryRecord>)
    ensures ChangeRecords(a + b) == ChangeRecords(a) + ChangeRecords(b)
  {
    if a != [] {
      assert (a + b)[1..] == a[1..] + b;
      ChangeRecordsAppend(a[1..], b);
    } else {
      assert a + b == b;
    }
  }

  /** The loop of `get_gerrit_changes` that appends every non-stats record to `retval`. */
  method GetGerritChanges(records: seq<QueryRecord>) returns (changes: seq<Change>)
    ensures changes == ChangeRecords(records)
  {
    changes := [];
    for i := 0 to |records|
      invariant changes == ChangeRecords(records[..i])
    {
      ChangeRecordsAppend(records[..i], [records[i]]);
      assert records[..i + 1] == records[..i] + [records[i]];
      if IsStats(records[i]) {
        continue;
      }
      changes := changes + [records[i].change];
    }
    assert records[..|records|] == records;
  }

  // ---------------------------------------------------------------------------
  // changes_for_bug

  /** `[int(t['id']) for t in change['trackingIds'] if t['system'] == 'Bugzilla']` */
  function BugzillaIds(trackingIds: seq<TrackingId>): (ids: seq<int>)
    ensures |ids| <= |trackingIds|
    ensures forall id :: id in ids <==>
      exists t :: t in trackingIds && t.system == BugzillaSystem && t.id == id
  {
    if trackingIds == [] then []
    else
      var rest := BugzillaIds(trackingIds[1..]);
      assert forall t :: t in trackingIds <==> t == trackingIds[0] || t in trackingIds[1..];
      if trackingIds[0].system == BugzillaSystem then [trackingIds[0].id] + rest else rest
  }

  /** The change carries a Bugzilla tracking id equal to `bugId`. */
  predicate LinksBug(change: Change, bugId: int) {
    bugId in BugzillaIds(change.trackingIds)
  }

  /** A change is linked to a bug exactly through a tracking id of system Bugzilla with that number;
      ids in other tracking systems never link. */
  lemma LinksBugIff(change: Change, bugId: int)
    ensures LinksBug(change, bugId) <==>
      exists t :: t in change.trackingIds && t.system == BugzillaSystem && t.id == bugId
  {
  }

  /** The changes linked to `bugId`, in their original order. */
  function LinkedChanges(changes: seq<Change>, bugId: int): (linked: seq<Change>)
    ensures |linked| <= |changes|
    ensures forall c :: c in linked <==> c in changes && LinksBug(c, bugId)
  {
    if changes == [] then []
    else
      var rest := LinkedChanges(changes[1..], bugId);
      assert forall c :: c in changes <==> c == changes[0] || c in changes[1..];
      if LinksBug(changes[0], bugId) then [changes[0]] + rest else rest
  }

  /** Selecting the linked changes keeps their order: it distributes over concatenation. */
  lemma {:induction false} LinkedChangesAppend(a: seq<Change>, b: seq<Change>, bugId: int)
    ensures LinkedChanges(a + b, bugId) == LinkedChanges(a, bugId) + LinkedChanges(b, bugId)
  {
    if a != [] {
      assert (a + b)[1..] == a[1..] + b;
      LinkedChangesAppend(a[1..], b, bugId);
    } else {
      assert a + b == b;
    }
  }

  /** The generator `changes_for_bug`, collected into a list as `main` does. */
  method ChangesForBug(changes: seq<Change>, bugId: int) returns (linked: seq<Change>)
    ensures linked == LinkedChanges(changes, bugId)
  {
    linked := [];
    for i := 0 to |changes|
      invariant linked == LinkedChanges(changes[..i], bugId)
    {
      LinkedChangesAppend(changes[..i], [changes[i]], bugId);
      assert changes[..i + 1] == changes[..i] + [changes[i]];
      var changeBugs := BugzillaIds(changes[i].trackingIds);
      if bugId in changeBugs {
        linked := linked + [changes[i]];
      }
    }
    assert changes[..|changes|] == changes;
  }

  // ---------------------------------------------------------------------------
  // Approval scores of the current patch set

  /** `patch_set.get('approvals', [])` */
  function Approvals(patchSet: PatchSet): seq<Approval> {
    patchSet.approvals.GetOr([])
  }

  /** The values of the approvals of category `kind`. */
  function ValuesOfKind(approvals: seq<Approval>, kind: string): (values: seq<int>)
    ensures forall v :: v in values <==> exists a :: a in approvals && a.kind == kind && a.value == v
  {
    if approvals == [] then []
    else
      var rest := ValuesOfKind(approvals[1..], kind);
      assert forall a :: a in approvals <==> a == approvals[0] || a in approvals[1..];
      if approvals[0].kind == kind then [approvals[0].value] + rest else rest
  }

  /** The largest element of a non-empty sequence (Python's `max`). */
  function MaxOf(xs: seq<int>): (m: int)
    requires xs != []
    ensures m in xs
    ensures forall x :: x in xs ==> x <= m
  {
    if |xs| == 1 then xs[0]
    else
      var rest := MaxOf(xs[1..]);
      assert forall x :: x in xs <==> x == xs[0] || x in xs[1..];
      if xs[0] < rest then rest else xs[0]
  }

  /**
   * `max(chain([None], values)) or 0`: under Python 2 ordering `None` is below
   * every integer, so the maximum is `None` exactly when there are no values,
   * and `or 0` turns that into 0 (and leaves a maximum of 0 at 0).
   */
  function Score(patchSet: PatchSet, kind: string): (score: int)
    ensures (forall a :: a in Approvals(patchSet) ==> a.kind != kind) ==> score == 0
    ensures (exists a :: a in Approvals(patchSet) && a.kind == kind) ==>
      (exists a :: a in Approvals(patchSet) && a.kind == kind && a.value == score) &&
      (forall a :: a in Approvals(patchSet) && a.kind == kind ==> a.value <= score)
  {
    var values := ValuesOfKind(Approvals(patchSet), kind);
    assert forall a :: a in Approvals(patchSet) && a.kind == kind ==> a.value in values;
    if values == [] then 0 else MaxOf(values)
  }

  /** The verified score shown as the first number of `(verified/reviewed)`. */
  function VerifiedScore(patchSet: PatchSet): int {
    Score(patchSet, VerifiedType)
  }

  /** The code-review score shown as the second number of `(verified/reviewed)`. */
  function ReviewedScore(patchSet: PatchSet): int {
    Score(patchSet, ReviewedType)
  }

  /** An approval of another category never changes a score, wherever it stands in the list. */
  lemma ScoreIgnoresOtherKinds(revision: string, before: seq<Approval>, x: Approval, after: seq<Approval>, kind: string)
    requires x.kind != kind
    ensures Score(PatchSet(revision, Some(before + [x] + after)), kind) ==
            Score(PatchSet(revision, Some(before + after)), kind)
  {
  }

  /** A code-review vote never moves the verified score, and a verification vote never moves the review score. */
  lemma ScoresIndependent(revision: string, before: seq<Approval>, x: Approval, after: seq<Approval>)
    ensures x.kind == ReviewedType ==>
      VerifiedScore(PatchSet(revision, Some(before + [x] + after))) ==
      VerifiedScore(PatchSet(revision, Some(before + after)))
    ensures x.kind == VerifiedType ==>
      ReviewedScore(PatchSet(revision, Some(before + [x] + after))) ==
      ReviewedScore(PatchSet(revision, Some(before + after)))
  {
  }
}
