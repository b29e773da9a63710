/** Posting the review as a pull-request comment: the previous reviews
    (comments carrying the review tag) on the first listed page are deleted
    one by one until a request fails, then the new review is posted with
    the tag appended.  The GitHub issue-comment store is a sequence of
    comments, and a failure oracle says which requests fail. */
module CommentLifecycle {
  import opened Wrappers
  import opened Strings

  /** The hidden marker that identifies this tool's review comments. */
  const Tag: string := "<!-- open-pr-agent-review -->"

  /** The page size of the single listing request. */
  const PerPage: nat := 100

  /** An issue comment; the body may be missing (`null`). */
  datatype IssueComment = IssueComment(id: int, body: Option<string>)

  /** A comment written by an earlier review: its body, or the empty text
      when it has none, holds the tag. */
  predicate Tagged(c: IssueComment) {
    Contains(c.body.GetOr(""), Tag)
  }

  /** Which requests fail: the listing, the deletion of given comments, and
      the final post. */
  datatype Failures = Failures(listFails: bool, deleteFails: set<int>, postFails: bool)

  const NoFailures: Failures := Failures(false, {}, false)

  /** What the run logs. */
  datatype LogEntry = NoToken | DeletedOld(id: int) | DeleteFailed | Posted | PostFailed

  /** The store after a call and what was logged. */
  datatype Outcome = Outcome(comments: seq<IssueComment>, log: seq<LogEntry>)

  /** The deletion phase: the comments left, the ids deleted in order, and
      whether the phase was cut short by a failed request. */
  datatype DeleteRun = DeleteRun(kept: seq<IssueComment>, deleted: seq<int>, failed: bool)

  /** GitHub comment ids are unique within the store. */
  predicate UniqueIds(cs: seq<IssueComment>) {
    forall i, j :: 0 <= i < |cs| && 0 <= j < |cs| && cs[i].id == cs[j].id ==> i == j
  }

  predicate Distinct(ids: seq<int>) {
    forall i, j :: 0 <= i < |ids| && 0 <= j < |ids| && ids[i] == ids[j] ==> i == j
  }

  /** What the single listing request returns: the first `PerPage`
      comments, or all of them when there are fewer. */
  function Page(cs: seq<IssueComment>): (r: seq<IssueComment>)
    ensures |r| <= PerPage && r <= cs
    ensures |cs| <= PerPage ==> r == cs
    ensures |cs| > PerPage ==> |r| == PerPage
  {
    if |cs| <= PerPage then cs else cs[..PerPage]
  }

  /** The ids of the tagged comments of a listing, in listing order. */
  function TaggedIds(page: seq<IssueComment>): seq<int> {
    if page == [] then []
    else (if Tagged(page[0]) then [page[0].id] else []) + TaggedIds(page[1..])
  }

  /** How many comments of a store are tagged. */
  function CountTagged(cs: seq<IssueComment>): nat {
    if cs == [] then 0
    else (if Tagged(cs[0]) then 1 else 0) + CountTagged(cs[1..])
  }

  /** Counting tagged comments adds up over splitting the store. */
  lemma {:induction false} CountAppend(a: seq<IssueComment>, b: seq<IssueComment>)
    ensures CountTagged(a + b) == CountTagged(a) + CountTagged(b)
    decreases |a|
  {
    if a == [] {
      assert a + b == b;
    } else {
      assert (a + b)[0] == a[0];
      assert (a + b)[1..] == a[1..] + b;
      CountAppend(a[1..], b);
    }
  }

  /** A store without tagged comments counts none. */
  lemma {:induction false} NoTaggedCountsZero(cs: seq<IssueComment>)
    requires forall c :: c in cs ==> !Tagged(c)
    ensures CountTagged(cs) == 0
    decreases |cs|
  {
    if cs != [] {
      assert forall c :: c in cs[1..] ==> c in cs;
      NoTaggedCountsZero(cs[1..]);
    }
  }

  /** The store without the comments whose ids are listed; the others
      keep their order. */
  function Without(cs: seq<IssueComment>, ids: seq<int>): (r: seq<IssueComment>)
    ensures forall c :: c in r <==> c in cs && c.id !in ids
    ensures |r| <= |cs|
  {
    if cs == [] then []
    else (if cs[0].id in ids then [] else [cs[0]]) + Without(cs[1..], ids)
  }

  /** Removing comments distributes over splitting the store, so the kept
      comments stay in store order. */
  lemma {:induction false} WithoutAppend(a: seq<IssueComment>, b: seq<IssueComment>, ids: seq<int>)
    ensures Without(a + b, ids) == Without(a, ids) + Without(b, ids)
    decreases |a|
  {
    if a == [] {
      assert a + b == b;
    } else {
      assert (a + b)[0] == a[0];
      assert (a + b)[1..] == a[1..] + b;
      WithoutAppend(a[1..], b, ids);
      var head := if a[0].id in ids then [] else [a[0]];
      assert Without(a + b, ids) == head + (Without(a[1..], ids) + Without(b, ids));
    }
  }

  /** Removing no ids keeps the store as it is. */
  lemma {:induction false} WithoutNothing(cs: seq<IssueComment>)
    ensures Without(cs, []) == cs
    decreases |cs|
  {
    if cs != [] {
      WithoutNothing(cs[1..]);
    }
  }

  /** Removing one id and then a list of ids is removing them all at once. */
  lemma {:induction false} WithoutThen(cs: seq<IssueComment>, x: int, ids: seq<int>)
    ensures Without(Without(cs, [x]), ids) == Without(cs, [x] + ids)
    decreases |cs|
  {
    if cs != [] {
      WithoutThen(cs[1..], x, ids);
      var head := if cs[0].id == x then [] else [cs[0]];
      assert Without(cs, [x]) == head + Without(cs[1..], [x]);
      WithoutAppend(head, Without(cs[1..], [x]), ids);
    }
  }

  /** The store after one comment is deleted. */
  function RemoveId(cs: seq<IssueComment>, id: int): (r: seq<IssueComment>)
    ensures forall c :: c in r <==> c in cs && c.id != id
    ensures |r| <= |cs|
  {
    Without(cs, [id])
  }

  /** Deleting a comment keeps the order of the rest: it distributes over
      splitting the store, and on one comment it removes exactly that
      comment's id. */
  lemma RemoveIdAppend(a: seq<IssueComment>, b: seq<IssueComment>, id: int)
    ensures RemoveId(a + b, id) == RemoveId(a, id) + RemoveId(b, id)
    ensures forall c :: RemoveId([c], id) == if c.id == id then [] else [c]
  {
    WithoutAppend(a, b, [id]);
  }

  /** The deletion loop over a listing: every tagged comment is deleted in
      turn, and the first failed deletion ends the loop.  The deleted ids
      are the longest prefix of the tagged ids whose deletions succeed, and
      the store loses exactly those comments. */
  function DeleteTagged(page: seq<IssueComment>, cs: seq<IssueComment>, failures: Failures): (r: DeleteRun)
    ensures r.deleted <= TaggedIds(page)
    ensures forall i :: 0 <= i < |r.deleted| ==> r.deleted[i] !in failures.deleteFails
    ensures r.failed <==> |r.deleted| < |TaggedIds(page)|
    ensures r.failed ==> TaggedIds(page)[|r.deleted|] in failures.deleteFails
    ensures forall c :: c in r.kept <==> c in cs && c.id !in r.deleted
    ensures |r.kept| <= |cs|
    decreases |page|
  {
    if page == [] then DeleteRun(cs, [], false)
    else if !Tagged(page[0]) then DeleteTagged(page[1..], cs, failures)
    else if page[0].id in failures.deleteFails then DeleteRun(cs, [], true)
    else
      var rest := DeleteTagged(page[1..], RemoveId(cs, page[0].id), failures);
      DeleteRun(rest.kept, [page[0].id] + rest.deleted, rest.failed)
  }

  /** The deletion loop keeps the surviving comments in store order: the
      store left is the old one with exactly the deleted ids filtered out. */
  lemma {:induction false} DeleteTaggedKeepsOrder(page: seq<IssueComment>, cs: seq<IssueComment>, failures: Failures)
    ensures var r := DeleteTagged(page, cs, failures); r.kept == Without(cs, r.deleted)
    decreases |page|
  {
    if page == [] || (Tagged(page[0]) && page[0].id in failures.deleteFails) {
      WithoutNothing(cs);
    } else if !Tagged(page[0]) {
      DeleteTaggedKeepsOrder(page[1..], cs, failures);
    } else {
      var rest := DeleteTagged(page[1..], RemoveId(cs, page[0].id), failures);
      DeleteTaggedKeepsOrder(page[1..], RemoveId(cs, page[0].id), failures);
      WithoutThen(cs, page[0].id, rest.deleted);
    }
  }

  /** The optional clean-up phase: nothing when it is switched off; when the
      listing fails nothing is deleted and the failure is reported;
      otherwise the deletion loop runs over the first page. */
  function DeleteOld(cs: seq<IssueComment>, failures: Failures, deleteOld: bool): (r: DeleteRun)
    ensures r.deleted <= TaggedIds(Page(cs))
    ensures forall i :: 0 <= i < |r.deleted| ==> r.deleted[i] !in failures.deleteFails
    ensures forall c :: c in r.kept <==> c in cs && c.id !in r.deleted
    ensures r.kept == Without(cs, r.deleted)
    ensures |r.kept| <= |cs|
    ensures !deleteOld ==> r == DeleteRun(cs, [], false)
    ensures deleteOld && failures.listFails ==> r == DeleteRun(cs, [], true)
    ensures deleteOld && !failures.listFails && r.failed ==>
      |r.deleted| < |TaggedIds(Page(cs))| && TaggedIds(Page(cs))[|r.deleted|] in failures.deleteFails
    ensures deleteOld && !failures.listFails ==> (r.failed <==> |r.deleted| < |TaggedIds(Page(cs))|)
  {
    WithoutNothing(cs);
    if !deleteOld then DeleteRun(cs, [], false)
    else if failures.listFails then DeleteRun(cs, [], true)
    else DeleteTaggedKeepsOrder(Page(cs), cs, failures); DeleteTagged(Page(cs), cs, failures)
  }

  /** One log line per deleted comment, then a warning if the phase
      failed. */
  function DeleteLog(run: DeleteRun): (r: seq<LogEntry>)
    ensures |r| == |run.deleted| + (if run.failed then 1 else 0)
    ensures forall i :: 0 <= i < |run.deleted| ==> r[i] == DeletedOld(run.deleted[i])
    ensures run.failed ==> r[|r| - 1] == DeleteFailed
  {
    seq(|run.deleted|, i requires 0 <= i < |run.deleted| => DeletedOld(run.deleted[i]))
      + (if run.failed then [DeleteFailed] else [])
  }

  /** The text of the posted comment: the review, a blank line, the tag. */
  function TaggedBody(review: string): (r: string)
    ensures |r| == |review| + 2 + |Tag|
    ensures r[..|review|] == review && r[|review|..|review| + 2] == "\n\n" && r[|review| + 2..] == Tag
  {
    review + "\n\n" + Tag
  }

  /** `post_github_comment`: without a token nothing happens; otherwise the
      optional clean-up runs and the post is always attempted, its failure
      being logged rather than raised.  `newId` is the id GitHub gives the
      new comment. */
  function PostReviewComment(review: string, token: string, deleteOld: bool,
                             cs: seq<IssueComment>, failures: Failures, newId: int): (r: Outcome)
    ensures token == "" ==> r == Outcome(cs, [NoToken])
    ensures token != "" ==> |r.log| > 0 && r.log[|r.log| - 1] == (if failures.postFails then PostFailed else Posted)
    ensures token != "" && !failures.postFails ==>
      |r.comments| > 0 && r.comments[|r.comments| - 1] == IssueComment(newId, Some(TaggedBody(review)))
    ensures |r.comments| <= |cs| + (if token != "" && !failures.postFails then 1 else 0)
    ensures forall c :: c in cs && c !in r.comments ==> c.id in TaggedIds(Page(cs))
  {
    if token == "" then Outcome(cs, [NoToken])
    else
      var run := DeleteOld(cs, failures, deleteOld);
      if failures.postFails then Outcome(run.kept, DeleteLog(run) + [PostFailed])
      else Outcome(run.kept + [IssueComment(newId, Some(TaggedBody(review)))], DeleteLog(run) + [Posted])
  }

  // ---------------------------------------------------------------------
  // Tagged ids of a listing
  // ---------------------------------------------------------------------

  /** A tagged comment of the listing contributes its id. */
  lemma {:induction false} TaggedIdsHas(page: seq<IssueComment>, i: nat)
    requires i < |page| && Tagged(page[i])
    ensures page[i].id in TaggedIds(page)
    decreases i
  {
    if i > 0 {
      TaggedIdsHas(page[1..], i - 1);
      assert page[1..][i - 1] == page[i];
    }
  }

  /** An id that no tagged comment of the listing carries is not among the
      tagged ids. */
  lemma {:induction false} TaggedIdsExclude(page: seq<IssueComment>, x: int)
    requires forall i :: 0 <= i < |page| && Tagged(page[i]) ==> page[i].id != x
    ensures x !in TaggedIds(page)
    decreases |page|
  {
    if page != [] {
      assert forall i :: 0 <= i < |page[1..]| ==> page[1..][i] == page[i + 1];
      TaggedIdsExclude(page[1..], x);
    }
  }

  /** With unique comment ids, the tagged ids are distinct. */
  lemma {:induction false} TaggedIdsDistinct(page: seq<IssueComment>)
    requires UniqueIds(page)
    ensures Distinct(TaggedIds(page))
    decreases |page|
  {
    if page != [] {
      var tail := page[1..];
      assert forall i :: 0 <= i < |tail| ==> tail[i] == page[i + 1];
      TaggedIdsDistinct(tail);
      if Tagged(page[0]) {
        TaggedIdsExclude(tail, page[0].id);
      }
    }
  }

  // ---------------------------------------------------------------------
  // Properties of a call
  // ---------------------------------------------------------------------

  /** The posted comment carries the tag, so the next run finds it. */
  lemma PostedIsTagged(review: string, newId: int)
    ensures Tagged(IssueComment(newId, Some(TaggedBody(review))))
  {
    ContainsSuffix(review + "\n\n", Tag);
  }

  /** Only earlier reviews on the first page are ever removed: every
      untagged comment, and every comment beyond the first page, is still
      there afterwards. */
  lemma OnlyListedReviewsRemoved(review: string, token: string, deleteOld: bool,
                                 cs: seq<IssueComment>, failures: Failures, newId: int)
    requires UniqueIds(cs)
    ensures var r := PostReviewComment(review, token, deleteOld, cs, failures, newId);
      forall i :: 0 <= i < |cs| && cs[i] !in r.comments ==> i < PerPage && Tagged(cs[i])
  {
    var r := PostReviewComment(review, token, deleteOld, cs, failures, newId);
    var page := Page(cs);
    forall i | 0 <= i < |cs| && cs[i] !in r.comments
      ensures i < |page| && Tagged(cs[i])
    {
      if !(i < |page| && Tagged(cs[i])) {
        assert forall j :: 0 <= j < |page| && Tagged(page[j]) ==> page[j].id != cs[i].id by {
          forall j | 0 <= j < |page| && Tagged(page[j])
            ensures page[j].id != cs[i].id
          {
            assert page[j] == cs[j];
          }
        }
        TaggedIdsExclude(page, cs[i].id);
        assert false;
      }
    }
  }

  /** Without clean-up, the existing comments are all kept, in order, and
      the only log line is the post's. */
  lemma NoCleanupKeepsAll(review: string, token: string, cs: seq<IssueComment>, failures: Failures, newId: int)
    requires token != ""
    ensures var r := PostReviewComment(review, token, false, cs, failures, newId);
      r.comments[..|cs|] == cs && r.log == [if failures.postFails then PostFailed else Posted]
  {
  }

  /** When every request succeeds and all comments fit on one page, the
      run deletes every earlier review, in listing order, and leaves
      exactly one tagged comment: the new one. */
  lemma CleanRunLeavesOneReview(review: string, token: string, cs: seq<IssueComment>, newId: int)
    requires token != "" && |cs| <= PerPage
    ensures var r := PostReviewComment(review, token, true, cs, NoFailures, newId);
      && IssueComment(newId, Some(TaggedBody(review))) in r.comments
      && (forall c :: c in r.comments ==> (Tagged(c) <==> c == IssueComment(newId, Some(TaggedBody(review)))))
      && CountTagged(r.comments) == 1
      && r.log == DeleteLog(DeleteRun([], TaggedIds(cs), false)) + [Posted]
  {
    var posted := IssueComment(newId, Some(TaggedBody(review)));
    var run := DeleteOld(cs, NoFailures, true);
    assert Page(cs) == cs;
    assert !run.failed;
    assert run.deleted == TaggedIds(cs);
    PostedIsTagged(review, newId);
    forall c | c in run.kept
      ensures !Tagged(c)
    {
      var i :| 0 <= i < |cs| && cs[i] == c;
      if Tagged(c) {
        TaggedIdsHas(cs, i);
        assert false;
      }
    }
    NoTaggedCountsZero(run.kept);
    CountAppend(run.kept, [posted]);
    assert [posted][1..] == [];
  }

  /** A failed deletion ends the clean-up: with the first failing deletion
      at position `k` of the tagged ids, exactly the `k` reviews before it
      are deleted and logged and have left the store, the failure is
      logged, and the post is still attempted.  `newId` is fresh, as
      GitHub's ids are. */
  lemma FirstFailedDeletion(review: string, token: string, cs: seq<IssueComment>,
                            failures: Failures, newId: int, k: nat)
    requires token != "" && !failures.listFails
    requires k < |TaggedIds(Page(cs))| && TaggedIds(Page(cs))[k] in failures.deleteFails
    requires forall m :: 0 <= m < k ==> TaggedIds(Page(cs))[m] !in failures.deleteFails
    requires forall c :: c in cs ==> c.id != newId
    ensures var r := PostReviewComment(review, token, true, cs, failures, newId);
      r.log == DeleteLog(DeleteRun([], TaggedIds(Page(cs))[..k], true))
        + [if failures.postFails then PostFailed else Posted]
    ensures var r := PostReviewComment(review, token, true, cs, failures, newId);
      forall c :: c in cs && c.id in TaggedIds(Page(cs))[..k] ==> c !in r.comments
  {
    var t := TaggedIds(Page(cs));
    var run := DeleteOld(cs, failures, true);
    assert forall i :: 0 <= i < |run.deleted| ==> run.deleted[i] == t[i];
    assert |run.deleted| <= k;
    assert run.failed;
    assert |run.deleted| == k;
    assert run.deleted == t[..k];
  }

  /** The reviews from the failing one on are not deleted, so they stay in
      the store. */
  lemma FailedDeletionKeepsRest(review: string, token: string, cs: seq<IssueComment>,
                                failures: Failures, newId: int, k: nat)
    requires UniqueIds(cs)
    requires k < |TaggedIds(Page(cs))| && TaggedIds(Page(cs))[k] in failures.deleteFails
    ensures var r := PostReviewComment(review, token, true, cs, failures, newId);
      forall c :: c in cs && c.id in TaggedIds(Page(cs))[k..] ==> c in r.comments
  {
    var t := TaggedIds(Page(cs));
    var run := DeleteOld(cs, failures, true);
    assert forall i :: 0 <= i < |run.deleted| ==> run.deleted[i] == t[i];
    assert |run.deleted| <= k;
    TaggedIdsDistinct(Page(cs));
    forall c | c in cs && c.id in t[k..]
      ensures c.id !in run.deleted
    {
      var m :| k <= m < |t| && t[m] == c.id;
      assert forall n :: 0 <= n < |run.deleted| ==> run.deleted[n] == t[n] != t[m];
    }
  }

  /** When the listing fails nothing is deleted, the failure is logged, and
      the post still goes ahead. */
  lemma ListFailureStillPosts(review: string, token: string, cs: seq<IssueComment>, failures: Failures, newId: int)
    requires token != "" && failures.listFails
    ensures var r := PostReviewComment(review, token, true, cs, failures, newId);
      && r.comments[..|cs|] == cs
      && r.log == [DeleteFailed, if failures.postFails then PostFailed else Posted]
  {
  }
}
