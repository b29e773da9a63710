/** The review payload builder: turns an agent's structured review
    (decision, summary, ordered comments) into the payload submitted to
    GitHub's pull-request review API (event, body, optional inline
    comments). */
module PostReview {
  import opened Wrappers
  import opened Strings

  /** The `line` field of an agent comment as JSON decoding leaves it.
      Python's `isinstance(line, int)` also holds for `true` and `false`,
      so booleans are kept apart from everything else (`null`, floats,
      strings, lists, objects), which lands in `OtherLine`. */
  datatype Line = NoLine | IntLine(n: int) | BoolLine(b: bool) | OtherLine

  /** `isinstance(line, int)`. */
  predicate IsInt(l: Line) {
    l.IntLine? || l.BoolLine?
  }

  /** One comment of the agent's review; `None` stands for a key that is
      missing (or, for `path`, `null`). */
  datatype ReviewComment = ReviewComment(path: Option<string>, line: Line, comment: Option<string>)

  /** The agent's structured review. An absent, `null` or empty
      `comments` list is the empty sequence. */
  datatype ReviewOutput = ReviewOutput(decision: Option<string>, summary: Option<string>, comments: seq<ReviewComment>)

  /** An inline review comment anchored to a file and line. */
  datatype InlineComment = InlineComment(path: string, line: Line, side: string, body: string)

  /** The review payload; `comments` is `None` when the key is left out. */
  datatype ReviewPayload = ReviewPayload(event: string, body: string, comments: Option<seq<InlineComment>>)

  const DefaultDecision: string := "COMMENT"
  const Approve: string := "APPROVE"
  const RightSide: string := "RIGHT"
  const FallbackSummary: string := "Automated review result."
  const NotesHeader: string := "Additional notes:"
  const DowngradeNotice: string := "_" + "Auto-review would approve, but this token cannot submit approvals." + "_"

  /** The comment text, stripped (a missing text is the empty string). */
  function CommentText(c: ReviewComment): string {
    Strip(c.comment.GetOr(""))
  }

  /** A comment survives the filter when its path is non-empty and its
      stripped text is non-empty; the path itself is not stripped. */
  predicate Usable(c: ReviewComment) {
    c.path.Some? && c.path.value != "" && CommentText(c) != ""
  }

  predicate RoutedInline(c: ReviewComment) {
    Usable(c) && IsInt(c.line)
  }

  predicate RoutedToNotes(c: ReviewComment) {
    Usable(c) && !IsInt(c.line)
  }

  function ToInline(c: ReviewComment): InlineComment
    requires Usable(c)
  {
    InlineComment(c.path.value, c.line, RightSide, CommentText(c))
  }

  function ToNote(c: ReviewComment): string
    requires Usable(c)
  {
    "- " + c.path.value + ": " + CommentText(c)
  }

  /** The inline entries, in comment order. Every entry sits on the new
      side of the diff, has an integer line, a non-empty path and a
      non-empty stripped body. */
  function InlineEntries(cs: seq<ReviewComment>): (r: seq<InlineComment>)
    ensures forall k :: 0 <= k < |r| ==>
      && r[k].side == RightSide && IsInt(r[k].line) && r[k].path != ""
      && r[k].body != "" && IsStripped(r[k].body)
    ensures |r| <= |cs|
  {
    if |cs| == 0 then []
    else
      var rest := InlineEntries(cs[1..]);
      if RoutedInline(cs[0]) then
        StripIsStripped(cs[0].comment.GetOr(""));
        [ToInline(cs[0])] + rest
      else rest
  }

  /** The "Additional notes" bullets, in comment order. Every bullet ends
      with a non-whitespace character. */
  function GeneralNotes(cs: seq<ReviewComment>): (r: seq<string>)
    ensures forall k :: 0 <= k < |r| ==> |r[k]| > 0 && !IsSpace(r[k][|r[k]| - 1])
    ensures |r| <= |cs|
  {
    if |cs| == 0 then []
    else
      var rest := GeneralNotes(cs[1..]);
      if RoutedToNotes(cs[0]) then
        var note := ToNote(cs[0]);
        var text := CommentText(cs[0]);
        StripIsStripped(cs[0].comment.GetOr(""));
        assert note[|note| - 1] == text[|text| - 1];
        [note] + rest
      else rest
  }

  /** The first line of the body: the stripped summary, or the fallback
      sentence when the summary is blank or missing. Never empty and never
      padded with whitespace. */
  function Headline(summary: Option<string>): (h: string)
    ensures h != "" && IsStripped(h)
    ensures AllSpace(summary.GetOr("")) ==> h == FallbackSummary
    ensures !AllSpace(summary.GetOr("")) ==> h == Strip(summary.GetOr(""))
  {
    var s := Strip(summary.GetOr(""));
    StripIsStripped(summary.GetOr(""));
    StripEmptyIff(summary.GetOr(""));
    FallbackIsStripped();
    if s == "" then FallbackSummary else s
  }

  lemma FallbackIsStripped()
    ensures FallbackSummary != "" && IsStripped(FallbackSummary)
  {
    var f := FallbackSummary;
    assert f[0] == 'A' && f[|f| - 1] == '.';
  }

  /** The lines of the body before they are joined with newlines. */
  function BodyLines(o: ReviewOutput): seq<string> {
    var notes := GeneralNotes(o.comments);
    [Headline(o.summary)] + (if notes == [] then [] else ["", NotesHeader] + notes)
  }

  /** The notes block appended after the headline, or nothing. */
  function NotesSection(notes: seq<string>): string {
    if notes == [] then "" else "\n\n" + NotesHeader + "\n" + Join(notes, "\n")
  }

  /** Whether the payload turns an approval into a plain comment. */
  predicate Downgrades(o: ReviewOutput, allowApprovals: bool) {
    o.decision.GetOr(DefaultDecision) == Approve && !allowApprovals
  }

  /** `OPEN_PR_AGENT_ALLOW_APPROVALS`, lower-cased, is one of "1", "true",
      "yes"; an unset variable reads as the empty string. */
  function AllowApprovals(env: string): (r: bool)
    ensures r <==> env == "1" || EqualsIgnoringCase(env, "true") || EqualsIgnoringCase(env, "yes")
  {
    LowerMatches(env, "1");
    LowerMatches(env, "true");
    LowerMatches(env, "yes");
    OneIgnoringCase(env);
    AsciiLower(env) in {"1", "true", "yes"}
  }

  /** `build_review_payload`, with the environment check turned into the
      `allowApprovals` parameter. Both `strip()` calls on the body are
      applied as `build_review_payload` applies them; the contract shows they never
      change anything. */
  function BuildReviewPayload(o: ReviewOutput, allowApprovals: bool): (p: ReviewPayload)
    ensures Downgrades(o, allowApprovals) ==> p.event == DefaultDecision
    ensures !Downgrades(o, allowApprovals) ==> p.event == o.decision.GetOr(DefaultDecision)
    ensures !Downgrades(o, allowApprovals) ==> p.body == Headline(o.summary) + NotesSection(GeneralNotes(o.comments))
    ensures Downgrades(o, allowApprovals) ==>
      p.body == Headline(o.summary) + NotesSection(GeneralNotes(o.comments)) + "\n\n" + DowngradeNotice
    ensures p.comments.Some? <==> exists c :: c in o.comments && RoutedInline(c)
    ensures p.comments.Some? ==> |p.comments.value| > 0 && p.comments.value == InlineEntries(o.comments)
  {
    var decision := o.decision.GetOr(DefaultDecision);
    var inline := InlineEntries(o.comments);
    var body := RenderBody(o);
    var comments := if |inline| > 0 then Some(inline) else None;
    InlineNonEmptyIff(o.comments);
    if decision == Approve && !allowApprovals then
      DowngradedBodyIsStripped(body);
      ReviewPayload(DefaultDecision, Strip(body + "\n\n" + DowngradeNotice), comments)
    else
      ReviewPayload(decision, body, comments)
  }

  /** `"\n".join(body_lines).strip()`: the headline followed by the notes
      section; the `strip()` never removes anything. */
  function RenderBody(o: ReviewOutput): (body: string)
    ensures body == Headline(o.summary) + NotesSection(GeneralNotes(o.comments))
    ensures body != "" && IsStripped(body)
  {
    var rendered := Join(BodyLines(o), "\n");
    JoinedBody(o);
    RenderedBodyIsStripped(o);
    StripStripped(rendered);
    Strip(rendered)
  }

  /** Joining the body lines gives the headline followed by the notes
      section. */
  lemma JoinedBody(o: ReviewOutput)
    ensures Join(BodyLines(o), "\n") == Headline(o.summary) + NotesSection(GeneralNotes(o.comments))
  {
    BodyJoin(Headline(o.summary), GeneralNotes(o.comments));
  }

  lemma BodyJoin(h: string, notes: seq<string>)
    ensures Join([h] + (if notes == [] then [] else ["", NotesHeader] + notes), "\n") == h + NotesSection(notes)
  {
    if notes == [] {
      assert [h] + [] == [h];
      assert h + "" == h;
    } else {
      JoinWithBlankLine(h, NotesHeader, notes);
      var joined := Join(notes, "\n");
      assert h + "\n\n" + NotesHeader + "\n" + joined == h + ("\n\n" + NotesHeader + "\n" + joined);
    }
  }

  /** The joined body has no whitespace at either end, so the `strip()`
      applied to it is a no-op. */
  lemma RenderedBodyIsStripped(o: ReviewOutput)
    ensures IsStripped(Join(BodyLines(o), "\n"))
  {
    JoinedBody(o);
    var h := Headline(o.summary);
    var notes := GeneralNotes(o.comments);
    var full := Join(BodyLines(o), "\n");
    assert full[0] == h[0];
    if notes != [] {
      var j := Join(notes, "\n");
      JoinEndsWithLast(notes, "\n");
      var last := notes[|notes| - 1];
      assert j[|j| - |last|..][|last| - 1] == j[|j| - 1];
      assert full[|full| - 1] == j[|j| - 1];
    }
  }

  /** Appending the notice keeps a stripped, non-empty body stripped. */
  lemma DowngradedBodyIsStripped(body: string)
    requires body != "" && IsStripped(body)
    ensures Strip(body + "\n\n" + DowngradeNotice) == body + "\n\n" + DowngradeNotice
  {
    var n := DowngradeNotice;
    assert n[0] == '_' && n[|n| - 1] == '_';
    StrippedConcat(body, "\n\n", DowngradeNotice);
    StripStripped(body + "\n\n" + DowngradeNotice);
  }

  lemma {:induction false} InlineNonEmptyIff(cs: seq<ReviewComment>)
    ensures |InlineEntries(cs)| > 0 <==> exists c :: c in cs && RoutedInline(c)
  {
    if |cs| > 0 {
      InlineNonEmptyIff(cs[1..]);
      if exists c :: c in cs[1..] && RoutedInline(c) {
        var c :| c in cs[1..] && RoutedInline(c);
        assert c in cs;
      }
      if exists c :: c in cs && RoutedInline(c) {
        var c :| c in cs && RoutedInline(c);
        if c != cs[0] {
          assert c in cs[1..];
        }
      }
    }
  }

  /** Routing distributes over concatenation: the inline entries of
      `a + b` are those of `a` followed by those of `b`. Together with
      `CommentRouting` this fixes the entries and their order. */
  lemma {:induction false} InlineEntriesAppend(a: seq<ReviewComment>, b: seq<ReviewComment>)
    ensures InlineEntries(a + b) == InlineEntries(a) + InlineEntries(b)
    decreases |a|
  {
    if |a| == 0 {
      assert a + b == b;
    } else {
      assert (a + b)[1..] == a[1..] + b;
      InlineEntriesAppend(a[1..], b);
    }
  }

  /** The general notes of `a + b` are those of `a` followed by those of `b`. */
  lemma {:induction false} GeneralNotesAppend(a: seq<ReviewComment>, b: seq<ReviewComment>)
    ensures GeneralNotes(a + b) == GeneralNotes(a) + GeneralNotes(b)
    decreases |a|
  {
    if |a| == 0 {
      assert a + b == b;
    } else {
      assert (a + b)[1..] == a[1..] + b;
      GeneralNotesAppend(a[1..], b);
    }
  }

  /** Each comment goes to at most one place: an unusable comment to
      neither list, a usable one with an integer line to exactly one
      inline entry and no note, a usable one without to exactly one note
      and no inline entry. */
  lemma CommentRouting(c: ReviewComment)
    ensures !Usable(c) ==> InlineEntries([c]) == [] && GeneralNotes([c]) == []
    ensures Usable(c) && IsInt(c.line) ==>
      && GeneralNotes([c]) == []
      && InlineEntries([c]) == [InlineComment(c.path.value, c.line, RightSide, CommentText(c))]
    ensures Usable(c) && !IsInt(c.line) ==>
      && InlineEntries([c]) == []
      && GeneralNotes([c]) == ["- " + c.path.value + ": " + CommentText(c)]
  {
    assert [c][1..] == [];
  }

  /** A dropped comment leaves no trace: removing it anywhere from the
      list changes neither the inline entries nor the notes. */
  lemma DroppedCommentIsInvisible(a: seq<ReviewComment>, c: ReviewComment, b: seq<ReviewComment>)
    requires !Usable(c)
    ensures InlineEntries(a + [c] + b) == InlineEntries(a + b)
    ensures GeneralNotes(a + [c] + b) == GeneralNotes(a + b)
  {
    CommentRouting(c);
    InlineEntriesAppend(a + [c], b);
    InlineEntriesAppend(a, [c]);
    InlineEntriesAppend(a, b);
    GeneralNotesAppend(a + [c], b);
    GeneralNotesAppend(a, [c]);
    GeneralNotesAppend(a, b);
  }

  /** The `i`-th comment, when routed inline, yields the entry at the
      position counting the inline comments before it. */
  lemma InlinePosition(cs: seq<ReviewComment>, i: nat)
    requires i < |cs| && RoutedInline(cs[i])
    ensures |InlineEntries(cs[..i])| < |InlineEntries(cs)|
    ensures InlineEntries(cs)[|InlineEntries(cs[..i])|] == ToInline(cs[i])
  {
    assert cs == cs[..i] + [cs[i]] + cs[i + 1..];
    CommentRouting(cs[i]);
    InlineEntriesAppend(cs[..i] + [cs[i]], cs[i + 1..]);
    InlineEntriesAppend(cs[..i], [cs[i]]);
  }

  /** Inline entries keep the comments' relative order. */
  lemma InlineOrder(cs: seq<ReviewComment>, i: nat, j: nat)
    requires i < j < |cs| && RoutedInline(cs[i]) && RoutedInline(cs[j])
    ensures |InlineEntries(cs[..i])| < |InlineEntries(cs[..j])|
  {
    assert cs[..j] == cs[..i] + [cs[i]] + cs[i + 1..j];
    CommentRouting(cs[i]);
    InlineEntriesAppend(cs[..i] + [cs[i]], cs[i + 1..j]);
    InlineEntriesAppend(cs[..i], [cs[i]]);
  }

  /** The `i`-th comment, when routed to the notes, yields the bullet at
      the position counting the note comments before it. */
  lemma NotePosition(cs: seq<ReviewComment>, i: nat)
    requires i < |cs| && RoutedToNotes(cs[i])
    ensures |GeneralNotes(cs[..i])| < |GeneralNotes(cs)|
    ensures GeneralNotes(cs)[|GeneralNotes(cs[..i])|] == ToNote(cs[i])
  {
    assert cs == cs[..i] + [cs[i]] + cs[i + 1..];
    CommentRouting(cs[i]);
    GeneralNotesAppend(cs[..i] + [cs[i]], cs[i + 1..]);
    GeneralNotesAppend(cs[..i], [cs[i]]);
  }

  /** General notes keep the comments' relative order. */
  lemma NoteOrder(cs: seq<ReviewComment>, i: nat, j: nat)
    requires i < j < |cs| && RoutedToNotes(cs[i]) && RoutedToNotes(cs[j])
    ensures |GeneralNotes(cs[..i])| < |GeneralNotes(cs[..j])|
  {
    assert cs[..j] == cs[..i] + [cs[i]] + cs[i + 1..j];
    CommentRouting(cs[i]);
    GeneralNotesAppend(cs[..i] + [cs[i]], cs[i + 1..j]);
    GeneralNotesAppend(cs[..i], [cs[i]]);
  }

  /** The comments that survive the filter, in order. */
  function UsableComments(cs: seq<ReviewComment>): (r: seq<ReviewComment>)
    ensures forall k :: 0 <= k < |r| ==> Usable(r[k])
  {
    if |cs| == 0 then []
    else if Usable(cs[0]) then [cs[0]] + UsableComments(cs[1..])
    else UsableComments(cs[1..])
  }

  /** Nothing is lost beyond the unusable comments: the inline entries and
      the notes together number exactly the usable comments, and the
      unusable ones can be removed up front without changing either. */
  lemma {:induction false} PartitionCount(cs: seq<ReviewComment>)
    ensures |InlineEntries(cs)| + |GeneralNotes(cs)| == |UsableComments(cs)|
    ensures InlineEntries(UsableComments(cs)) == InlineEntries(cs)
    ensures GeneralNotes(UsableComments(cs)) == GeneralNotes(cs)
  {
    if |cs| > 0 {
      PartitionCount(cs[1..]);
      var u := UsableComments(cs[1..]);
      if Usable(cs[0]) {
        assert ([cs[0]] + u)[1..] == u;
      }
    }
  }

  /** Without approval rights an approval turns into a comment whose body
      is the approving body plus the notice; inline comments are kept. */
  lemma ApprovalDowngrade(o: ReviewOutput)
    requires o.decision == Some(Approve)
    ensures var allowed := BuildReviewPayload(o, true);
      && allowed.event == Approve
      && BuildReviewPayload(o, false) == ReviewPayload(DefaultDecision, allowed.body + "\n\n" + DowngradeNotice, allowed.comments)
  {
  }

  /** The flag matters only for approvals. */
  lemma FlagIrrelevantUnlessApproving(o: ReviewOutput)
    requires o.decision.GetOr(DefaultDecision) != Approve
    ensures BuildReviewPayload(o, false) == BuildReviewPayload(o, true)
    ensures BuildReviewPayload(o, false).event == o.decision.GetOr(DefaultDecision)
  {
  }

  /** A summary with a visible first and last character is kept as the
      headline verbatim. */
  lemma HeadlineOfVisible(summary: string)
    requires summary != "" && IsStripped(summary)
    ensures Headline(Some(summary)) == summary
  {
    StripStripped(summary);
  }

  /** An approval with a visible summary, no comments, and approvals
      disallowed: a plain comment with the notice under the summary. */
  lemma ScenarioApprovalWithoutRights(summary: string)
    requires summary != "" && IsStripped(summary)
    ensures BuildReviewPayload(ReviewOutput(Some(Approve), Some(summary), []), false)
      == ReviewPayload(DefaultDecision, summary + "\n\n" + DowngradeNotice, None)
  {
    var o := ReviewOutput(Some(Approve), Some(summary), []);
    HeadlineOfVisible(summary);
    assert GeneralNotes(o.comments) == [] && InlineEntries(o.comments) == [];
    assert !exists c :: c in o.comments && RoutedInline(c);
  }

  /** One line-anchored comment and one file-level comment, each with a
      non-empty path and a visible text, under any decision other than an
      approval: the first becomes the only inline entry, the second the
      only note under the header. */
  lemma ScenarioMixedComments(decision: string, summary: string, path1: string, n: int, text1: string,
                              path2: string, text2: string)
    requires decision != Approve && summary != "" && IsStripped(summary)
    requires path1 != "" && text1 != "" && IsStripped(text1)
    requires path2 != "" && text2 != "" && IsStripped(text2)
    ensures var c1 := ReviewComment(Some(path1), IntLine(n), Some(text1));
      var c2 := ReviewComment(Some(path2), OtherLine, Some(text2));
      BuildReviewPayload(ReviewOutput(Some(decision), Some(summary), [c1, c2]), false)
        == ReviewPayload(decision, summary + "\n\n" + NotesHeader + "\n" + ("- " + path2 + ": " + text2),
          Some([InlineComment(path1, IntLine(n), RightSide, text1)]))
  {
    var c1 := ReviewComment(Some(path1), IntLine(n), Some(text1));
    var c2 := ReviewComment(Some(path2), OtherLine, Some(text2));
    HeadlineOfVisible(summary);
    MixedLists(c1, c2);
    var note := "- " + path2 + ": " + text2;
    SingleNoteSection(note);
    assert summary + ("\n\n" + NotesHeader + "\n" + note) == summary + "\n\n" + NotesHeader + "\n" + note;
    PlainPayload(ReviewOutput(Some(decision), Some(summary), [c1, c2]), false);
  }

  /** A line-anchored comment followed by a file-level one, both usable
      with stripped text, give one inline entry and one note. */
  lemma MixedLists(c1: ReviewComment, c2: ReviewComment)
    requires Usable(c1) && IsInt(c1.line) && IsStripped(c1.comment.GetOr(""))
    requires Usable(c2) && !IsInt(c2.line) && IsStripped(c2.comment.GetOr(""))
    ensures InlineEntries([c1, c2]) == [InlineComment(c1.path.value, c1.line, RightSide, c1.comment.GetOr(""))]
    ensures GeneralNotes([c1, c2]) == ["- " + c2.path.value + ": " + c2.comment.GetOr("")]
  {
    StripStripped(c1.comment.GetOr(""));
    StripStripped(c2.comment.GetOr(""));
    CommentRouting(c1);
    CommentRouting(c2);
    assert [c1, c2] == [c1] + [c2];
    InlineEntriesAppend([c1], [c2]);
    GeneralNotesAppend([c1], [c2]);
  }

  /** Without a downgrade, the payload is the decision, the rendered body
      and the inline entries when there are any. */
  lemma PlainPayload(o: ReviewOutput, allowApprovals: bool)
    requires !Downgrades(o, allowApprovals) && InlineEntries(o.comments) != []
    ensures BuildReviewPayload(o, allowApprovals) == ReviewPayload(o.decision.GetOr(DefaultDecision),
      Headline(o.summary) + NotesSection(GeneralNotes(o.comments)), Some(InlineEntries(o.comments)))
  {
    InlineNonEmptyIff(o.comments);
  }

  lemma ScenarioRouting(c1: ReviewComment, c2: ReviewComment)
    requires c1 == ReviewComment(Some("a.py"), IntLine(10), Some("off-by-one"))
    requires c2 == ReviewComment(Some("b.py"), OtherLine, Some("missing test"))
    ensures RoutedInline(c1)
    ensures InlineEntries([c1, c2]) == [InlineComment("a.py", IntLine(10), "RIGHT", "off-by-one")]
    ensures GeneralNotes([c1, c2]) == ["- b.py: missing test"]
  {
    StripStripped("off-by-one");
    StripStripped("missing test");
    CommentRouting(c1);
    CommentRouting(c2);
    assert [c1, c2] == [c1] + [c2];
    InlineEntriesAppend([c1], [c2]);
    GeneralNotesAppend([c1], [c2]);
    ScenarioNoteText();
  }

  /** The literal bullet of `ScenarioRouting`, proved on its own so the
      solver sees the string concatenation apart from the routing. */
  lemma ScenarioNoteText()
    ensures "- " + "b.py" + ": " + "missing test" == "- b.py: missing test"
  {
  }

  lemma SingleNoteSection(note: string)
    ensures NotesSection([note]) == "\n\n" + NotesHeader + "\n" + note
  {
  }

  /** `s` equals `w` up to the case of ASCII letters, `w` being written
      in lower case. */
  predicate EqualsIgnoringCase(s: string, w: string) {
    |s| == |w| && forall i :: 0 <= i < |s| ==> s[i] == w[i] || ('a' <= w[i] <= 'z' && s[i] as int + 32 == w[i] as int)
  }

  /** Lower-casing `s` yields the lower-case word `w` exactly when `s`
      spells `w` in any mix of cases. */
  lemma LowerMatches(s: string, w: string)
    requires forall i :: 0 <= i < |w| ==> !('A' <= w[i] <= 'Z')
    ensures AsciiLower(s) == w <==> EqualsIgnoringCase(s, w)
  {
    if EqualsIgnoringCase(s, w) {
      forall i | 0 <= i < |s|
        ensures AsciiLower(s)[i] == w[i]
      {
        if s[i] != w[i] {
          assert 'A' <= s[i] <= 'Z';
        }
      }
      assert AsciiLower(s) == w;
    }
  }

  /** A one-character word matches only itself. */
  lemma OneIgnoringCase(env: string)
    ensures EqualsIgnoringCase(env, "1") ==> env == "1"
  {
    if EqualsIgnoringCase(env, "1") {
      assert env[0] == '1';
    }
  }
}
