# open-pr-agent review pipeline — a Dafny model

open-pr-agent reviews a pull request with an LLM agent and publishes the result on
GitHub. This project models the deterministic middle of that pipeline and proves what it
promises:

- **Review payload** (`PostReview`, `post_review.dfy`). `build_review_payload` turns the
  agent's structured review into the payload for GitHub's review API:
  - unusable comments are dropped;
  - a comment with an integer line becomes an inline entry;
  - a comment without one becomes an "Additional notes" bullet;
  - the body gets a fallback first line;
  - `APPROVE` is turned into `COMMENT` when approvals are not allowed.
- **Step outputs** (`EmitOutputs`, `emit_outputs.dfy`). `emit_review_outputs.py` writes:
  - three `key=value` lines;
  - one heredoc entry `key<<MARKER`, whose marker is lengthened by `_X` until it no longer
    occurs in the body.

  A reader of the same two formats is the partner definition: when the paths and the event
  hold no newline, every written output is read back, in order, whatever the body holds.
- **Pull-request context** (`PrContext`, `pr_context.dfy`):
  - the model-name prefixing for the OpenAI-compatible backend;
  - the owner/repository name taken from a git remote URL;
  - the local-review information;
  - the defaulting of pull-request fields read from a GitHub event.
- **Comment lifecycle** (`CommentLifecycle`, `comment_lifecycle.dfy`). `post_github_comment`
  is a transition of the issue-comment store:
  - a failure oracle says which HTTP requests fail;
  - earlier reviews, found by a hidden tag, are deleted from the single listed page until a
    deletion fails;
  - then the new review is posted with the tag appended.

Python string behaviour is in `Strings` (`strings.dfy`):
- `strip` with the Unicode whitespace set;
- `in`, with a proved first-occurrence specification;
- `replace`, left to right and non-overlapping;
- `split` on one character, keeping empty pieces;
- `join`;
- ASCII lower-casing.

`Option` and `Result` (`wrappers.dfy`) stand for missing JSON keys and raised exceptions.
Every operation is a pure function or a method with no state, so the same inputs always give
the same outputs. The two methods are the marker search, whose loop is proved to terminate,
and `EmitOutputs`, which calls it.

## Model

| member | source | states |
|---|---|---|
| PostReview.BuildReviewPayload | scripts/post_review.py:11-64 | The event is the decision, `COMMENT` when it is missing, and `COMMENT` when an approval is downgraded. The body is the headline plus the notes section, with the notice appended on a downgrade. `comments` is present exactly when some comment is routed inline, and then it is the non-empty list of inline entries. |
| PostReview.InlineEntries | scripts/post_review.py:19-33 | Every inline entry is on side `RIGHT`, has an integer line, a non-empty path and a non-empty stripped body. There are never more entries than comments. |
| PostReview.GeneralNotes | scripts/post_review.py:19-35 | Every note bullet is non-empty and ends with a non-whitespace character. There are never more bullets than comments. |
| PostReview.Headline | scripts/post_review.py:37 | The first body line is the stripped summary, or `Automated review result.` when the summary is missing or blank. It is never empty and never padded. |
| PostReview.RenderBody | scripts/post_review.py:37-45 | The joined body is the headline followed by the notes section. It is non-empty and stripped, so the `strip()` changes nothing. |
| PostReview.JoinedBody | scripts/post_review.py:37-45 | Joining the body lines with newlines gives the headline, then a blank line, `Additional notes:` and the bullets, present only when there are notes. |
| PostReview.RenderedBodyIsStripped | scripts/post_review.py:45 | The joined body has no whitespace at either end. |
| PostReview.DowngradedBodyIsStripped | scripts/post_review.py:58-62 | Appending the notice to a stripped body and stripping again removes nothing. |
| PostReview.InlineNonEmptyIff | scripts/post_review.py:48-49 | The inline list is non-empty exactly when some comment is usable and has an integer line. |
| PostReview.InlineEntriesAppend | scripts/post_review.py:19-33 | Inline routing distributes over concatenation of the comment list. |
| PostReview.GeneralNotesAppend | scripts/post_review.py:19-35 | Note routing distributes over concatenation of the comment list. |
| PostReview.CommentRouting | scripts/post_review.py:20-35 | An unusable comment yields nothing. A usable one with an integer line yields exactly one inline entry `{path, line, RIGHT, stripped text}` and no note. A usable one without yields exactly one bullet `- path: text` and no inline entry. Only the text is stripped, never the path. |
| PostReview.DroppedCommentIsInvisible | scripts/post_review.py:20-24 | Removing an unusable comment anywhere in the list changes neither the inline entries nor the notes. |
| PostReview.InlinePosition | scripts/post_review.py:25-33 | An inline-routed comment yields the entry whose position is the number of inline-routed comments before it. |
| PostReview.InlineOrder | scripts/post_review.py:25-33 | Inline entries keep the relative order of their comments. |
| PostReview.NotePosition | scripts/post_review.py:34-35 | A note-routed comment yields the bullet whose position is the number of note-routed comments before it. |
| PostReview.NoteOrder | scripts/post_review.py:34-35 | Bullets keep the relative order of their comments. |
| PostReview.UsableComments | scripts/post_review.py:23-24 | The filtered list holds only usable comments. |
| PostReview.PartitionCount | scripts/post_review.py:19-35 | Inline entries and bullets together number exactly the usable comments. Filtering first changes neither list. |
| PostReview.ApprovalDowngrade | scripts/post_review.py:56-62 | Without approval rights, an approval becomes `COMMENT` with the approving body plus a blank line and the notice. The inline comments are unchanged. With rights it stays `APPROVE`. |
| PostReview.FlagIrrelevantUnlessApproving | scripts/post_review.py:56 | For any decision other than `APPROVE`, the approvals flag does not change the payload, and the event is the decision verbatim. |
| PostReview.HeadlineOfVisible | scripts/post_review.py:37 | A non-empty summary that is already stripped is the headline verbatim. |
| PostReview.ScenarioApprovalWithoutRights | scripts/post_review.py:11-64 | An approval without rights and without comments, under any non-empty stripped summary, gives `COMMENT`, the summary, a blank line and the notice, and no `comments` key. |
| PostReview.ScenarioMixedComments | scripts/post_review.py:11-64 | For any non-approving decision, a visible summary, a line-anchored comment and a file-level comment (non-empty paths, visible texts) give exactly that decision, the body `summary`, a blank line, `Additional notes:` and the bullet `- path: text`, and the one inline entry on side `RIGHT`. |
| PostReview.ScenarioRouting | scripts/post_review.py:19-35 | The concrete comments route to the expected inline entry and bullet. |
| PostReview.AllowApprovals | scripts/post_review.py:51-55 | The approvals switch is on exactly for `1`, or for `true` or `yes` in any mix of ASCII case. |
| EmitOutputs.ChooseMarker | scripts/emit_review_outputs.py:16-18 | The loop terminates. The marker is `EOF_REVIEW_BODY` followed by `k` copies of `_X` and does not occur in the value. Every shorter candidate does occur, so it is the first one absent. |
| EmitOutputs.MarkerLength | scripts/emit_review_outputs.py:16-18 | The `k`-th candidate marker has `15 + 2k` characters. |
| EmitOutputs.MarkerChars | scripts/emit_review_outputs.py:16-19 | No candidate marker holds a newline, `=` or `<`, so each fits on a header line. |
| EmitOutputs.OutputLine | scripts/emit_review_outputs.py:11-12 | For a plain key and a value without a newline, the written line reads back as exactly that one output, with nothing left over. |
| EmitOutputs.MultilineBlock | scripts/emit_review_outputs.py:15-19 | For a plain key and a marker without a newline or `=` that does not occur in the value, the written block reads back as exactly that one output, the value whole, with nothing left over. |
| EmitOutputs.EmitOutputs | scripts/emit_review_outputs.py:22-31 | The text is the three `key=value` lines for agent-output-path, payload-path and review-event, then the heredoc block for review-body. A missing or `null` event or body is written as the empty string. The marker is the first candidate `EOF_REVIEW_BODY(_X)^k` absent from the body: every shorter candidate occurs in it. The marker holds no newline. When the paths and the event hold no newline, reading the written text back gives exactly the outputs agent-output-path, payload-path, review-event and review-body, in that order, with their values. This holds whatever the body holds. |
| EmitOutputs.ReadOutputLine | scripts/emit_review_outputs.py:11-12 | A `key=value` line with a plain key and a one-line value reads back as that output, followed by whatever comes after it. |
| EmitOutputs.ReadLines | scripts/emit_review_outputs.py:28-30 | Any number of one-line entries written in sequence read back as those outputs, in order. |
| EmitOutputs.ReadBlock | scripts/emit_review_outputs.py:15-19 | A heredoc entry whose marker is absent from the value reads back as exactly that value, newlines included, followed by whatever comes after it. |
| EmitOutputs.ReadBlockAlone | scripts/emit_review_outputs.py:15-19 | A heredoc entry on its own reads back as the single output. |
| EmitOutputs.ClosingLine | scripts/emit_review_outputs.py:17-19 | With the marker absent from the value, the first closing line of the entry is the one written after the value. |
| EmitOutputs.SingleHeader | scripts/emit_review_outputs.py:11-12 | `key=value` with a plain key is classified as a one-line entry with that key and value. |
| EmitOutputs.HeredocHeader | scripts/emit_review_outputs.py:19 | `key<<marker` with a plain key is classified as a heredoc opening with that marker. |
| PrContext.PrepareModel | main.py:75-79 | The result always names a provider (it holds `/`), is stripped, and ends with the stripped name. It equals the stripped name exactly when that name already holds `/`; otherwise it is exactly `openai/` followed by the stripped name. |
| PrContext.PrepareModelIdempotent | main.py:75-79 | Preparing a prepared name changes nothing. |
| PrContext.RepoFromRemote | main.py:95-101 | As written: a URL not naming `github.com` gives `unknown/unknown`. On a URL with no `.git` anywhere, the result agrees with the corrected parsing. |
| PrContext.RemoteUnknown | main.py:95-100 | An empty URL, a URL without `github.com`, or one with no `/` left after removing `.git` gives `unknown/unknown`. |
| PrContext.RemoteAsWritten | main.py:96-101 | As written, an SSH or HTTPS remote `prefix owner/repo.git` gives the owner and the repository name with every `.git` removed from the name. |
| PrContext.RemoteAsWrittenPlain | main.py:96-101 | For a name without `.git`, both remote forms give `owner/repo`. |
| PrContext.RemoteExamples | main.py:97-101 | `git@github.com:user/repo.git` and `https://github.com/user/repo.git` both give `user/repo`. |
| PrContext.RemoteAsWrittenManglesName | main.py:99 | As written, a repository whose name contains `.git` is reported under a different name. |
| PrContext.RemotePagesSiteExample | main.py:99 | As written, `git@github.com:octocat/octocat.github.io.git` is not reported as `octocat/octocat.github.io`. |
| PrContext.RemoteFixed | main.py:99-101 | With only a trailing `.git` removed, both remote forms give exactly `owner/repo`, whatever the name holds. |
| PrContext.RemoteFixedNoSuffix | main.py:99-101 | A remote without the `.git` suffix is parsed the same way, provided its name does not end with `.git`. |
| PrContext.GitOutput | main.py:82-86 | The result has no surrounding whitespace. It is empty exactly when the command failed or printed only whitespace. Output that is already stripped is kept verbatim. Otherwise the result is a contiguous window of the output with only whitespace outside it, which `GitOutputDropsNewline` and `StrippedWindowUnique` show is exactly Python's `strip()`. |
| PrContext.StrippedWindowUnique | main.py:85 | A stripped window of a text with only whitespace outside it is the text's `strip()`: no other result satisfies the window property. |
| PrContext.GitOutputDropsNewline | main.py:85 | Output of the form `line` plus a newline, with `line` stripped, gives exactly `line`. |
| PrContext.LoadLocalInfo | main.py:89-110 | The head branch is the stripped branch output, or `unknown` when that is empty or the command failed. The title is `Local Review: ` plus the head branch. The number is `local`, the base branch `main`, and the body `Local review session.`. The repository name is the as-written parsing of the stripped remote output. |
| PrContext.LocalInfoRepoName | main.py:94-101 | As written, a clone whose origin is a GitHub SSH or HTTPS remote `owner/repo.git` is reviewed under the owner and the repository name with every `.git` removed from it. |
| PrContext.LocalInfoFixedRepoName | main.py:94-101 | With the corrected parsing, a clone whose origin is a GitHub SSH or HTTPS remote is reviewed under that remote's exact `owner/repo`, whatever the name holds. |
| PrContext.NatToString | main.py:126 | `str()` of a natural number is a non-empty string of decimal digits without a leading zero. |
| PrContext.IntToString | main.py:126 | `str()` of an integer has Python's shape: canonical digits, preceded by `-` exactly when the number is negative. |
| PrContext.DecimalTextUnique | main.py:126 | Any text of that shape is `str()` of the number it reads as, so the shape and the value together fix the text. |
| PrContext.NatToStringValue | main.py:126 | The digits of a natural number read back as that number. |
| PrContext.IntToStringValue | main.py:126 | `str()` of any integer, negative ones included, reads back as that integer. |
| PrContext.NumberText | main.py:126 | The number text is never empty. A present, non-zero pull-request number is written as Python's `str()` writes it (canonical decimal) and reads back as itself. Otherwise a present, non-zero event number is written that way. Otherwise the text is `unknown`. |
| PrContext.LoadPrInfo | main.py:117-131 | Loading fails, with the fixed message, exactly when `pull_request` is missing, `null` or `{}`. Otherwise every field is filled in and none is empty. Each field is checked on its own: a present, non-empty title, body, base ref or head ref is kept, and a missing one becomes `N/A`, `No description provided`, `main` or `unknown`. The repository name is `base.repo.full_name`, then `GITHUB_REPOSITORY`, then `unknown/unknown`. The number follows the fallbacks of `NumberText`, written as canonical decimal. |
| PrContext.CompletePullRequest | main.py:125-131 | A pull request carrying every field, non-empty, is passed through verbatim, and its number text reads back as its number. |
| PrContext.BarePullRequest | main.py:117-131 | A non-empty pull request holding none of the fields read, in an event that carries no number, gets every default. The repository name comes from `GITHUB_REPOSITORY` when that is set and non-empty. |
| PrContext.FalsyFieldsFallBack | main.py:126-131 | A zero number and empty strings fall back like missing values: the event's number, `N/A`, `No description provided`, `unknown/unknown`, `main`, `unknown`. |
| CommentLifecycle.Page | main.py:190 | The listing is a prefix of the store. It is the whole store when the store fits, and exactly the first 100 comments otherwise. |
| CommentLifecycle.RemoveId | main.py:197-198 | Deleting a comment by id keeps exactly the comments with other ids. |
| CommentLifecycle.RemoveIdAppend | main.py:197-198 | Deleting a comment distributes over splitting the store, and on one comment removes it exactly when the id matches, so the remaining comments keep their order. |
| CommentLifecycle.WithoutAppend | main.py:194-201 | Removing a list of ids distributes over splitting the store, so the survivors keep store order. |
| CommentLifecycle.DeleteTaggedKeepsOrder | main.py:194-201 | The store left by the deletion loop is the old store with exactly the deleted ids filtered out, in the old order. |
| CommentLifecycle.DeleteTagged | main.py:194-201 | The deleted ids are a prefix of the tagged ids of the listing, and none of them failed. The run failed exactly when that prefix is shorter than the whole list, and then the next tagged id is one whose deletion fails. The store keeps exactly the comments whose ids were not deleted. |
| CommentLifecycle.DeleteOld | main.py:186-201 | With clean-up off, nothing is deleted and nothing fails. A failed listing deletes nothing and reports the failure. Otherwise the deleted ids are a prefix of the listing's tagged ids, none of them failing. The run failed exactly when that prefix is shorter than all the tagged ids, and then the next tagged id is one whose deletion fails. The store left is the old store with exactly the deleted ids filtered out, in store order. |
| CommentLifecycle.PostReviewComment | main.py:172-211 | Without a token the store is unchanged and only the skip is logged. With one, the post is always attempted and its outcome is the last log line. A successful post appends the comment `review + "\n\n" + tag` with the new id. Only tagged comments from the listing are ever removed. |
| CommentLifecycle.PostedIsTagged | main.py:195-204 | The posted comment carries the tag, so the next run treats it as an earlier review. |
| CommentLifecycle.TaggedIdsDistinct | main.py:194-195 | With unique comment ids, the tagged ids of a listing are distinct. |
| CommentLifecycle.OnlyListedReviewsRemoved | main.py:190-199 | With unique ids, every comment that disappears was tagged and on the first page. Untagged comments, and comments beyond the first 100, always survive. |
| CommentLifecycle.NoCleanupKeepsAll | main.py:186 | With clean-up off, every existing comment is kept in order, and only the post is logged. |
| CommentLifecycle.CleanRunLeavesOneReview | main.py:186-209 | With no failures and at most 100 comments, every earlier review is deleted and logged in listing order. Afterwards exactly one comment is tagged, and it is the new review. |
| CommentLifecycle.FirstFailedDeletion | main.py:187-211 | When the first failing deletion is the `k`-th tagged comment, exactly the `k` before it are deleted and logged, and none of them is left in the store. The failure is logged and the post is still attempted. |
| CommentLifecycle.FailedDeletionKeepsRest | main.py:194-201 | From the failing deletion on, no tagged comment of the listing is deleted. |
| CommentLifecycle.ListFailureStillPosts | main.py:187-211 | A failed listing deletes nothing and logs the failure. The post still goes ahead after it. |

## Left out

- The OpenHands agent run, the prompt text and the final-response extraction (main.py:135-169). These are foreign calls with no stateable behaviour.
- `Settings`, environment loading, argparse and the `main()` functions of all three files. These are configuration plumbing; the environment values are parameters instead.
- The `git` subprocess calls (main.py:82-86). `GitOutput` takes the command's output, or `None` for a failed command.
- HTTP via `requests`. The comment store is a sequence of comments, and a failure oracle says which listing, deletion or post request fails. Request URLs and headers are not modelled, and the success log line does not carry the issue number.
- CommentLifecycle.RemoveId: a failed deletion is taken to leave its comment in place. An HTTP error after the server has acted is not modelled.
- CommentLifecycle.PostReviewComment: a listed comment without an `id` key raises `KeyError`, which is not a request error and would propagate out of the Python function. This is not modelled.
- Pagination: only the first page of 100 comments is listed, as `post_github_comment` does. Later comments are never looked at, which `OnlyListedReviewsRemoved` states.
- `redirect_stdout`, logging formats, and file reading and writing. JSON decoding is replaced by already-decoded records. JSON values of an unexpected type are not modelled. A non-string or `null` summary or comment text, and a truthy non-object `base`/`head`/`repo`, make Python raise. A non-string path and a non-integer number pass through in Python, formatted by the f-string or by `str()`. The model admits only string paths and integer numbers.
- PostReview.BuildReviewPayload: an explicit `null` decision is treated like a missing one and gives `COMMENT`. In Python, `null` would pass through as the event.
- PostReview.AllowApprovals: `.lower()` is modelled as ASCII lower-casing. No non-ASCII character lower-cases into the letters of `true` or `yes`, so the accepted set is the same.
- EmitOutputs.EmitOutputs: the outputs file is opened for appending. The model gives the appended text only, not what the file held before. The reader is a model of the runner's `key=value` / `key<<DELIMITER` format.
- `examples/bad_code.py` is a fixture for the reviewer to flag. It is not part of this model.
- The free-text to structured-review normalizer is not modelled.

## Findings

| source | as written | input that shows it | evidently intended | confidence | as-written member | corrected member |
|---|---|---|---|---|---|---|
| main.py:99 | `.replace(".git", "")` removes `.git` everywhere in the remote URL | `git@github.com:octocat/octocat.github.io.git` is not reported as `octocat/octocat.github.io`, because the `.git` inside `.github.io` is removed too | remove only the trailing `.git` suffix, so that both URL shapes named on line 97 give `owner/repo` for every repository name | high — not executed | PrContext.RemoteAsWrittenManglesName | PrContext.LocalInfoFixedRepoName |

`PrContext.RepoFromRemote` models line 99 as written, and `PrContext.LoadLocalInfo` uses it, as the program does. `PrContext.RemotePagesSiteExample` pins down the concrete input, and `PrContext.LocalInfoRepoName` states what the program reports. `PrContext.RepoFromRemoteFixed` removes only the suffix. `PrContext.LoadLocalInfoFixed` uses it in place of the as-written parsing, and `PrContext.RemoteFixed` and `PrContext.LocalInfoFixedRepoName` prove it gives `owner/repo` for any repository name.
