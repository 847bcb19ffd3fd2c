# Job-mail auto-labeller: a Dafny model of its sync core

`read_email.py` labels job-application mail in a Gmail mailbox. Each run
performs these steps:

- It loads a small persisted state: a watermark timestamp, the message ids
  already handled with their timestamps, and the last run time.
- It lists the messages newer than the watermark less a lookback cushion,
  then keeps the ones whose exact timestamp is inside the window.
- For each kept message it skips ids already seen and marks messages with
  empty content as seen. Every other message goes to an LLM classifier,
  whose text input is truncated to a fixed budget.
- For a message about a job, it applies a nested label `Jobs/<category>`.
  Missing label levels are created on the way.
- Finally it prunes the seen ids that fell behind the cushion and saves the
  state. A classifier that fails twice ends the process, and the state is
  not saved.

The project models that core as pure functions over immutable data and
proves what each step promises.

| file | module | what it models |
|---|---|---|
| `wrappers.dfy` | `Wrappers` | `Option` |
| `text.dfy` | `Text` | `lower`, `split`/`join` on one separator, `strip` |
| `html.dfy` | `Html` | `html_to_text` as a chain of `re.sub` passes, each pattern a `Pattern` |
| `mime.dfy` | `Mime`, `MimeExamples` | `collect_texts` and the plain/HTML/raw fallback of `get_email_content` |
| `labels.dfy` | `Labels` | `apply_label` |
| `state.dfy` | `State` | the persisted record, `load_state`, `prune_seen_ids` |
| `sync.dfy` | `Sync` | the query window, the timestamp filter, truncation, the per-message loop and one whole run of `main` |

## Modelling choices

- **External calls are recorded, not performed.** A run returns an
  `Outcome`: the state it would save and the sequence of `Call`s it makes.
  The calls are content fetches, classifier requests and label
  applications.
- **Each listed message is a `Sync.Candidate`.** A candidate carries the
  message's id, its timestamp, the text the extractor yields for it, and the
  classifier's `Verdict`.
- **A double classifier failure is the verdict `ClassifierDown`.** It
  aborts the run with the calls made so far, and nothing is persisted.
- **Clock readings are parameters.** The loop itself is `Sync.Run`, and
  `Sync.SyncOnce` is one whole run.
- **The content extractor works on a `Mime.Part` tree.** Base64url/UTF-8
  decoding and HTML entity unescaping are library calls, so they are
  parameters (`Mime.Codecs`).
- **Each regular expression of the HTML converter is a `Pattern`.** A
  `Pattern` gives the length of its match at the front of a string.
  `Html.Substitute` is `re.sub`: it scans left to right and resumes after
  each match. Case-insensitive patterns fold ASCII letters only (see
  "Left out").
- **The script/style pass matches as written, not as intended.** The
  pattern is a raw string whose back-reference is spelled `</\\1>`. A
  regular expression reads that as the five literal characters `</\1>`,
  not as a back-reference. So script and style bodies are removed only when
  the text contains such a literal (`Html.ScriptStepKeepsBackslashFreeText`).
- **Label creation is modelled without the provider.** The provider hands
  out the new label's id, so the id is a parameter `mint` of the name. The
  label list re-fetched after a creation is the old list followed by the new
  label.
- **Timestamps are whole seconds.**

## Model

| member | source | states |
|---|---|---|
| State.LoadState | read_email.py:39-71 | A readable state file is returned as it is. Otherwise the seen ids are empty and there is no last-run time, and the watermark is present exactly when a legacy timestamp could be read, in which case it is that timestamp. |
| State.Prune | read_email.py:81-91 | Watermark and last-run time are kept. A falsy watermark (absent or zero) changes nothing. Otherwise an id stays exactly when its timestamp is at or after watermark minus lookback, with its timestamp unchanged. The result always satisfies the lookback invariant. |
| State.PruneIdempotent | read_email.py:81-91 | Pruning twice removes nothing more than pruning once. |
| State.PruneKeepsConformingState | read_email.py:81-91 | A state that already satisfies the lookback invariant loses no seen id to pruning. |
| Sync.QueryStart | read_email.py:362-372 | With a truthy watermark the window starts at the larger of zero and watermark minus lookback: exactly watermark minus lookback when that is not negative, else zero. Without one it starts `backfillDays` days before now. |
| Sync.FineFilter | read_email.py:154-170 | A listed message is kept exactly when its timestamp is at or after the start. The kept messages keep the listing's order, and their number is the count of qualifying messages. |
| Sync.Truncate | read_email.py:282-285 | The classifier input is the first 22000 characters of the content (all of it when shorter) followed by `"..."`, so at most 22003 characters. The suffix is appended even when nothing was cut. |
| Sync.Advance | read_email.py:394-396 | The new watermark is the old one or the message's timestamp. It is never before the timestamp, and never before a truthy old watermark. An absent or zero watermark is replaced by the timestamp. |
| Sync.AdvanceNeverDecreases | read_email.py:394-396 | For a non-negative timestamp the watermark update never moves the watermark back and leaves it at or after the message's timestamp. |
| Sync.ZeroWatermarkReplaced | read_email.py:394-396 | A zero watermark counts as none: it is replaced even by an earlier timestamp. |
| Sync.Run | read_email.py:386-421 | A finished loop took one branch per message, and every id already seen when it started is still recorded with its loaded timestamp. That a repeated id is skipped rather than recorded again is stated by `Sync.RunBranches`. |
| Sync.Step | read_email.py:386-421 | One iteration aborts exactly when the message is new, has content, and the classifier is down; it then keeps the fetch and classify calls made. Otherwise it advances the watermark, records the id unless it was already seen, and makes exactly the calls of its branch: none when seen, a fetch when empty, and fetch, classify and, for a job mail, one `Jobs/<category>` label. |
| Sync.RunBranches | read_email.py:386-421 | A finished loop took, for every message, the branch named by a definition that does not run the loop: skipped iff the id was in the loaded state or occurred earlier in the listing. The seen ids end as the loaded ids plus all listed ids, loaded timestamps unchanged. The calls are exactly the reference calls. |
| Sync.MaxTsAttained | read_email.py:417-420 | The largest candidate timestamp is the timestamp of some candidate. |
| Sync.RunFinalWatermark | read_email.py:394-396 | A finished loop over a non-empty listing leaves the watermark at the larger of the starting watermark and the newest timestamp, whichever branches were taken. |
| Sync.RunNeverLowers | read_email.py:417-420 | A finished loop never leaves the watermark behind where it started. |
| Sync.RunWatermarkMonotone | read_email.py:386-421 | Over every prefix of a finished loop the watermark lies between the starting watermark and the final one. |
| Sync.ExpectedCallsFresh | read_email.py:391-397 | The reference calls never concern an id of the loaded seen ids, concern only listed ids, and send no id to the classifier twice. |
| Sync.AbortedCallsFresh | read_email.py:287-298 | The calls of a loop that stopped on a classifier failure also avoid every loaded seen id and classify no id twice. |
| Sync.RunAbortsIff | read_email.py:287-298 | Among classifier failures, the loop stops early iff some message that reaches the classifier finds it down. |
| Sync.SyncOnce | read_email.py:353-428 | A saved state always carries the finishing time as last-run time. An empty window always saves and makes no call. A run that processed messages and saves satisfies the lookback invariant. |
| Sync.StartAfterLoad | read_email.py:59-68 | Without a readable state file the window starts from the legacy timestamp less the lookback (clamped at zero) when that timestamp is non-zero, and otherwise `backfillDays` before now. |
| Sync.EmptyWindowSavesUnpruned | read_email.py:377-382 | With no message in the window the state is saved with only the last-run time changed, unpruned, and no call is made. |
| Sync.SyncWatermarkMonotone | read_email.py:417-427 | Across runs the persisted watermark never moves back. |
| Sync.SyncFinalWatermark | read_email.py:386-427 | A run that processes messages and saves persists the larger of the old watermark and the newest candidate timestamp. |
| Sync.SyncSavesSeen | read_email.py:384-427 | A run that processes messages and saves stores as seen ids exactly the loaded entries and the entries of the messages it did not skip, each with its own timestamp, and each kept exactly when that timestamp is at or after the saved watermark minus the lookback (or when the watermark is falsy). No other id is stored. |
| Sync.HandledSkippedNextRun | read_email.py:384-427 | A message that a saving run handled, listed again by the next run with the same id and timestamp inside that run's window, is skipped there as already seen. |
| Sync.SyncKeepsLookback | read_email.py:423-427 | A saving run keeps the lookback invariant when it held before, and establishes it whenever messages were processed. |
| Sync.SyncNeverRevisits | read_email.py:391-397 | A message whose id was loaded as seen is never fetched by the loop, classified or labelled, and within one run no id reaches the classifier twice, whether the run finishes or aborts. |
| Sync.SyncAbortsIff | read_email.py:287-298 | Among classifier failures, nothing is persisted exactly when some message that reaches the classifier finds it down. |
| Sync.WindowCoversCushion | read_email.py:362-372 | With a truthy watermark every listed message with a non-negative timestamp at or after watermark minus lookback is a candidate, whatever the lookback's sign. Without one the candidates are exactly the messages of the last `backfillDays` days. |
| Sync.FirstRunEmptyMessage | read_email.py:399-406 | On a first run with default settings, a five-day-old message with empty content becomes the watermark, is recorded as seen, and is fetched but never classified. |
| Text.Split | read_email.py:306 | `split("/")` yields at least one piece, and no piece contains the separator. |
| Text.JoinAt | read_email.py:314 | A join of several pieces is the join of the first `k` pieces, the separator, then the join of the rest. |
| Text.Lower | read_email.py:319 | `lower()` keeps the length and lowers each character on its own. |
| Text.SplitJoin | read_email.py:306 | Joining the pieces of `split("/")` with `"/"` gives the path back. |
| Text.JoinSplit | read_email.py:314 | Splitting a join of separator-free pieces gives the pieces back. |
| Text.Strip | read_email.py:215 | `strip()` yields a contiguous slice of its input that neither starts nor ends with whitespace, and everything cut off on either side is whitespace. |
| Text.StripIdempotent | read_email.py:215 | Stripping twice is stripping once. |
| Text.StripKeepsText | read_email.py:215 | `strip()` removes whitespace only: the non-whitespace characters are kept, in order. |
| Html.LineEndRemovesCr | read_email.py:213 | After the line-ending pass no carriage return is left. |
| Html.Normalize | read_email.py:213-215 | The whitespace normalisation leaves no carriage return, no run of three line feeds, and no leading or trailing whitespace. |
| Html.NormalizeIdempotent | read_email.py:213-215 | Normalising twice is normalising once. |
| Html.NormalizeKeepsText | read_email.py:213-215 | Normalisation changes whitespace only: the non-whitespace characters of the result are those of the input, in the same order. |
| Html.WhitespacePassKeepsText | read_email.py:213-214 | Each of the two whitespace passes keeps the non-whitespace characters, in order. |
| Html.StripMarkup | read_email.py:202-209 | After the markup passes the tag pattern matches nowhere. What each earlier pass does is stated by the five lemmas below, and what the tag pass does to any other tag by `Html.StripOtherTag`. |
| Html.StripScriptBlock | read_email.py:202 | Between texts without `<`, the tag `<script>` or `<style>` as written here, a body without `<` and the literal `</\1>` are removed together, and nothing else changes. |
| Html.StripLineBreak | read_email.py:204 | Between texts without `<`, a `<br>` or `<br/>` in any letter case becomes one line feed, and nothing else changes. |
| Html.StripParagraphEnd | read_email.py:205 | Between texts without `<`, a `</p>` in any letter case becomes two line feeds, and nothing else changes. |
| Html.StripDivisionEnd | read_email.py:206 | Between texts without `<`, a `</div>` in any letter case becomes one line feed, and nothing else changes. |
| Html.StripItemEnd | read_email.py:207 | Between texts without `<`, a `</li>` in any letter case becomes one line feed, and nothing else changes. |
| Html.SubstituteSkipsText | read_email.py:202-209 | Each markup pass copies a front part without `<` through unchanged and continues on the rest. |
| Html.StripOtherTag | read_email.py:202-209 | Between texts without `<`, any other tag is removed, and nothing else changes. Such a tag is `<`, a non-empty name part without `<` or `>`, then `>`. Its name part does not start with `/`, nor with `script`, `style` or `br` in any letter case. The first five passes leave it in place and the tag pass deletes it. |
| Html.TagPassDropsTag | read_email.py:209 | After a front part without `<`, the tag pass deletes a whole `<...>` tag and carries on with the rest of the text. |
| Html.TagStripLeavesNoTag | read_email.py:209 | The tag-stripping pass leaves text in which the tag pattern matches at no position. |
| Html.Substitute | read_email.py:202-214 | `re.sub`: because every match is at least one character long, a replacement of at most one character never lengthens the text. Its scan is stated by `Html.SubstituteFollowsScan`. |
| Html.Scan | read_email.py:202-214 | The left-to-right reading that `re.sub` makes of a text. The pieces cover the text in order. Each piece is either a whole match of the pattern at its position, or one character where the pattern does not match. |
| Html.ScanUnique | read_email.py:202-214 | A text has only one such reading, so matches never overlap and the leftmost match always wins. |
| Html.SubstituteFollowsScan | read_email.py:202-214 | The output of `re.sub` is that reading rendered in order: each match becomes the replacement and each other character is copied. |
| Html.MatchShape | read_email.py:202-213 | The script/style, line-break and tag patterns match only at a `<`. A script/style match ends on the literal `</\1>`, and a line-break match ends on `>`. A literal matches, ignoring case, exactly its own length. A tag match is `<`, one or more characters other than `>`, then `>`, and it is missing at a `<` only when no such `>` follows. A line-ending match is a CR LF pair when there is one, else a lone CR, and it occurs exactly at a CR. |
| Html.SubstituteNoMatch | read_email.py:202-214 | A substitution whose pattern matches nowhere leaves the text unchanged. |
| Html.ScriptStepKeepsBackslashFreeText | read_email.py:202 | As written, the script/style pass removes nothing from HTML without a backslash, so script and style bodies survive. |
| Html.HtmlToText | read_email.py:198-215 | Empty HTML gives empty text. Any output has no carriage return, no run of three line feeds, and no surrounding whitespace. |
| Html.UnescapeCanReintroduceTag | read_email.py:209-211 | Entities are unescaped after the tags are stripped. With an unescaper that decodes `&lt;b&gt;` to `<b>`, the converted text of `&lt;b&gt;` is matched by the tag pattern, so the output need not be tag-free. |
| Html.MarkupFreeUnchanged | read_email.py:202-209 | Text without a `<` goes through all six markup passes unchanged. |
| Mime.DecodePart | read_email.py:190-196 | A part's text is what the decoder yields, or `""` when decoding fails. |
| Mime.Collect | read_email.py:217-232 | Each part of the tree contributes at most one text: the collection is never longer than the post-order listing of the tree. |
| Mime.CollectIsPostOrder | read_email.py:217-232 | The recursive collection equals the plain and HTML filters over a post-order listing of the part tree: children before their parent, siblings in order. |
| Mime.JoinNonEmptyEmpty | read_email.py:239-243 | Joining only the non-empty texts gives `""` exactly when every text is empty. |
| Mime.Extract | read_email.py:234-255 | When plain parts exist, the result is empty iff all of them are. When only HTML parts exist, the result is normalised text. |
| Mime.PlainWins | read_email.py:239-240 | When any plain part exists anywhere in the tree, the result is the non-empty plain texts joined by blank lines, whatever HTML there is, and it does not depend on the entity unescaper. |
| Mime.SameDecodeSamePlain | read_email.py:190-196 | The collected plain texts depend on the decoder only. |
| Mime.HtmlFallback | read_email.py:241-243 | With no plain part but some HTML part, the result is the non-empty HTML texts joined by blank lines and converted by `html_to_text`. |
| Mime.LastResortIsRaw | read_email.py:245-255 | With no plain or HTML part, the result is the top-level body decoded as it is, or `""` without a body. The HTML conversion of that fallback can never apply. |
| MimeExamples.HtmlFirstPlainReturned | read_email.py:238-240 | In a multipart body whose HTML part comes first, the later plain part is returned. |
| MimeExamples.EmptyPlainBlocksHtml | read_email.py:238-240 | A plain part that decodes to nothing still wins over non-empty HTML: the result is empty. |
| Labels.MatchIndex | read_email.py:317-323 | The lookup stops at the first label whose name equals the path ignoring case, and no earlier label matches. |
| Labels.Levels | read_email.py:306-314 | One level per piece of the split path, the last being the whole path, each strictly longer than the ones before. Every other level followed by `/` starts the path. |
| Labels.Walk | read_email.py:313-339 | The level loop only appends to the label list, one label per level it creates. It creates only levels of the path, and it picks an id for the deepest level whenever there is a level. |
| Labels.WalkSpec | read_email.py:313-339 | The level loop creates exactly the levels that do not resolve, in order, appends only those labels, and leaves every level findable. The deepest level's id is the existing label's when it resolves and the new label's otherwise. |
| Labels.ApplyLabel | read_email.py:304-344 | `apply_label` creates exactly the missing levels in order, appends only them to the list, leaves every level findable, and attaches the deepest level's id. |
| Labels.ApplyLabelIdempotent | read_email.py:304-344 | With non-empty ids, applying the same path again creates nothing, leaves the list alone and attaches the same label. |
| Labels.TwoLevels | read_email.py:306-314 | A path `top/sub` has the levels `top` and `top/sub`. |
| Labels.NestedOnEmptyList | read_email.py:304-344 | On an empty label list `top/sub` creates `top` and then `top/sub`, and attaches only the latter. |

## Left out

- Authentication (`authenticate_gmail`) and building the service are left out: they are OAuth and network I/O.
- The message listing (`get_emails`) is given as a sequence of candidates. Its pagination, the coarse `after:` date query and the per-message full fetches, read for the timestamp, are network I/O, and those fetches are not recorded as calls. Only the exact-timestamp filter is modelled.
- Reading and writing `state.json` and the legacy file, JSON encoding and the atomic rename (`save_state_atomic`) are left out. What a read yields is the input of `State.LoadState`, and the state a run would save is its output.
- `_get_env_int` is left out: the environment is not modelled, so the two settings are a `Sync.Config` parameter.
- The one-minute wait and the retry of the classifier are folded into the verdict, as is the `exit(1)` after the second failure. `ClassifierDown` stands for two failed attempts.
- The prompts and the model of `autolabel_openai` are left out: what the classifier answers is an input.
- The subject extraction of `get_email_content` is left out, because it is used only for logging.
- `format_timestamp`, logging, the `processed` counter and `logger_config.py` are left out; none of them affects state or calls.
- Base64url/UTF-8 decoding (`decode_part_data`'s library calls) and `html.unescape` are parameters, not models.
- `Text.Lower` folds ASCII letters only, where Python's `str.lower()` folds all of Unicode.
- Timestamps are whole seconds, where the source divides milliseconds by 1000 into a float.
- Sync.RunWatermarkMonotone, Sync.RunNeverLowers, Sync.SyncWatermarkMonotone, Sync.RunFinalWatermark and Sync.SyncFinalWatermark assume non-negative timestamps, which provider timestamps always are. A negative timestamp can lower a zero watermark (`Sync.ZeroWatermarkReplaced`).
- Labels.ApplyLabel: the label list re-fetched after a creation is modelled as the old list followed by the new label, and the new label's id is `mint` of its name. A provider that reorders labels or reuses ids is not modelled.
- Labels.ApplyLabelIdempotent assumes every id in the list and every minted id is non-empty. With an empty id the source treats a found label as missing and creates it again.
- Sync.SyncOnce records the label path a job mail gets (`Jobs/<category>`) as a call. The label walk for that path is `Labels.ApplyLabel`, and the two are not composed into one state. A category containing `/` gives a deeper path, just as in the source.
- State.LoadState: a fresh state and a legacy-bootstrapped state carry no last-run time, and a fresh state has no watermark (read_email.py:66-71). `load_state` takes the backfill setting but does not use it; the backfill applies only when `main` computes the query start (read_email.py:368-369, `Sync.QueryStart`). A missing key of the state file defaults as `dict.get` does: a missing timestamp is absent and missing seen ids are empty.
- Sync.RunAbortsIff, Sync.SyncAbortsIff, Sync.Step: only the classifier's double failure is modelled as an abort. An exception from the provider also ends the run without saving: from the listing (read_email.py:374), the content fetch (read_email.py:399) or the label walk (read_email.py:414). Those failures are network I/O and are not modelled, so the abort characterisation holds among classifier failures only.
- Html.StripMarkup: the per-pass lemmas describe one tag between texts without `<`. Other tags are covered by `Html.StripOtherTag` when they do not start with `/`, `script`, `style` or `br`. These cases are covered only by the general facts (`Html.MatchShape`, `Html.SubstituteSkipsText`, the tag-free result): texts holding several tags, other closing tags such as `</span>`, script or style tags with attributes or in upper case, and bodies holding `<`.
- Html.Substitute: its own contract states only the length bound. The scan it performs is stated separately, by `Html.Scan`, `Html.ScanUnique` and `Html.SubstituteFollowsScan`.
- Html.MatchAt, Html.MatchShape: case-insensitive patterns fold ASCII letters only. Python's `IGNORECASE` on `str` patterns also matches `ſ` (U+017F) for `s`, `ı` (U+0131) and `İ` (U+0130) for `i`, and the Kelvin sign (U+212A) for `k`, so spellings such as `<ſcript>` or `</lı>` match in the source and not in the model.
