# Verified model of the SecurePrompt core

A Dafny model of three parts of SecurePrompt, with proofs of what they promise:

- **Sessions.** Refresh-token rotation, logout and revocation over one table. A rotation is two
  transactions with arbitrary other steps between them; every claim is over all reachable states or
  all interleaved runs.
- **Audit export.** Building and verifying a signed, hash-chained export with saturating counters,
  and its CSV pages.
- **Redaction and restoration.** Offset-exact redaction of text, documents and page images, label
  assignment, overlap merging, normalisation with a map back, and restoring placeholders from a
  token vault, at once or streamed.

`dafny verify dfyconfig.toml` checks the whole project.

## Layout

| files | component |
|---|---|
| `RefreshTokens`, `SessionSafety`, `SessionTheorems`, `SessionEffects`, `SessionQueries`, `SessionStore` | sessions: the state machine, its invariant, the theorems, what each step does to the table, the SQL queries, the imperative store |
| `AuditChain`, `AuditManifest`, `AuditVerify`, `AuditTheorems`, `AuditRecipe`, `Csv`, `Folding`, `Digits` | audit export |
| `Placeholders`, `RestoreOrder`, `Vault`, `StreamCuts`, `Streaming` | restoring placeholders |
| `Labels`, `LabelTheorems`, `Spans`, `Reversible`, `ReversibleOrder`, `Splice`, `SpliceLimits`, `Containers`, `Merge`, `MergeTheorems` | labelling, merging and splicing |
| `Normalize`, `NormalizeTheorems` | normalisation and the map back |
| `Pages`, `Boxes`, `VisualCover`, `RepeatCover`, `RepeatLimits`, `PaintReasons` | page images |
| `Utf8`, `Strings`, `Sorting`, `Wrappers` | shared vocabulary |

Code that updates state step by step is a method or a class proved against a specification
function; what the source promises is proved about those functions.

## Assumptions

- Each database transaction is one atomic step. `NOW()` is a clock that never runs backwards. A
  sign-in uses a session id no row carries yet. `token_hash` is unique, so an insert that reuses one
  fails and changes nothing.
- SHA-256, JSON, Ed25519 and base64 are function-valued parameters. The only laws used are that
  parsing undoes printing, decoding undoes encoding, and checking accepts what was signed.
  Nothing assumes SHA-256 injective: commitment results say "equal, or here are two different
  strings, both hashed in these runs, with one digest".
- Upper-casing, title-casing, the canonical form of a value, Unicode categories and the alphanumeric
  test are arbitrary functions.
- Coordinates are reals. The `u64` row totals of `build_manifest` wrap on overflow, as in a release
  build; `verify_export` cannot overflow, so no choice is made there.

## Where the code and its documentation differ

The model follows the code.

- `TokenVault::restore` replaces entries in map order. Brace-delimited placeholders and brace-free
  values do not make the order invisible: with `{{A_1}}` for `X` and `{{B_1}}` for `A_1`, the content
  `{{{{B_1}}}}` restores to `X` or to `{{A_1}}`. `OrderFreeIffUnobservable` gives the exact
  condition: no value is part of another entry's placeholder body. On text whose only braces are
  placeholders, which is what redaction writes, every order agrees for all brace-free values.
- `redact_spans` is described as removing the original text of every span by keeping the longest
  non-overlapping set. It goes by start offset, longer first only on ties. Of two spans that overlap
  in part the later one is dropped, and the part of it behind the earlier one stays in the output:
  with spans 0..3 and 2..6 the characters 3..6 remain (`TailStays`). `AllWholeIffEnclosed` gives the
  exact condition on the given spans, `LaminarIffAllReplaced` that on all selections from them, and
  `AlwaysRedactedIffSingle` shows that only one-character values are safe from every detection.
- `_redact_reversible` takes the first of the spans with equal starts, also when it is shorter, and
  keeps the tail of a partly overlapped one too (`LaterTailStays`). `AllDetectionsWholeIffHeaded`
  gives the exact condition for every detection to be replaced whole.
- `_redact_container` is described as covering every repeat of a detected value. A value that can
  overlap itself may survive: the scan reports non-overlapping occurrences, and a reported one may
  lose against a detection. `AlwaysTouchedIffUnbordered` gives the exact condition.
- `spans_to_rects` is described as boxing every occurrence of each labelled value. It skips
  occurrences inside words, and two more kinds. The scan reports non-overlapping occurrences, so a
  value with a free-standing shifted copy inside itself can escape; `AlwaysMetIffNoFreeOverlap`
  gives the exact condition. An occurrence that partly meets a covered range is skipped whole, so
  the rest of it stays unpainted: on a page that reads `Anna`, with `Ann` detected and both labelled,
  the last glyph stays bare (`FrontLeavesLast`). `RepeatPaintedOrBlocked` says what can block an
  occurrence, and `AlwaysPaintedIffSingle` that only one-character values are painted in full on
  every page.
- `PlaceholderStreamer` relies on placeholders opening with an upper-case letter. Another one can be
  emitted unrestored; `StreamsExactlyTitled` gives the exact condition.
- `verify_export` rejects an export of 2^32 - 1 pages or more although `build_manifest` signs it.
  `BuiltExportVerifies` gives the exact bound.
- The race gate of `rotate` answers `ReplayDetected` for any revocation between probe and commit,
  not only for a rotation.
- `group_by_line` is described as grouping within half the box height; the factor is 0.6.

Two more behaviours that no document denies, with their exact conditions:

- `merge_overlapping_spans` keeps the widest member of a cluster, not the cluster's extent, so
  characters that only other members cover are lost (`NothingLostIffHolders`).
- `normalize_for_ner` is not idempotent: hyphen, no-break space, newline becomes hyphen, space,
  newline, which a second pass deletes (`SecondPassIffNoBreak`).

## Model

| member | source | states |
|---|---|---|
| SessionSafety.StepKeepsInv | secureprompt-api/src/db/refresh_token_repo.rs:174-299 | every step, with any rotations in flight, keeps the invariant: one chain per session, distinct hashes, a log that matches the table, snapshots that describe their rows |
| SessionSafety.ReachableInv | secureprompt-api/src/db/refresh_token_repo.rs:116-342 | the invariant holds in every reachable state |
| SessionTheorems.SessionIsOneChain | secureprompt-api/src/db/refresh_token_repo.rs:195-290 | a session's rows are one linear `replaced_by` chain rooted at its sign-in row |
| SessionTheorems.NeverTwoUsable | secureprompt-api/src/db/refresh_token_repo.rs:246-290 | two unrevoked rows of one session are the same row |
| SessionTheorems.ClosedStaysClosed | secureprompt-api/src/db/refresh_token_repo.rs:263-281 | a session without an unrevoked row never gets one again in any continuation, in-flight rotations included |
| SessionTheorems.RevokeOneClosesOneSession | secureprompt-api/src/db/session_revocation_repo.rs:305-336 | other sessions' rows are unchanged, the reported count is 0 or 1 and is 1 exactly when a row was closed, and the session ends up closed |
| SessionTheorems.SameOwner | secureprompt-api/src/db/refresh_token_repo.rs:246-261 | all rows of a session have one user and workspace |
| SessionTheorems.NarrowRecordMovesNoWatermark | secureprompt-api/src/db/session_revocation_repo.rs:184-203 | a record that names a session leaves every user's watermark where it was |
| SessionTheorems.WatermarkMonotone | secureprompt-api/src/db/session_revocation_repo.rs:184-203 | the watermark never moves back over any run |
| SessionTheorems.RotatedAtMostOnce | secureprompt-api/src/db/refresh_token_repo.rs:246-290 | over any interleaved run a row yields at most one `Rotated`, and it names its successor |
| SessionTheorems.ProbeAnswersMeanWhatTheySay | secureprompt-api/src/db/refresh_token_repo.rs:195-237 | on the probe path `ReplayDetected` holds exactly when a successor was committed, `Revoked` exactly when the row was closed without one, `Expired` exactly when it is unrevoked and past its expiry |
| SessionTheorems.RaceIsDecidedByRevocation | secureprompt-api/src/db/refresh_token_repo.rs:246-290 | a commit after any interleaving wins exactly when nothing revoked its row; a loser leaves the table unchanged and its row was revoked no earlier than the probe |
| SessionEffects.SignInStores | secureprompt-api/src/db/refresh_token_repo.rs:116-141 | a sign-in adds one unrevoked row with exactly the fields given, or fails on a hash or id in use and changes nothing |
| SessionEffects.ProbeRemembers | secureprompt-api/src/db/refresh_token_repo.rs:174-237 | a probe that goes on remembers the row its token hashes to, which is unrevoked and unexpired |
| SessionEffects.RotationHandsOut | secureprompt-api/src/db/refresh_token_repo.rs:246-299 | a winning commit closes the old row in favour of one new row with the hash, expiry and token id asked for, in the old row's session, and changes nothing else |
| SessionEffects.SuccessorIsUsable | secureprompt-api/src/db/refresh_token_repo.rs:174-299 | the token handed out can itself be rotated, until the expiry that was asked for |
| SessionEffects.RevokeAllClosesUser | secureprompt-api/src/db/refresh_token_repo.rs:317-342 | log out everywhere closes exactly the open rows of that user and changes no other |
| SessionEffects.RevokeClosesTarget | secureprompt-api/src/db/session_revocation_repo.rs:231-256 | the user-wide lever closes exactly the target's open rows in the record's workspace and records their number |
| SessionEffects.RevokeOneClosesTarget | secureprompt-api/src/db/session_revocation_repo.rs:305-336 | the one-session lever closes exactly the target's open rows of that session and records their number |
| SessionEffects.WatermarkIsMaximum | secureprompt-api/src/db/session_revocation_repo.rs:184-203 | the watermark is the largest bound over the user-wide records of that user and workspace, none without one |
| SessionQueries.LiveIffLastLive | secureprompt-api/src/db/session_repo.rs:108-149 | the `bool_or` of a session's group holds exactly when the last row of its chain is live |
| SessionQueries.SummaryDescribes | secureprompt-api/src/db/session_repo.rs:108-149 | the aggregates of a group are the sign-in row's start and device, the last row's use time and the latest expiry |
| SessionQueries.ListingIsTheChainView | secureprompt-api/src/db/session_repo.rs:108-149 | every answer of `list_live` has exactly one entry per session of the user whose last row is live, and it describes that chain |
| SessionQueries.ListingExists | secureprompt-api/src/db/session_repo.rs:108-149 | `list_live` has an answer in every state |
| SessionQueries.ChainUnique | secureprompt-api/src/db/refresh_token_repo.rs:263-281 | the table determines a session's chain |
| SessionQueries.FindLiveSessionIsTheChainView | secureprompt-api/src/db/session_repo.rs:181-218 | it answers exactly for a live session of the user; its list holds, in some order, one id per recorded chain token minted after the bound |
| SessionQueries.FindingExists | secureprompt-api/src/db/session_repo.rs:181-218 | `find_live_session` has an answer in every state |
| SessionStore.Store.constructor | secureprompt-api/src/db/refresh_token_repo.rs:107-109 | the empty store is valid |
| SessionStore.Store.Insert | secureprompt-api/src/db/refresh_token_repo.rs:116-141 | the sign-in step, including its failure |
| SessionStore.Store.RotateProbe | secureprompt-api/src/db/refresh_token_repo.rs:174-237 | the probe step: an answer, or a remembered snapshot |
| SessionStore.Store.RotateCommit | secureprompt-api/src/db/refresh_token_repo.rs:246-299 | the commit step: insert, conditional update, commit or roll back; what it hands out is in SessionEffects.RotationHandsOut |
| SessionStore.Store.RevokeAllForUser | secureprompt-api/src/db/refresh_token_repo.rs:317-342 | the log-out-everywhere step |
| SessionStore.Store.RevokeUser | secureprompt-api/src/db/session_revocation_repo.rs:231-256 | the user-wide revocation step with its record; which rows it closes is in SessionEffects.RevokeClosesTarget |
| SessionStore.Store.RevokeOneSession | secureprompt-api/src/db/session_revocation_repo.rs:305-336 | the one-session revocation step with its record |
| SessionStore.Store.FindActiveByHash | secureprompt-api/src/db/refresh_token_repo.rs:372-400 | finds an unrevoked row before its expiry, exactly when one carries the hash |
| SessionStore.ReachableIsValid | secureprompt-api/src/db/refresh_token_repo.rs:116-342 | every reachable state meets the store's validity condition |
| AuditChain.HeaderTextInjective | secureprompt-common/src/audit_export.rs:915-934 | the genesis text determines every header field |
| AuditChain.GenesisIsNotALink | secureprompt-common/src/audit_export.rs:915-941 | a genesis preimage is never a 64-byte link preimage |
| AuditChain.RootCommits | secureprompt-common/src/audit_export.rs:915-941 | equal chain roots force equal headers, lengths and page digests, or two different hashed strings share a digest |
| AuditManifest.BuildManifest | secureprompt-common/src/audit_export.rs:1289-1396 | the first input fault, or the manifest with saturating counters that AuditRecipe.ManifestTabulates describes |
| AuditManifest.FoldSections | secureprompt-common/src/audit_export.rs:1317-1388 | the nested loops compute the entries, chain and totals of all pages in order |
| AuditManifest.CheckSections | secureprompt-common/src/audit_export.rs:1300-1315 | accepts exactly the required, balanced, non-empty sections and names the first fault otherwise |
| AuditVerify.BuildExport | secureprompt-common/src/audit_export.rs:1398-1412 | what is serialized, signed and surfaced beside the manifest, and when it fails |
| AuditVerify.CheckPartition | secureprompt-common/src/audit_export.rs:1626-1653 | passes exactly when the sections tile the pages, name them and add up; otherwise reports the first failing check |
| AuditVerify.CheckPages | secureprompt-common/src/audit_export.rs:1655-1667 | passes exactly when every page is numbered in order and digests to its entry |
| AuditVerify.CheckChain | secureprompt-common/src/audit_export.rs:1669-1687 | passes exactly when every link, the root and the row total agree |
| AuditVerify.CountIsExact | secureprompt-common/src/audit_export.rs:1602-1653 | a saturated page count never passes the partition check |
| AuditVerify.VerifyExport | secureprompt-common/src/audit_export.rs:1536-1690 | total on every submission without overflow; accepts exactly the authentic consistent ones and otherwise names the first failing check |
| AuditVerify.FaultUnique | secureprompt-common/src/audit_export.rs:1536-1690 | a rejected submission has exactly one first failing check |
| AuditRecipe.BuiltExportVerifies | secureprompt-common/src/audit_export.rs:1289-1412 | a built and signed export is accepted with the sections' own pages if and only if there are at most 2^32 - 2 of them |
| AuditRecipe.BuildThenVerify | secureprompt-common/src/audit_export.rs:1289-1690 | building and then verifying the sections' own pages passes exactly up to that bound and gives the manifest back |
| AuditTheorems.PagesAreCommitted | secureprompt-common/src/audit_export.rs:1600-1667 | two page lists accepted with one manifest are equal, or two pages collide |
| AuditTheorems.RootIdentifiesExport | secureprompt-common/src/audit_export.rs:1669-1681 | two accepted exports with one chain root have one header and the same pages, or exhibit a collision |
| AuditTheorems.SectionsPartitionThePages | secureprompt-common/src/audit_export.rs:1617-1687 | in an accepted export the sections partition pages 1..total, each page carries its section's name, and section rows sum to `total_rows` although no check compares them |
| AuditRecipe.ConsistentIffRecipe | secureprompt-common/src/audit_export.rs:1600-1690 | the verifier's checks pass if and only if an auditor's recipe does: chain values recomputed from the header lines and the raw pages are the ones spelled, and the two sections' ranges, names and row sums add up |
| AuditRecipe.ManifestTabulates | secureprompt-common/src/audit_export.rs:1289-1396 | every page of every section has, at its place, its number, section name, rows and digest; every section its range, page count, row sum and notes; and the totals are those of the sections given |
| AuditRecipe.ManifestRepeatsHeader | secureprompt-common/src/audit_export.rs:1373-1396 | the manifest repeats the header and the notes |
| AuditRecipe.SubmittedPagesAreGiven | secureprompt-common/src/audit_export.rs:1317-1371 | the pages hashed are the sections' pages, one section after the other |
| AuditRecipe.InputFaultIs | secureprompt-common/src/audit_export.rs:1289-1315 | a build fails exactly for sections other than the two planes in order, and then for the first that is unbalanced or empty |
| AuditRecipe.TamperedPageIsNamed | secureprompt-common/src/audit_export.rs:1655-1667 | with other pages in place of accepted ones, the answer names the first page that differs, or that page collides with the original |
| AuditRecipe.MissingPagesAreCounted | secureprompt-common/src/audit_export.rs:1600-1608 | with pages missing or added, the answer is the promised and the actual count |
| Csv.RenderPage | secureprompt-common/src/audit_export.rs:829-852 | the page is the header line and one line per row, and reads back as the columns and every row's values |
| Csv.ReadLinesRendered | secureprompt-common/src/audit_export.rs:803-852 | a reader by section 2 of RFC 4180 recovers every line whatever its cells hold |
| Csv.PageIsInvertible | secureprompt-common/src/audit_export.rs:803-852 | the header and every nullable cell are recovered, NULL distinct from the empty string |
| Csv.EqualBytesEqualCells | secureprompt-common/src/audit_export.rs:803-852 | pages with equal bytes have equal columns and cells |
| Csv.PageReadsBack | secureprompt-common/src/audit_export.rs:800-852 | reading a page gives the column names and, per row and column, NULL for a missing or null value and the value's own spelling otherwise |
| Csv.PageExample | secureprompt-common/src/audit_export.rs:803-852 | the exact bytes of a small page: quotes doubled, commas between, a line feed after each line, nothing for NULL |
| Digits.HexRoundTrip | secureprompt-common/src/audit_export.rs:943-955 | decoding undoes hex encoding |
| Digits.HexExample | secureprompt-common/src/audit_export.rs:943-955 | digits are lower-case, high half first |
| Digits.DecimalExample | secureprompt-common/src/audit_export.rs:915-934 | digits are printed most significant first |
| Digits.DecimalHasNoLeadingZero | secureprompt-common/src/audit_export.rs:915-934 | a positive number is printed without a leading zero |
| Placeholders.ReplaceAfterSubstitute | secureprompt-common/src/types.rs:105-111 | one more replacement pass is one more entry of a simultaneous substitution when no value can complete that placeholder |
| Placeholders.AnyOrderSubstitutes | secureprompt-common/src/types.rs:105-111 | then every order gives one simultaneous substitution |
| RestoreOrder.OrderMatters | secureprompt-common/src/types.rs:105-111 | a value inside another entry's body makes two orders differ on some content |
| RestoreOrder.OrderMattersExample | secureprompt-common/src/types.rs:105-111 | a concrete content whose result depends on the order |
| RestoreOrder.OrderFreeIffUnobservable | secureprompt-common/src/types.rs:105-111 | every content restores alike under all orders if and only if no value is part of another entry's placeholder body |
| RestoreOrder.RestoreFillsPieces | secureprompt-common/src/types.rs:105-111 | on text whose only braces are placeholders, any order fills in exactly the entries |
| Vault.TokenVault.constructor | secureprompt-common/src/types.rs:54-57 | a new vault is empty |
| Vault.TokenVault.Insert | secureprompt-common/src/types.rs:79-81 | adds or overwrites one entry |
| Vault.TokenVault.Resolve | secureprompt-common/src/types.rs:84-86 | the stored original, exactly when there is one |
| Vault.TokenVault.OriginalValues | secureprompt-common/src/types.rs:100-102 | exactly the stored originals |
| Vault.TokenVault.Restore | secureprompt-common/src/types.rs:105-111 | replacement in some order of the entries; the simultaneous substitution, or the filled pieces, where those apply |
| StreamCuts.SubstituteSplit | secureprompt-api/src/http/streaming.rs:125-172 | restoring two parts apart equals restoring the whole when no placeholder straddles the cut |
| StreamCuts.FindPlaceholderStart | secureprompt-api/src/http/streaming.rs:188-199 | the first `{{` followed by an upper-case letter |
| StreamCuts.CutIsSafe | secureprompt-api/src/http/streaming.rs:125-172 | wherever the streamer cuts, restoring the two sides apart changes nothing, whatever still arrives |
| StreamCuts.PieceHasKeyAtEnd | secureprompt-api/src/http/streaming.rs:125-172 | what is emitted holds at most one placeholder, at its end |
| StreamCuts.HeldHasNoKey | secureprompt-api/src/http/streaming.rs:125-172 | what is held back holds no complete placeholder |
| StreamCuts.PieceRestores | secureprompt-common/src/types.rs:105-111 | such a piece restores to the one simultaneous substitution in every order of the entries, also where a value is part of another entry's body |
| Streaming.NextCut | secureprompt-api/src/http/streaming.rs:125-172 | where the loop cuts: after the first closer behind the first opener, before an unclosed opener, or before a trailing brace |
| Streaming.PlaceholderStreamer.constructor | secureprompt-api/src/http/streaming.rs:112-121 | nothing is held at first |
| Streaming.PlaceholderStreamer.Push | secureprompt-api/src/http/streaming.rs:125-172 | for every vault, emits the restored pieces of what arrived, each in some order of the entries, and holds back nothing but an unfinished placeholder at its end |
| Streaming.HoldsOnlyUnfinished | secureprompt-api/src/http/streaming.rs:125-172 | everything but a trailing `{`, `{{` or an opener without its `}}` is emitted at once |
| Streaming.PushedSettles | secureprompt-api/src/http/streaming.rs:125-172 | for upper-case placeholders and brace-free values, what a push emits followed by the restored rest is the restored whole, and the rest holds no complete placeholder |
| Streaming.PlaceholderStreamer.Flush | secureprompt-api/src/http/streaming.rs:175-182 | the remainder, restored in some order of the entries |
| Streaming.StreamAll | secureprompt-api/src/http/streaming.rs:125-182 | any chunking of a reply streams out as the one simultaneous substitution of the reply, when every placeholder opens with an upper-case letter and every value is brace-free |
| Streaming.StreamIsSubstitution | secureprompt-api/src/http/streaming.rs:125-182 | the same for every possible run of the streamer, whatever order each restore takes |
| Streaming.WholeTextMayDiffer | secureprompt-common/src/types.rs:105-111 | where some value is part of another entry's body, restoring some whole text at once differs from that substitution |
| Streaming.UntitledEscapes | secureprompt-api/src/http/streaming.rs:188-199 | a placeholder that opens in any other way, cut before its last brace, is emitted unrestored |
| Streaming.StreamsExactlyTitled | secureprompt-api/src/http/streaming.rs:125-199 | streaming agrees with the substitution for all chunkings if and only if every placeholder opens with an upper-case letter |
| Labels.BuildLabels | secureprompt-ml/app/secure_labels.py:52-76 | one label per distinct non-empty (type, value) in first-appearance order, numbered by canonical key |
| Labels.SameLabelIffSameEntity | secureprompt-ml/app/secure_labels.py:52-76 | values of one type share a label if and only if their canonical forms agree; values of two types if and only if the types have one title and the values one number |
| Labels.RanksHaveNoGaps | secureprompt-ml/app/secure_labels.py:64-74 | each type is numbered from 1 without gaps |
| Labels.LabelTextInjective | secureprompt-ml/app/secure_labels.py:73 | the label text determines title and number |
| LabelTheorems.EntryPerValue | secureprompt-ml/app/secure_labels.py:60-75 | exactly the (type, text) pairs of detections with a text are labelled, each once |
| LabelTheorems.EntriesInFirstAppearanceOrder | secureprompt-ml/app/secure_labels.py:60-75 | labels stand in the order in which their values first appear |
| LabelTheorems.NewEntityGetsNextNumber | secureprompt-ml/app/secure_labels.py:69-75 | the first value of an entity gets title and number, the number being one more than the entities of its type before it |
| LabelTheorems.SeenEntityKeepsPlaceholder | secureprompt-ml/app/secure_labels.py:69-75 | a later value of the entity repeats that placeholder |
| LabelTheorems.DetectionFindsItsLabel | secureprompt-ml/app/secure_boxes.py:111 | looking up a detection finds the label of its own type and text, and none when it has no text |
| Spans.GreedyIsSpaced | secureprompt-ml/app/secure_labels.py:122-127 | the chosen spans are in range, in order and disjoint |
| Spans.DroppedStartsInside | secureprompt-ml/app/secure_labels.py:122-127 | each span left out starts inside a chosen one |
| Spans.AllWholeIffHeaded | secureprompt-ml/app/secure_labels.py:122-127 | every span lies inside one chosen span if and only if any two that overlap lie inside a third that comes first among those with its start |
| Reversible.RedactReversible | secureprompt-ml/app/main.py:463-491 | the redacted bytes and the token map, for any detections |
| Reversible.RedactionCutsPieces | secureprompt-ml/app/main.py:478-491 | on brace-free text with faithful detections, overlapping or not, the output is clean pieces of that text |
| Reversible.RedactThenRestore | secureprompt-ml/app/main.py:463-491 | restoring, in any order, fills each token with the map's value, and gives the original text back when each label has one surface value |
| Reversible.TokenMapKeepsLast | secureprompt-ml/app/main.py:472 | a token shared by variants stands for the last of them |
| Reversible.EveryDetectionIsHit | secureprompt-ml/app/main.py:478-491 | the first byte of every detection inside the text lies in a replaced range, also when detections carry cleaned texts or others reach outside the text, and all its bytes when overlapping spans have a head |
| Reversible.AllDetectionsWholeIffHeaded | secureprompt-ml/app/main.py:478-491 | every detection inside the text is replaced in one piece if and only if any two spans inside it that overlap have a head |
| Reversible.CutIgnoresOutside | secureprompt-ml/app/main.py:483-490 | spans that reach outside the text are passed over |
| ReversibleOrder.TokensInTextOrder | secureprompt-ml/app/main.py:471 | tokens are listed by where their values first stand in the text, whatever order the detections come in |
| Reversible.LaterTailStays | secureprompt-ml/app/main.py:483-490 | of two overlapping spans the bytes of the later one behind the earlier stay, also when both start together |
| Splice.RedactSpans | secureprompt-ml/app/secure_labels.py:110-130 | right-to-left splicing equals the left-to-right gaps and labels of the chosen spans |
| Splice.ChosenCoversStarts | secureprompt-ml/app/secure_labels.py:120-127 | each valid span is chosen or starts inside a chosen one |
| Splice.AllWholeIffEnclosed | secureprompt-ml/app/secure_labels.py:110-130 | every valid span lies inside one chosen span if and only if any two that overlap lie inside a third |
| Splice.TailStays | secureprompt-ml/app/secure_labels.py:120-130 | of two spans that overlap in part, every position of the later one behind the earlier stays in the output |
| Splice.LaminarIffAllReplaced | secureprompt-ml/app/secure_labels.py:110-130 | whichever of the spans are given, all characters of the valid ones are replaced, if and only if those that overlap are nested or start together |
| Splice.ValueRepeatSpans | secureprompt-ml/app/secure_labels.py:133-152 | the left-to-right non-overlapping occurrences of every value |
| Splice.ScanFindsAll | secureprompt-ml/app/secure_labels.py:149-151 | the scan finds every occurrence of a value that cannot overlap itself |
| Splice.RedactContainer | secureprompt-ml/app/secure_docs.py:32-35 | detected spans and repeats spliced together |
| Splice.NoValueLeft | secureprompt-ml/app/secure_docs.py:32-35 | no labelled value that cannot overlap itself occurs wholly in an untouched stretch |
| Splice.DetectedSpansAreHit | secureprompt-ml/app/secure_docs.py:32-35 | every detected span starts inside a replaced range, and lies inside one when any two spans and repeats that overlap lie inside a third |
| SpliceLimits.BorderedSurvives | secureprompt-ml/app/secure_docs.py:32-35 | for every value that can overlap itself, a text and a detection, its own value swept too, that leave it untouched |
| SpliceLimits.AlwaysTouchedIffUnbordered | secureprompt-ml/app/secure_docs.py:32-35 | a labelled value is touched in all texts, with all detections whose own values are swept, if and only if it cannot overlap itself |
| SpliceLimits.DetectionLosesToEarlier | secureprompt-ml/app/secure_docs.py:32-35 | for every value of two or more characters, a text with an earlier detection, both swept, that leaves all but the first character of a detection of it |
| SpliceLimits.AlwaysRedactedIffSingle | secureprompt-ml/app/secure_docs.py:32-35 | every detection of a value is replaced whole on all inputs if and only if the value is one character |
| Containers.ContainerRanges | secureprompt-ml/app/secure_docs.py:51-55 | each container's character range in the joined text |
| Containers.ContainerSpansOf | secureprompt-ml/app/secure_docs.py:38-69 | the detections' spans, each in the first container that holds it |
| Containers.DetectionReachesItsContainer | secureprompt-ml/app/secure_docs.py:49-69 | a labelled detection on characters of one container becomes exactly that span of exactly that container |
| Containers.ContainerSpansExactly | secureprompt-ml/app/secure_docs.py:49-69 | a container gets exactly the labelled detections that lie inside it, each on its own characters and under its own label |
| Containers.DetectionIsRedacted | secureprompt-ml/app/secure_docs.py:32-69 | end to end, its first character lies in a replaced range, and all its characters do when any two spans and repeats that overlap lie inside a third |
| Merge.MergeOverlappingSpans | secureprompt-ml/app/secure_labels.py:79-107 | the sweep per type, sorted by start |
| Merge.ClusterRepresents | secureprompt-ml/app/secure_labels.py:92-105 | each cluster is connected and represented by its widest span, of several the one that starts first |
| Sorting.SortIsStable | secureprompt-ml/app/secure_labels.py:120-121 | elements that tie keep their order |
| MergeTheorems.ConnectedIffChained | secureprompt-ml/app/secure_labels.py:79-107 | components, defined as closed sets, are chains of same-type overlaps |
| MergeTheorems.OnePerComponent | secureprompt-ml/app/secure_labels.py:79-107 | exactly one output per connected component of same-type overlap, its widest input, of several the one that starts first |
| MergeTheorems.OutputsDisjoint | secureprompt-ml/app/secure_labels.py:79-107 | outputs of one type do not overlap |
| MergeTheorems.MergedIsOrdered | secureprompt-ml/app/secure_labels.py:106-107 | the output is ordered by start |
| MergeTheorems.MergeIsIdempotent | secureprompt-ml/app/secure_labels.py:79-107 | merging again changes nothing up to order |
| MergeTheorems.NothingLostIffHolders | secureprompt-ml/app/secure_labels.py:79-107 | every input lies inside an output of its type if and only if each component has a member containing all of it |
| MergeTheorems.PartialOverlapLoses | secureprompt-ml/app/secure_labels.py:96-99 | of two detections of one type that overlap in part, one is not covered by the output |
| Normalize.NormalizeForNer | secureprompt-ml/app/text_norm.py:60-111 | the kept characters and where they came from |
| Normalize.DroppedIsNoise | secureprompt-ml/app/text_norm.py:76-92 | only zero-width and format characters and hyphen-blanks-newline runs are deleted |
| NormalizeTheorems.KeptExactly | secureprompt-ml/app/text_norm.py:60-111 | a position is kept if and only if its character is none of the five zero-width code points, not a format character, and not in a run of a dash, spaces or tabs and a line feed |
| Normalize.KeptIsShown | secureprompt-ml/app/text_norm.py:82-110 | what is kept is written unchanged, except that spaces, tabs and characters without a glyph become a space |
| Normalize.ScanIncreasing | secureprompt-ml/app/text_norm.py:60-111 | the map is strictly increasing and stays inside the text |
| Normalize.RemapIsExact | secureprompt-ml/app/text_norm.py:125-135 | a span maps to the smallest original range holding its kept characters, which holds no other kept one |
| Normalize.RemapKeepsDisjoint | secureprompt-ml/app/text_norm.py:125-135 | disjoint spans map to disjoint ranges |
| Normalize.RemapClamps | secureprompt-ml/app/text_norm.py:129-135 | of a text with nothing kept every span maps to (0, 0); otherwise the start is clamped into the text and the end past the start, and the result is the exact range of that span |
| Normalize.SliceNormalizesToSpan | secureprompt-ml/app/text_norm.py:60-135 | normalising the original slice alone gives back exactly the span, despite the lookahead |
| Normalize.SecondPassIffNoBreak | secureprompt-ml/app/text_norm.py:76-110 | a second pass changes nothing if and only if the first one's output has no hyphen, blanks and newline in a row |
| Normalize.SecondPassExample | secureprompt-ml/app/text_norm.py:82-102 | hyphen, no-break space, newline normalises to hyphen, space, newline and then to nothing |
| Pages.AssemblePages | secureprompt-ml/app/document_scan.py:9-23 | the joined text and each page's byte offset in it |
| Pages.PageInDocument | secureprompt-ml/app/document_scan.py:9-23 | each page sits in the document where its offset says |
| Pages.PageOf | secureprompt-ml/app/document_scan.py:26-34 | the last page starting at or before a byte, if any |
| Pages.PartitionByPage | secureprompt-ml/app/document_scan.py:37-56 | the detections of each page, in its own offsets and clipped at its end |
| Pages.OnPageExactly | secureprompt-ml/app/document_scan.py:37-56 | a page gets exactly the non-empty detections that start on it, in its own offsets and cut off at its end |
| Pages.DetectionReachesItsPage | secureprompt-ml/app/document_scan.py:37-56 | a detection inside one page reaches exactly that page, unclipped |
| Boxes.ByteToCharMap | secureprompt-ml/app/secure_boxes.py:27-34 | maps exactly the byte offsets of character boundaries to their indices |
| Boxes.GroupByLine | secureprompt-ml/app/secure_boxes.py:37-53 | each box joins the first line whose first box is level with it, or starts one |
| Boxes.EveryBoxGrouped | secureprompt-ml/app/secure_boxes.py:37-53 | no box is lost |
| Boxes.LinesAreLevel | secureprompt-ml/app/secure_boxes.py:37-53 | every box on a line was given, is within 0.6 of its own height of the line's first box, and of no earlier line's first box |
| Boxes.BoundsAreTight | secureprompt-ml/app/secure_boxes.py:76-79 | a line's bounds hold its boxes and touch one on every side |
| Boxes.RoundsOutward | secureprompt-ml/app/secure_boxes.py:56-67 | in page terms: the rectangle holds the box, `dpi` pixels to 72 points and the y axis flipped unless the page is OCR, and exceeds it by less than a pixel on each side |
| Boxes.EmitRects | secureprompt-ml/app/secure_boxes.py:70-81 | one rectangle per line of the range's glyphs |
| Boxes.RangeIsCovered | secureprompt-ml/app/secure_boxes.py:37-81 | each glyph box of a range lies, in page terms, in a rectangle with the range's label |
| Boxes.RectHugsGlyphs | secureprompt-ml/app/secure_boxes.py:56-81 | every side of a rectangle is within a pixel of a side of one of the range's own glyphs |
| VisualCover.SpansToRects | secureprompt-ml/app/secure_boxes.py:94-131 | detections first, then free-standing repeats of labelled values, longest first; what that covers is in the rows below |
| VisualCover.PageCover | secureprompt-ml/app/secure_boxes.py:94-112 | every glyph of a detection on character boundaries lies, in page terms, in a rectangle with its label |
| PaintReasons.EveryRectHasReason | secureprompt-ml/app/secure_boxes.py:94-131 | every rectangle is one of a detection, under its label, or of a repeat with no letter or digit beside it that no detection reaches into, under the first label of its value |
| RepeatCover.LongerHitsFirst | secureprompt-ml/app/secure_boxes.py:122-131 | the sweep looks for longer values before shorter ones |
| RepeatCover.ScanFindsFree | secureprompt-ml/app/secure_boxes.py:122-131 | the sweep reports every free-standing occurrence of a value whose shifted copies inside itself all follow a letter or digit |
| RepeatCover.RepeatsAreCovered | secureprompt-ml/app/secure_boxes.py:114-131 | every free-standing occurrence of such a value meets a fully painted range, detected or not |
| RepeatCover.RepeatPaintedOrBlocked | secureprompt-ml/app/secure_boxes.py:114-131 | it is painted in full unless it meets a detection's range or a hit, of a value at least as long, that the sweep painted earlier |
| RepeatLimits.FreeOverlapEscapes | secureprompt-ml/app/secure_boxes.py:122-131 | for any other value, a page, its labels and a detection on it that leave a free-standing occurrence unmet |
| RepeatLimits.AlwaysMetIffNoFreeOverlap | secureprompt-ml/app/secure_boxes.py:114-131 | free-standing occurrences of a labelled value are met on all pages if and only if every shifted copy inside the value follows a letter or digit |
| RepeatLimits.LastGlyphStaysBare | secureprompt-ml/app/secure_boxes.py:105-131 | a detection on a front part of the page text, with nothing else to paint, leaves the last glyph of a value at its end outside every rectangle |
| RepeatLimits.FrontLeavesLast | secureprompt-ml/app/secure_boxes.py:105-131 | a page reading the value alone, with all but its last character detected and both labelled, leaves that character bare |
| RepeatLimits.AlwaysPaintedIffSingle | secureprompt-ml/app/secure_boxes.py:114-131 | free-standing occurrences of a labelled value are painted in full on all pages if and only if the value is one character |
| VisualCover.DetectedGlyphsAreCovered | secureprompt-ml/app/document_scan.py:9-56 | end to end over joining, partition, offset mapping, line grouping, y-flip and rounding: every glyph of a detection inside one page lies, by its own coordinates, dpi and page height, in a rectangle carrying its label |

## Left out

- `_redact`: the same cursor loop as `_redact_reversible` with `<LABEL>` texts.
- `redact_text`: one regular-expression pass; the span-based redaction that replaced it is modelled.
- `title_case`, `_canonical` and the suffix heuristics: arbitrary functions here.
- `clean_value`, `flatten_breaks`, `trim_edge_punct`: one-line transforms around what is modelled.
- `append_image_ocr`, `extract_boxes`: OCR and PDF parsing; their result, a box or none per character, is an input.
- The JSON-lines form of `render_page`, and the retention notes of a manifest beyond being carried along.
- `settled_prefix_len` and response-side redaction of streams.
- Reversible.RedactReversible: returns bytes; decoding with replacement of invalid sequences is not modelled, and RedactThenRestore shows that the bytes are valid UTF-8 on its inputs.
- Row-level security, isolation levels and connection handling of the database: each transaction is one step.
- The Redis blacklist, JWT validation and HTTP handlers.
- Repositories for API keys, budgets, policies, providers and licences, the workers and the web application.
