# Reaction-gated video streaming: a Dafny model

This project models the anonymous "react to unlock" subsystem of a streaming site, plus the helpers around it. A visitor is identified by the public address an edge function reports. Playback stays locked until the visitor has reacted to the video. A reaction is stored through a delete-then-insert write keyed by (video, address), and the player, the feed and two admin screens read what is stored.

The modules follow the source files:

| module | file | models |
|---|---|---|
| `Utils` | `utils.dfy` | `validateFileId`, `sanitizeString`, `sanitizeUrlParam` (`src/lib/utils.ts`) |
| `ClientIp` | `client_ip.dfy` | the `get-client-ip` edge function's header precedence |
| `ReactionTable` | `reaction_table.dfy` | the `video_reactions` and `videos` tables and the three RPCs, as a `Store` class with fallible operations |
| `ReactionHook` | `reaction_hook.dfy` | `useVideoReactions` as the `ReactionSession` class: identity, validation, status, counts, the write and the effect |
| `Player` | `video_player.dfy` | the playback gate, `togglePlay`, `handleVastAdEnd`, the VAST lookup, `formatTime` |
| `ReactionsPanel` | `reactions_panel.dfy` | the reaction buttons, the per-kind and total counts, and the summary line |
| `Feed` | `feed.dfy` | the home feed cursor, its handlers and the progress indicators |
| `Settings` | `website_settings.dfy` | the website-settings editor: update, lookup, the save loop |
| `Signup` | `admin_signup.dfy` | the first-admin signup guard chain and the signup-allowed decision |

Backend replies are parameters of the methods that would await them. `ReadFaults` and `WriteFaults` say which backend calls fail. `IpReply`, `CountReply`, `SignUpReply` and `LoadReply` are what a call returned. The store's SQL bodies are not part of the source, so the model defines the three RPCs by their shapes:
- `check_ip_has_reacted` returns one `(true, kind)` row per stored reaction of the pair, in table order.
- `get_video_reaction_counts` groups the video's reactions by kind, in order of first appearance.
- Nothing in the model assumes the store enforces one row per pair.

Two behaviours of the code worth knowing:
- An insert error in `addReaction` is caught and logged (src/hooks/useVideoReactions.ts:200-203,219-221). It is not propagated to the caller, so a failed write leaves the local state unchanged.
- On a status error the hook sets "not reacted" and clears `loading` (src/hooks/useVideoReactions.ts:108-114). A failed status query therefore shows the lock overlay; it does not keep the player loading.

## Model

| member | source | states |
|---|---|---|
| Utils.ValidateFileId | src/lib/utils.ts:12-28 | accepted exactly when the id is present, 1 to 100 characters long, over `[A-Za-z0-9_.-]`, and free of `..`; so null and `""` are rejected |
| Utils.SafeStringDangerous | src/lib/utils.ts:24-27 | over the safe character class the blacklist matches exactly when `..` occurs; the other twelve entries are already excluded by the pattern |
| Utils.IncludesSingle | src/lib/utils.ts:27 | `includes` of a one-character pattern holds exactly when that character occurs |
| Utils.IncludesDoubleDot | src/lib/utils.ts:27 | `includes("..")` holds exactly when two adjacent dots occur |
| Utils.Escape | src/lib/utils.ts:39-46 | a character is left as itself exactly when it is not one of `< > " ' &` |
| Utils.SanitizeString | src/lib/utils.ts:33-48 | the output is never shorter than the input, is empty only for the empty input, and has no `< > " '` |
| Utils.SanitizeStringPlain | src/lib/utils.ts:33-48 | a string with none of the five escaped characters comes out unchanged |
| Utils.SanitizeStringConcat | src/lib/utils.ts:38-47 | the replacement works character by character: sanitizing `a + b` gives the sanitized `a` followed by the sanitized `b` |
| Utils.UnescapeEscape | src/lib/utils.ts:39-46 | decoding an entity of the table, followed by anything, gives back the character |
| Utils.SanitizeStringRoundTrip | src/lib/utils.ts:38-47 | entity decoding undoes `sanitizeString`, so the escaping loses nothing |
| Utils.SanitizeUrlParam | src/lib/utils.ts:53-59 | the output uses only `[A-Za-z0-9._-]` and is no longer than the input |
| Utils.SanitizeUrlParamSubsequence | src/lib/utils.ts:58 | the output is a subsequence of the input |
| Utils.SanitizeUrlParamFixedPoint | src/lib/utils.ts:58 | the input comes back unchanged exactly when it is all safe characters |
| Utils.SanitizeUrlParamChar | src/lib/utils.ts:58 | one character is kept exactly when it is in `[A-Za-z0-9._-]`, and dropped otherwise |
| Utils.SanitizeUrlParamConcat | src/lib/utils.ts:58 | the filter distributes over concatenation, so together with the one-character case every safe character is kept in place and every other one dropped |
| Utils.SanitizeUrlParamIdempotent | src/lib/utils.ts:58 | applying it twice gives the same as once |
| Utils.ValidFileIdIsSanitized | src/lib/utils.ts:12-28 | every id `validateFileId` accepts passes `sanitizeUrlParam` unchanged |
| ClientIp.TrimStart | supabase/functions/get-client-ip/index.ts:25 | the result is the suffix after a run of whitespace and does not start with whitespace |
| ClientIp.TrimEnd | supabase/functions/get-client-ip/index.ts:25 | the result is the prefix before a run of whitespace and does not end with whitespace |
| ClientIp.Trim | supabase/functions/get-client-ip/index.ts:25 | the result neither starts nor ends with whitespace, and is empty exactly when the input is all whitespace |
| ClientIp.TrimIdempotent | supabase/functions/get-client-ip/index.ts:25 | trimming a trimmed string changes nothing |
| ClientIp.FirstField | supabase/functions/get-client-ip/index.ts:25 | `split(",")[0]` is the prefix before the first comma, or the whole string when there is none |
| ClientIp.FirstFieldOfJoin | supabase/functions/get-client-ip/index.ts:25 | the first field of `first,rest` is `first` |
| ClientIp.SelectIp | supabase/functions/get-client-ip/index.ts:20-27 | the trimmed first `x-forwarded-for` entry if non-empty, else `cf-connecting-ip`, else `x-real-ip`, else `0.0.0.0`; never empty |
| ClientIp.LaterForwardedIgnored | supabase/functions/get-client-ip/index.ts:25-27 | `x-forwarded-for` entries after the first never change the result |
| ClientIp.BlankForwardedFallsThrough | supabase/functions/get-client-ip/index.ts:25-27 | a blank first entry such as `" ,1.2.3.4"` gives the same result as no `x-forwarded-for` at all |
| ClientIp.Handle | supabase/functions/get-client-ip/index.ts:14-32 | `OPTIONS` gets the preflight reply; every other request gets the selected, non-empty address |
| ReactionTable.RowsFor | src/hooks/useVideoReactions.ts:183-184 | the rows of one (video, address) pair are exactly the table's rows with that pair |
| ReactionTable.WithoutKey | src/hooks/useVideoReactions.ts:180-184 | the delete removes exactly the pair's rows and nothing else |
| ReactionTable.RowsForAppend | src/hooks/useVideoReactions.ts:191-198 | the rows of a pair in `a + b` are its rows in `a` followed by its rows in `b` |
| ReactionTable.RowsForWithoutKey | src/hooks/useVideoReactions.ts:180-184 | deleting one pair leaves every other pair's rows as they were |
| ReactionTable.WriteProtocol | src/hooks/useVideoReactions.ts:180-198 | the delete-then-insert: a successful insert leaves the new row last; no row appears but the stored ones and the new one; after a successful delete the pair's only rows are the new one; every row of another pair stays |
| ReactionTable.WriteLeavesOneRow | src/hooks/useVideoReactions.ts:180-198 | when delete and insert both succeed, the pair has exactly one row, carrying the new kind |
| ReactionTable.WriteInsertFailedLeavesNone | src/hooks/useVideoReactions.ts:180-203 | a successful delete followed by a failed insert leaves the pair with no row |
| ReactionTable.WriteKeepsOtherKeys | src/hooks/useVideoReactions.ts:180-198 | whatever either step does, other pairs' rows are untouched |
| ReactionTable.WritePreservesOneRowPerKey | src/hooks/useVideoReactions.ts:180-198 | a write whose delete succeeds keeps the table at no more than one row per pair |
| ReactionTable.DeletePreservesOneRowPerKey | src/hooks/useVideoReactions.ts:180-184 | a delete keeps the table at no more than one row per pair |
| ReactionTable.DeleteFailureDuplicates | src/hooks/useVideoReactions.ts:186-198 | when the delete fails but the insert runs, the pair can end up with two rows |
| ReactionTable.StatusReply | src/integrations/supabase/types.ts:223-229 | one `(true, kind)` status row for each stored reaction of the pair, in order |
| ReactionTable.KindsFor | src/integrations/supabase/types.ts:246-252 | the kinds of a video's reactions, never more than the rows |
| ReactionTable.CountsOf | src/integrations/supabase/types.ts:246-252 | `get_video_reaction_counts` of the current rows has one entry per kind; PanelMatchesStore relates its counts to the rows |
| ReactionTable.AddKindDistinct | src/integrations/supabase/types.ts:246-252 | counting one more reaction keeps one entry per kind |
| ReactionTable.AddKindTypes | src/integrations/supabase/types.ts:246-252 | the kinds after counting one more reaction are the kinds before plus the counted one |
| ReactionTable.GroupDistinct | src/integrations/supabase/types.ts:246-252 | the grouped counts have at most one entry per kind |
| ReactionTable.Store.EnsureVideoExists | src/integrations/supabase/types.ts:234-237 | on success the video has a row; the reactions are untouched |
| ReactionTable.Store.CheckIpHasReacted | src/integrations/supabase/types.ts:223-229 | an error reply, or the pair's status rows |
| ReactionTable.Store.GetVideoReactionCounts | src/integrations/supabase/types.ts:246-252 | an error reply, or the video's reactions grouped by kind |
| ReactionTable.Store.DeleteReactions | src/hooks/useVideoReactions.ts:180-188 | on success all of the pair's rows are gone; on failure the table is unchanged |
| ReactionTable.Store.InsertReaction | src/hooks/useVideoReactions.ts:191-203 | on success the row is appended; on failure the table is unchanged |
| ReactionHook.StripReactionType | src/hooks/useVideoReactions.ts:165 | stripping never lengthens the kind |
| ReactionHook.StripVideoId | src/hooks/useVideoReactions.ts:53 | the `[^\w-_.]` strip never lengthens the id and leaves only characters of its class |
| ReactionHook.IsValidVideoId | src/hooks/useVideoReactions.ts:53-54 | the hook's id check (no contract of its own); ValidVideoIdIff proves it accepts exactly the non-empty strings over `[A-Za-z0-9_.-]` |
| ReactionHook.IsValidReactionType | src/hooks/useVideoReactions.ts:165-175 | the hook's kind check (no contract of its own); ValidReactionTypeIff proves it accepts exactly the non-empty strings over `[A-Za-z0-9_]` |
| ReactionHook.StripVideoIdIsSanitizeUrlParam | src/hooks/useVideoReactions.ts:53 | the hook's `[^\w-_.]` strip keeps exactly the characters `sanitizeUrlParam` keeps |
| ReactionHook.ValidVideoIdIff | src/hooks/useVideoReactions.ts:53-54 | an id is accepted exactly when it is a non-empty fixed point of `sanitizeUrlParam`, and exactly when it is a non-empty string over `[A-Za-z0-9_.-]` |
| ReactionHook.FileIdPassesHookCheck | src/hooks/useVideoReactions.ts:53-54 | every id `validateFileId` accepts also passes the hook's check |
| ReactionHook.HookCheckIsWeaker | src/lib/utils.ts:18-24 | the hook accepts `a..b` and a 101-character id, which `validateFileId` rejects |
| ReactionHook.StripReactionTypeFixedPoint | src/hooks/useVideoReactions.ts:165 | stripping leaves a kind unchanged exactly when it is all word characters |
| ReactionHook.ValidReactionTypeIff | src/hooks/useVideoReactions.ts:165-175 | a kind is accepted exactly when it is a non-empty string over `[A-Za-z0-9_]` |
| ReactionHook.WriteAllowed | src/hooks/useVideoReactions.ts:154-175 | the write goes ahead only with an identity, a non-empty valid video id and a valid kind (no contract of its own); ValidVideoIdIff, ValidReactionTypeIff and ForeignCharRejected state what passes |
| ReactionHook.ForeignCharRejected | src/hooks/useVideoReactions.ts:164-175 | one character outside its class keeps the write from the store |
| ReactionHook.InjectionRejected | src/hooks/useVideoReactions.ts:164-175 | a path (`../etc/passwd`) or markup (`like<script>`) never reaches the store |
| ReactionHook.ResolveIdentity | src/hooks/useVideoReactions.ts:29-42 | `ip`, else `clientIp`, else the payload; `127.0.0.1` on an error or an empty payload; never empty |
| ReactionHook.EdgeFunctionIdentity | src/hooks/useVideoReactions.ts:31 | given the edge function's `{ ip }` reply, the identity is the address the function selected |
| ReactionHook.StatusFromReply | src/hooks/useVideoReactions.ts:98-111 | (true, kind) exactly when the first row has `has_reacted`; otherwise, and on error, (false, null) |
| ReactionHook.StatusOfRows | src/hooks/useVideoReactions.ts:94-107 | the store reports a reaction exactly when the pair has a row, with the kind of its oldest row |
| ReactionHook.StatusAfterWrite | src/hooks/useVideoReactions.ts:180-217 | after a complete write, the status re-read by the delayed re-fetch is (true, the new kind) |
| ReactionHook.StatusOfOtherPair | src/hooks/useVideoReactions.ts:180-198 | a write never changes the status of another pair |
| ReactionHook.ReactionSession.constructor | src/hooks/useVideoReactions.ts:19-23 | no identity, not reacted, no kind, no counts, loading |
| ReactionHook.ReactionSession.EnsureVideoExists | src/hooks/useVideoReactions.ts:48-76 | an empty or invalid id returns null without touching the store; otherwise the registrar runs |
| ReactionHook.ReactionSession.FetchIp | src/hooks/useVideoReactions.ts:26-45 | the identity is resolved and never empty; a new identity re-runs the effect |
| ReactionHook.ReactionSession.CheckReactionStatus | src/hooks/useVideoReactions.ts:79-115 | with identity and id present, `loading` ends false on every path; the status is the store's, or (false, null) on error, or kept for an invalid id |
| ReactionHook.ReactionSession.FetchReactionCounts | src/hooks/useVideoReactions.ts:118-148 | the counts are the store's grouping, `[]` on error, and kept for an invalid id |
| ReactionHook.ReactionSession.AddReaction | src/hooks/useVideoReactions.ts:151-222 | only a valid kind with identity and valid id reaches the store, as delete then insert; only a successful insert sets (true, kind); a failed insert keeps the prior status; the registrar still runs first |
| ReactionHook.ReactionSession.ResetState | src/hooks/useVideoReactions.ts:229-232 | the reset sets (false, null, [], loading) |
| ReactionHook.ReactionSession.SyncVideo | src/hooks/useVideoReactions.ts:225-235 | with id and identity present, the state afterwards is the reset followed by a fresh status and count read from the store |
| ReactionHook.ReactionSession.ChangeVideo | src/hooks/useVideoReactions.ts:225-235 | a new id re-runs the effect; the same id changes nothing |
| ReactionHook.ReactionSession.Notify | src/hooks/useVideoReactions.ts:248-253 | the change notification (and the delayed re-fetch) re-pulls counts, then status, without touching the reactions |
| Player.LockShown | src/components/VideoPlayer.tsx:234 | the lock overlay condition (no contract of its own); GateFollowsStatus proves it never holds while loading or after a reaction |
| Player.PlayDisabled | src/components/VideoPlayer.tsx:278 | the play button is disabled while the lock is shown or an unfinished VAST ad is showing (no contract of its own); TogglePlay flips play exactly when it is false and the element is mounted |
| Player.GateFollowsStatus | src/components/VideoPlayer.tsx:234 | the lock overlay is shown exactly when the visitor has not reacted and the status is not loading |
| Player.PlayerState.constructor | src/components/VideoPlayer.tsx:38-47 | not playing, no ad shown, no ad ended (the states of lines 38, 46 and 47), with the element present or not as given |
| Player.PlayerState.TogglePlay | src/components/VideoPlayer.tsx:113-132 | `isPlaying` flips exactly when the play button is enabled and the element is mounted; otherwise nothing changes |
| Player.PlayerState.HandleVastAdEnd | src/components/VideoPlayer.tsx:134-137 | the ad has ended, is hidden, and no longer blocks play |
| Player.PlayerState.CheckVastAds | src/components/VideoPlayer.tsx:58-82 | an ad is shown only after a reaction, with the status known, before the ad ended, and when one is configured; after it ended nothing changes |
| Player.NatToString | src/components/VideoPlayer.tsx:169-171 | decimal digits with no leading zero |
| Player.NatToStringValue | src/components/VideoPlayer.tsx:169-171 | the digits denote the number |
| Player.PadStart2Value | src/components/VideoPlayer.tsx:171 | a number under 100, zero-padded, is two digits denoting that number |
| Player.FormatTime | src/components/VideoPlayer.tsx:168-172 | `m:ss` with m written without leading zeros, exactly two digits of seconds, s < 60 and m * 60 + s == t |
| ReactionsPanel.ReactionIdsDistinct | src/components/VideoReactions.tsx:20-27 | the six ids are pairwise distinct |
| ReactionsPanel.ReactionIdsValid | src/components/VideoReactions.tsx:20-27 | each of the six ids passes the reaction-kind check |
| ReactionsPanel.Highlighted | src/components/VideoReactions.tsx:78 | a button is highlighted when its id is the visitor's reaction (no contract of its own); AtMostOneHighlighted proves at most one is |
| ReactionsPanel.AtMostOneHighlighted | src/components/VideoReactions.tsx:78 | at most one button is highlighted |
| ReactionsPanel.GetReactionCount | src/components/VideoReactions.tsx:33-36 | the count of the first entry of that kind, or 0 when there is none |
| ReactionsPanel.GetTotalReactions | src/components/VideoReactions.tsx:38-40 | 0 for an empty list |
| ReactionsPanel.TotalAppend | src/components/VideoReactions.tsx:38-40 | the total of `a + b` is the total of `a` plus the total of `b` |
| ReactionsPanel.CountAtMostTotal | src/components/VideoReactions.tsx:33-40 | with non-negative counts, every kind's count is between 0 and the total |
| ReactionsPanel.PanelMatchesStore | src/components/VideoReactions.tsx:33-40 | over the store's counts, the total is the number of the video's reactions and each kind's count is the number of that kind |
| ReactionsPanel.SummaryLine | src/components/VideoReactions.tsx:115-119 | the lead is the first kind or "No reactions yet"; "and N others" appears exactly when there are at least two entries, with N = total minus the first count |
| ReactionsPanel.SummaryPlaceholder | src/components/VideoReactions.tsx:115-119 | with well-formed kinds, "No reactions yet" appears exactly when the list is empty, and N is never negative |
| ReactionsPanel.HandleReaction | src/components/VideoReactions.tsx:29-31 | the button's id goes unchanged to `addReaction`: identity, id, counts and `loading` are kept, the video row is ensured, the rows are the write protocol of the old identity and id when the write is allowed, and only a successful insert sets `(true, kind)` |
| Feed.KeyActionOf | src/components/TikTokHomepage.tsx:60-77 | ArrowUp means prev, ArrowDown means next, space means play/pause, and nothing else does any of them |
| Feed.Prev | src/components/TikTokHomepage.tsx:48-52 | one step back unless at the first video (no contract of its own); StepsKeepBounds and NextThenPrev state its properties |
| Feed.Next | src/components/TikTokHomepage.tsx:54-58 | one step forward unless at the last video (no contract of its own); StepsKeepBounds and NextThenPrev state its properties |
| Feed.Wheel | src/components/TikTokHomepage.tsx:84-91 | the wheel step (no contract of its own); WheelIsPrevOrNext reduces it to Prev and Next |
| Feed.Key | src/components/TikTokHomepage.tsx:60-66 | the cursor after a key press (no contract of its own); KeyIsPrevOrNext reduces it to Prev and Next |
| Feed.PrevDisabled | src/components/TikTokHomepage.tsx:164 | the prev button's `disabled` (no contract of its own); DisabledIffNoOp proves it holds exactly when prev would change nothing |
| Feed.NextDisabled | src/components/TikTokHomepage.tsx:173 | the next button's `disabled` (no contract of its own); DisabledIffNoOp proves it holds exactly when next would change nothing |
| Feed.StepsKeepBounds | src/components/TikTokHomepage.tsx:48-91 | prev, next, wheel and key keep the cursor on a video (0 over an empty list) and move it at most one step |
| Feed.WheelIsPrevOrNext | src/components/TikTokHomepage.tsx:84-91 | a downward scroll is next, an upward one is prev, a zero delta changes nothing |
| Feed.KeyIsPrevOrNext | src/components/TikTokHomepage.tsx:60-66 | ArrowUp is prev, ArrowDown is next, other keys leave the cursor alone |
| Feed.DisabledIffNoOp | src/components/TikTokHomepage.tsx:164-173 | prev is disabled exactly when it would change nothing, and so is next |
| Feed.NextThenPrev | src/components/TikTokHomepage.tsx:48-58 | an unblocked next is undone by prev, and an unblocked prev by next |
| Feed.Classify | src/components/TikTokHomepage.tsx:237-243 | an indicator is current, past or future exactly as its position is at, before or after the cursor |
| Feed.Indicators | src/components/TikTokHomepage.tsx:237-243 | one indicator per video |
| Feed.IndicatorAt | src/components/TikTokHomepage.tsx:237-243 | the indicator at each position is current, past or future as that position compares with the cursor |
| Feed.IndicatorCounts | src/components/TikTokHomepage.tsx:237-243 | exactly one indicator is current, the cursor's index of them are past, and the rest are future |
| Feed.FeedPage.constructor | src/components/TikTokHomepage.tsx:18-21 | no videos, the cursor at 0 and in bounds, loading, not muted |
| Feed.FeedPage.LoadFeaturedVideos | src/components/TikTokHomepage.tsx:25-42 | takes the rows (none when null) on success and keeps the list on error; loading ends in every case |
| Feed.FeedPage.HandlePrevVideo | src/components/TikTokHomepage.tsx:48-52 | decrements only when the cursor is past the first video, keeping it in bounds |
| Feed.FeedPage.HandleNextVideo | src/components/TikTokHomepage.tsx:54-58 | increments only when there is a later video, keeping it in bounds |
| Feed.FeedPage.HandleWheel | src/components/TikTokHomepage.tsx:84-91 | the wheel step, keeping the cursor in bounds |
| Feed.FeedPage.HandleKeyDown | src/components/TikTokHomepage.tsx:60-77 | arrow keys move the cursor in bounds; space flips pause when the element exists |
| Feed.FeedPage.ToggleMute | src/components/TikTokHomepage.tsx:225 | the mute flag flips and nothing else changes |
| Settings.UpdateSetting | src/components/admin/WebsiteSettings.tsx:80-86 | length, order, keys and descriptions are kept; every entry with the key gets the value; every other entry is unchanged |
| Settings.SettingsEditor.Update | src/components/admin/WebsiteSettings.tsx:80-86 | the editor's list becomes UpdateSetting of the old list, and the loading and saving flags are kept |
| Settings.UpdateMissingKey | src/components/admin/WebsiteSettings.tsx:80-86 | an absent key leaves the whole list unchanged |
| Settings.UpdateTwice | src/components/admin/WebsiteSettings.tsx:80-86 | a second update of a key overrides the first |
| Settings.RemoveQuotes | src/components/admin/WebsiteSettings.tsx:90 | the result has no `"`, is no longer, and equals the input when it had none |
| Settings.RemoveQuotesChar | src/components/admin/WebsiteSettings.tsx:90 | one character is dropped exactly when it is `"`, and kept otherwise; with RemoveQuotesConcat every other character is kept in place |
| Settings.FindIndex | src/components/admin/WebsiteSettings.tsx:89 | `find` gives the first entry with the key, or nothing exactly when no entry has it |
| Settings.GetSettingValue | src/components/admin/WebsiteSettings.tsx:88-91 | `''` when no entry has the key; otherwise the first matching entry's value, a string with every `"` removed, any other value as is |
| Settings.GetAfterUpdate | src/components/admin/WebsiteSettings.tsx:80-91 | after updating a present key with a string, the lookup gives that string with every `"` removed |
| Settings.GetOtherKey | src/components/admin/WebsiteSettings.tsx:80-91 | an update of one key does not change the lookup of any other |
| Settings.EscapeJsonChar | src/components/admin/WebsiteSettings.tsx:117 | `JSON.stringify` escapes exactly `"`, `\` and control characters, always with a leading backslash |
| Settings.Stringify | src/components/admin/WebsiteSettings.tsx:117 | `JSON.stringify` of a string is the escaped body between two quotes; ParseStringify proves `JSON.parse` undoes it |
| Settings.EncodeBackslashesThen | src/components/admin/WebsiteSettings.tsx:117 | a run of n backslashes in front of any text is encoded as 2n backslashes in front of that text's encoding |
| Settings.BackslashesOnly | src/components/admin/WebsiteSettings.tsx:117 | the run `Backslashes(n)` holds nothing but backslashes |
| Settings.EncodeJsonBodyShape | src/components/admin/WebsiteSettings.tsx:117 | the escaped text equals the input when nothing needs escaping, is strictly longer otherwise, and has no `"` unless the input has one |
| Settings.TypedValueShownIff | src/components/admin/WebsiteSettings.tsx:116-117 | the field shows back what was typed exactly when the text has nothing `JSON.stringify` escapes |
| Settings.QuoteShownAsBackslash | src/components/admin/WebsiteSettings.tsx:116-117 | typing `"` makes the field show `\` |
| Settings.BackslashDoubles | src/components/admin/WebsiteSettings.tsx:116-117 | typing `\` makes the field show `\\` |
| Settings.BackslashesDoubleEachKeystroke | src/components/admin/WebsiteSettings.tsx:116-117 | when the field shows n backslashes then text with nothing to escape, and the user types at the end, the field then shows 2n backslashes then that text: every keystroke doubles the run again |
| Settings.ParseStringify | src/components/admin/WebsiteSettings.tsx:117 | decoding a JSON string literal undoes `JSON.stringify` for every string |
| Settings.DisplayValue | src/components/admin/WebsiteSettings.tsx:88-91 | the corrected read: `""` for a missing key, else the first entry's value decoded as a JSON string literal (quote-stripped when it is none); TypedValueShown and DisplayAgreesOnPlainText state what it shows |
| Settings.TypedValueShown | src/components/admin/WebsiteSettings.tsx:88-91 | with the decoding read, the field shows exactly what was typed |
| Settings.DisplayAgreesOnPlainText | src/components/admin/WebsiteSettings.tsx:88-91 | on text with nothing to escape, the decoding read and the quote-stripping read agree |
| Settings.FirstFailure | src/components/admin/WebsiteSettings.tsx:56-62 | the index of the first failing upsert: all before it succeed, and it fails unless it is the end |
| Settings.UpsertAllSpec | src/components/admin/WebsiteSettings.tsx:56-62 | every upserted key, and every key already stored, is in the table afterwards |
| Settings.UpsertAll | src/components/admin/WebsiteSettings.tsx:56-62 | the upserts run in list order up to the first error: the table is the upserts of that prefix, and success means no upsert failed |
| Settings.UpsertAllStored | src/components/admin/WebsiteSettings.tsx:56-62 | a setting whose key is not upserted again later is stored exactly as the editor held it |
| Settings.UpsertAllKeepsOthers | src/components/admin/WebsiteSettings.tsx:56-62 | keys that no setting names keep their stored rows |
| Settings.SettingsEditor.constructor | src/components/admin/WebsiteSettings.tsx:17-19 | no settings, loading, not saving |
| Settings.SettingsEditor.LoadSettings | src/components/admin/WebsiteSettings.tsx:22-41 | takes the rows (none when null) on success, keeps the list on error, and ends loading |
| Settings.SettingsEditor.OnInput | src/components/admin/WebsiteSettings.tsx:117 | the typed text is stored as its `JSON.stringify` form |
| Settings.SettingsEditor.HandleSave | src/components/admin/WebsiteSettings.tsx:47-78 | saves in list order, stops at the first error, leaves the list alone and ends with `saving` false |
| Signup.Utf16Length | src/pages/AdminSignup.tsx:67 | `length` counts UTF-16 code units: between one and two per character |
| Signup.ValidateSignup | src/pages/AdminSignup.tsx:49-74 | empty field first, then mismatch, then fewer than 6 code units; each outcome stated as an exact condition, and Proceed exactly when all three pass |
| Signup.AstralPasswordCounts | src/pages/AdminSignup.tsx:67-74 | three characters outside the BMP count as six and pass the length check |
| Signup.CheckMessage | src/pages/AdminSignup.tsx:49-74 | each failed check has a non-empty toast text, and only Proceed has none |
| Signup.DecideAdmin | src/pages/AdminSignup.tsx:22-41 | signup is allowed exactly on a thrown query or a count of 0; a positive count redirects |
| Signup.DecisionExclusive | src/pages/AdminSignup.tsx:30-40 | never both allowed and redirected; a null count does neither |
| Signup.SignUpOutcome | src/pages/AdminSignup.tsx:86-105 | an error shows its message, or the default when it is empty; a returned user shows the "Success!" toast and schedules the redirect; no user does nothing |
| Signup.SignupPage.constructor | src/pages/AdminSignup.tsx:11-16 | empty inputs, not loading, no toast, no redirect, and signup not allowed, so the page shows "Signup Disabled" until the admin count arrives |
| Signup.SignupPage.Edit | src/pages/AdminSignup.tsx:152-189 | the three inputs take the typed values and nothing else changes |
| Signup.SignupPage.CheckAdminExists | src/pages/AdminSignup.tsx:22-41 | `allowSignup` and the redirect follow the decision on the count reply |
| Signup.SignupPage.HandleSignup | src/pages/AdminSignup.tsx:46-109 | `signUp` is reached exactly when all checks pass; a failed check shows its message and leaves `loading` alone; past the checks `loading` ends false |

## Left out

- Network I/O, the Supabase client and the SQL bodies of the RPCs. The store operations are abstract and fallible, with the row shapes of `src/integrations/supabase/types.ts`.
- The realtime subscribe/unsubscribe (src/hooks/useVideoReactions.ts:238-260) is left out. The 100 ms re-fetch timer (src/hooks/useVideoReactions.ts:213-217) is modelled as the synchronous `Notify` method.
- Asynchronous interleaving: stale replies after a video change and double submissions are concurrency.
- `ensure_video_exists` is modelled only as "the video has a row". Its title and description arguments and its returned id are not modelled.
- `parseInt(row.count)`: counts are modelled as integers already.
- ReactionHook.ResolveIdentity: a payload object with neither `ip` nor `clientIp` is itself the identity in the source. The model uses its string form `[object Object]`.
- The edge function's `catch` branch (supabase/functions/get-client-ip/index.ts:33-38) is left out, because nothing in the `try` can throw. Its CORS headers are also left out of the model.
- `sanitizeString` and `sanitizeUrlParam` with a non-string or null argument are left out. Their parameters are strings, and the empty string is handled.
- Player: `fetchFileInfo`, seeking, volume, mute, fullscreen and the media element are I/O and floating point. The VAST query is the `adFound` parameter. `formatTime` is over whole seconds, not floats.
- Feed.FeedPage.LoadFeaturedVideos: requires the list to be empty, because the source calls it once on mount. Server-side filtering and ordering of featured videos are not modelled. The share button is not modelled.
- Settings: the `order('setting_key')` of the load and the toasts are not modelled. JSON values other than strings are kept as opaque text.
- Settings.DecodeJsonBody: `\u` escapes that name a surrogate are rejected rather than paired into one character, because Dafny characters are Unicode scalar values.
- Signup: the 1000 ms timer before the redirect is a flag, `redirectToLogin`. The `emailRedirectTo` option and the toasts' styling are not modelled.
- Routing, layout and the admin CRUD screens are not part of this model.

## Findings

| source | as written | input that shows it | evidently intended | confidence | as-written member | corrected member |
|---|---|---|---|---|---|---|
| src/components/admin/WebsiteSettings.tsx:116-117 | each input stores `JSON.stringify(text)`, and the field shows it with every `"` removed | typing `"` shows `\`; a typed `\` shows as `\\`, and each later keystroke doubles every backslash shown (BackslashesDoubleEachKeystroke) | the field shows what was typed | not executed; follows from the two expressions | Settings.QuoteShownAsBackslash | Settings.TypedValueShown |
