# Transfer bookkeeping of a Telegram relay bot

The bot copies messages and media from Telegram chats on a user's behalf.
The user sends a `t.me` link, which names one message or a range of messages.
The bot fetches each item, downloads any media, renames the file under the
user's own word rules and uploads it again. While it works, it keeps a status
message and two status files per transfer, and it honours `/cancel` and an
inline "cancel batch" button. Users keep preferences: a caption template,
rename rules, a destination channel and a thumbnail. They edit these through
commands and a settings menu.

This project models the deterministic bookkeeping around those transfers:

- **Cancellation registry.** `Tasks.TaskManager` is the set of users who asked to cancel.
- **Peer ids and links.** `Peers` classifies a peer id by its decimal prefix. `Links` routes a link and reads its index range.
- **Batch driver.** `Batch` covers the loop of `process_message`, its counters, the per-user cancel flags and the button callback.
- **Session cache.** `Sessions` models the cache of started user clients, backed by a session store.
- **Sanitiser.** `Sanitize` covers the filename sanitiser: ordered whole-word rules, then removal of unsafe characters, then trimming.
- **Status records.** `Progress` covers the progress bar, the `pct|cur|tot` status record and the status-file names.
- **Message kinds.** `MessageKind` gives the media kind by priority and routes a private-chat message.
- **Captions.** `Captions` resolves the caption template and the captions of the parts of a split video.
- **One transfer.** `Media` models `handle_media`: download, rename, upload and copy. Its focus is the cleanup of status files and staged files on every exit path.
- **Settings.** `Settings` covers:
  - `/rm` rule parsing into an ordered rule table;
  - `/setcc` caption parsing;
  - `/setid`;
  - the settings summary and its keyboard;
  - the menu callback, with its ownership check and clear actions.
- **Video splitting.** `VideoSplit` covers split planning: part count, segment starts, part paths, and keeping only the outputs that exist. It also covers best-effort cleanup.

`Files.FileSystem` stands for the working directory, as the set of paths that exist in it. `Text` holds the Python string and integer operations the bot relies on:

- `split` and `rsplit`;
- `strip`;
- `replace`;
- `int()` and `str()` on integers;
- ASCII case folding.

Everything the bot does through the network or a subprocess is a parameter of the model:

- Telegram calls;
- the Mongo database;
- ffprobe and ffmpeg.

Each of these appears as its outcome: success, failure, where a cancellation arrives, or which files exist afterwards.

Where the bot's help texts, its comments or its messages to the user say one thing and its code does another, the model follows the code:

- A reversed index range (`toID < fromID`) is not rejected. The loop runs zero times and the completion summary is still written.
- A second batch of the same user is not refused. It resets that user's cancel flag.
- The `/rm` help text (settings.py:230-246) says `/rm dams` removes every `@dams`, whatever its case. The pattern ends in `\b`, which counts `_` as a word character. So the rule `dams` leaves `dams_lecture.mp4` untouched.
- The `/setcc` help text (settings.py:294-295) says `{filename}` is replaced with the actual file name. It becomes the stem of `rename/<sanitised name><ext>`. A media file name that already has an extension therefore keeps it in the stem.
- In `handle_private_message`, the branch commented as special handling for large videos (main.py:192-194) calls, for a video larger than 2 GiB, a method that the bot object does not have. The resulting error is caught and reported, so that path never splits anything.
- `get_message_type` returns `Unknown` only for an object without a `text` attribute. A Pyrogram `Message` always has one, so `handle_media` is only ever handed a media kind.
- The handlers swallow most faults, so `failed` counts far less than "a transfer failed". A message that is not found is answered with a notice and counts as a success (main.py:183-188), and so does any exception caught inside the handlers (main.py:209, 271). `failed` grows only when the source does not resolve, when `get_user_session` raises (main.py:172, outside the handler's `try`), or when a "sign in first" or error reply itself fails. A 5-message range whose third message is missing therefore reports 5 successes and 0 failures, not 4 and 1.
- A transfer that fails or is cancelled ends `handle_media` normally. One that raises out of `handle_media` is answered at main.py:209. Either way the batch counts it as a success.

## Model

| member | source | states |
|---|---|---|
| Tasks.TaskManager.constructor | task_manager.py:4-5 | a new registry marks no user |
| Tasks.TaskManager.Cancel | task_manager.py:7-8 | the user is marked afterwards; every other user's mark is as before |
| Tasks.TaskManager.Clear | task_manager.py:13-14 | the user is unmarked afterwards; clearing an unmarked user changes nothing; every other user's mark is as before |
| Tasks.TaskManager.IsCancelled | task_manager.py:10-11 | membership in the registry; the ensures of `Cancel` and `Clear` state it is true after a cancel, false after a clear, and unchanged for every other user |
| Tasks.CancelTwice | task_manager.py:7-8 | cancelling twice leaves the same set as cancelling once |
| Tasks.CancelThenClear | task_manager.py:7-14 | cancel then clear restores the registry exactly when the user was not marked before |
| Peers.GetPeerType | main.py:16-23 | `User` iff the id is non-negative; `Channel` iff its decimal form starts with `-100`; `Chat` otherwise |
| Peers.PrivateChatIdIsChannel | main.py:358 | for any non-empty digit string d, `int("-100"+d)` parses and classifies as a channel |
| Links.RangeOf | main.py:324-326 | the range comes from the segment with every `?single` removed, split on `-`; the second number defaults to the first; None when a number does not parse |
| Links.ClassifyRequest | main.py:320-326 | invite and `joinchat` links go to join handling before any range parsing; a text is ignored iff it holds no `https://t.me/`; a batch is a plain link whose range is `RangeOf` the segment after the last `/`; an error arises only for a plain link whose last segment does not parse |
| Links.ClassifiedByLastSegment | main.py:320-326 | conversely, a plain link whose last segment parses to a..b is the batch a..b |
| Links.RangeLinkClassified | main.py:320-326 | a plain link ending in `/a-b` is the batch a..b |
| Links.SingleLinkClassified | main.py:320-326 | a plain link ending in `/a` is the batch a..a |
| Links.LastSegmentOf | main.py:323-324 | the last segment of `head/segment` is `segment` when it holds no `/` |
| Links.InviteContainsPrefix | main.py:320-322 | every invite link is also a `t.me` link, so the invite test must come first |
| Links.ResolveSource | main.py:357-365 | `/c/` links give the channel id `-100<piece 4>`, `/b/` links the bot username at piece 4, other links the username at piece 3; None when the id does not parse or a piece is missing |
| Links.LinkHasUsernamePiece | main.py:323 | a text holding `https://t.me/` splits on `/` into at least four pieces |
| Links.PublicLinkResolves | main.py:363-365 | a public link always resolves to the username at piece 3 |
| Links.PrivateChannelIdIsChannel | main.py:358 | whenever `int("-100"+piece)` succeeds, the id is a channel |
| Links.ResolvedChannelIsChannel | main.py:357-360 | a resolved private-channel source is a channel id |
| Links.NumberParses | main.py:325 | the stripped decimal text of a natural number reads back as that number |
| Links.RangeSegmentParses | main.py:324-326 | the segment `a-b` names the range from a to b |
| Links.RangeSegmentPieces | main.py:324 | `a-b` with digit parts splits into exactly its two numbers |
| Links.SingleSegmentParses | main.py:326 | a lone `a` names the one-item range a..a |
| Links.SingleMarkerSegmentParses | main.py:324 | `a?single` also names a..a, because the marker is removed before splitting |
| Links.LastSegmentIsRange | main.py:323-324 | the range is read from the segment after the last `/` |
| Batch.FilteredCancelTarget | main.py:55-58 | callback data that passes `^cancel_batch_\d+$` names the user whose id is the digits after the prefix |
| Batch.CancelButtonRoundTrip | main.py:49-58 | the button created for a non-negative id passes the filter and names that id |
| Batch.NegativeIdButtonIgnored | main.py:49-58 | the button of a negative id never passes the filter |
| Batch.CancelButtonData | main.py:52 | the data `cancel_batch_<id>`; `CancelButtonRoundTrip` and `NegativeIdButtonIgnored` state that it passes the filter iff the id is non-negative, and then names that id |
| Batch.MatchesCancelFilter | main.py:72 | the prefix `cancel_batch_` followed by at least one digit and nothing else; `FilteredCancelTarget` states that such data names the user of its digits |
| Batch.CancelTarget | main.py:57 | `int(data.split('_')[2])`, None where it raises; `FilteredCancelTarget` states it succeeds on every filtered datum |
| Batch.ProcessingMessages.constructor | main.py:47 | the flag dictionary starts empty |
| Batch.ProcessingMessages.IsCancelled | main.py:352 | `processing_messages.get(user_id, False)`; the ensures of `HandleCancelBatch` and `PressCancelButton` state it becomes true for the named user only |
| Batch.ProcessingMessages.HandleCancelBatch | main.py:55-58 | sets the flag of the parsed id to True; every other entry is unchanged |
| Batch.ProcessingMessages.PressCancelButton | main.py:49-58 | a press of the button made for a user sets that user's flag, whoever presses it, when the id is non-negative, and otherwise changes nothing |
| Batch.PressTwice | main.py:57-58 | pressing twice has the effect of pressing once |
| Batch.IdRange | main.py:351 | the dispatched ids ascend one by one from `fromID` |
| Batch.RangeLength | main.py:329-351 | `toID-fromID+1` iterations, or zero for a reversed range |
| Batch.CountSucceeded | main.py:357-370 | the success count never exceeds the number of dispatched items |
| Batch.UnresolvedSourceFailsAll | main.py:357-370 | a source that does not resolve fails every index |
| Batch.ResolvedSourceNoFaults | main.py:357-368 | a source whose handler never raises succeeds on every index |
| Batch.OneFaultyItem | main.py:357-370 | exactly one raising index costs exactly one success |
| Batch.FirstPress | main.py:352-355 | the first flag check that sees a press, or n when none does |
| Batch.FirstPressAt | main.py:352-355 | that check is exactly the first pressed index |
| Batch.RunBatch | main.py:329-392 | the flag is reset before the progress message is posted; a failing post raises with nothing dispatched and the flag left `False`; otherwise the loop's outcome holds; the flag is deleted at the end unless an unguarded edit raised, in which case it keeps the value the loop left |
| Batch.DriveBatch | main.py:350-392 | ids are dispatched in ascending order; `processed == success + failed <= max(total, 0)` (`RangeLength`); a press stops the loop before the next id and suppresses the summary; no sleep follows the last item; the cancellation notice and the summary are written iff due and their edit succeeds, and a failing edit raises |
| Batch.RaisedFlags | main.py:331-356 | when an edit raises, the flag is `True` after a press stopped the loop and the reset `False` otherwise |
| Batch.OutcomeOfRun | main.py:351-384 | the loop's exit facts, for both the stop at a press and the run to the end, and the outcomes of the two edits give the promised outcome |
| Batch.ProcessMessage | main.py:316-392 | invite links, non-links and malformed indices leave the flags alone; other links run the loop with its outcome, and the flag is deleted unless an unguarded call raised |
| Sessions.ClientName | main.py:155 | the client name is `user_` followed by the id |
| Sessions.SessionCache.constructor | main.py:62-73 | an empty cache over the stored sessions |
| Sessions.SessionCache.SaveSession | main.py:129-140 | upserts the user's session string; the cache is untouched |
| Sessions.SessionCache.GetUserSession | main.py:147-167 | a returned client is named `user_<id>` and has a stored session; a hit returns the cached client without a store read; a miss reads the store once, then either caches and returns a connecting client or deletes the stored record and returns None |
| Sessions.SessionCache.Logout | main.py:676-702 | a signed-in user is dropped from the cache and the store when stopping succeeds; on failure nothing is removed; a user who is not signed in is told so |
| Sessions.LookupTwice | main.py:147-167 | a second lookup after a successful one returns the same client without reading the store again |
| Sessions.LogoutThenLookup | main.py:680-684 | after a successful logout a lookup returns nothing |
| Sessions.SaveThenLookup | main.py:129-167 | a saved session that connects is what the next lookup returns |
| Files.FileSystem.RemoveIfExists | utils.py:181-184 | removing an absent file is no error; afterwards the path does not exist and nothing else changed |
| Files.FileSystem.Rename | utils.py:269-273 | the source is gone and the target exists; nothing else changed |
| Sanitize.NoMatchUnchanged | utils.py:194-200 | text with no whole-word match is left as it is |
| Sanitize.MatchStartsWithFirstLetter | utils.py:197-200 | a match starts where the pattern's first letter occurs, up to case |
| Sanitize.MatchNotFollowedByWordChar | utils.py:197-200 | a match is never followed by a word character |
| Sanitize.MatchNotPrecededByWordChar | utils.py:197-200 | a match is never preceded by a word character |
| Sanitize.NoMatchWithoutFirstLetter | utils.py:197-200 | no match where the pattern's first letter does not occur |
| Sanitize.SubWordFrom | utils.py:197-200 | the scan of `re.sub` from one position; `NoMatchUnchanged` states a match-free rest is kept |
| Sanitize.SubWord | utils.py:197-200 | `re.sub(rf'\b{p}\b', rep, s, flags=re.IGNORECASE)` for a literal word; `WholeWordReplaced` and `UnderscoreJoinedWordKept` state what it replaces and keeps |
| Sanitize.ApplyRule | utils.py:195-200 | one rule: `@word` and empty replacements delete, others replace; `RuleOnWholeName`, `AtRuleDeletesWord` and `SingleRule` state it |
| Sanitize.ApplyRules | utils.py:194-200 | the rules in table order; `ApplyRulesConcat` states each applies to the previous output |
| Sanitize.WholeWordReplaced | utils.py:197-200 | a name equal to the word, in any case, is replaced whole by a replacement without a backslash |
| Sanitize.ApplyRulesConcat | utils.py:194-200 | rules apply in table order, each to the previous output |
| Sanitize.RemoveUnsafe | utils.py:203 | every unsafe character (angle brackets, colon, double quote, slash, backslash, bar, question mark, asterisk) is removed and every other character is kept, in order |
| Sanitize.RemoveUnsafeKeepsSafe | utils.py:203 | a text with no unsafe character passes through unchanged |
| Sanitize.SanitizeSpec | utils.py:191-204 | the result holds no unsafe character and neither starts nor ends with white space |
| Sanitize.SanitizeFilename | utils.py:191-204 | the rule loop computes the specified name, which is free of unsafe characters |
| Sanitize.SanitizeIdempotentWithoutRules | utils.py:193-204 | with no rules, sanitising twice is sanitising once |
| Sanitize.RuleOnWholeName | utils.py:196-200 | a replacing rule on a name that is only its word leaves the replacement, when that holds no backslash |
| Sanitize.AtRuleDeletesWord | utils.py:196-197 | `@word` deletes `word` whatever its replacement says |
| Sanitize.UnderscoreJoinedWordKept | utils.py:197-200 | a word joined to what follows by `_` is not a whole word and is kept |
| Sanitize.DamsLectureKept | utils.py:197 | the rule `dams` leaves `dams_lecture.mp4` unchanged |
| Sanitize.SingleRule | utils.py:194-200 | a one-rule table applies that rule |
| Progress.Truncate | utils.py:139 | `int()` of a float truncates toward zero |
| Progress.ProgressBar | utils.py:138-141 | `create_progress_bar`; `ProgressBarInRange` and `ProgressBarOverflows` state its length and fill |
| Progress.ProgressBarInRange | utils.py:138-141 | for 0 ≤ p ≤ 100 the bar has 20 glyphs, and the first `floor(p/5)` are filled |
| Progress.ProgressBarOverflows | utils.py:138-141 | from 105 on the bar is longer than 20 glyphs, because the fill is not capped |
| Progress.PercentTenths | utils.py:144-152 | a percentage of at most 100.0 for `current <= total` |
| Progress.FormatTenths | utils.py:152 | the formatted percentage holds no field separator (the bar character) |
| Progress.StatusRecord | utils.py:152 | the record of percentage, current and total joined by bars; `StatusRoundTrip` states it reads back as what was written |
| Progress.ParseStatus | utils.py:82-86 | a record is read only when it splits into three fields |
| Progress.StatusRoundTrip | utils.py:82-86 | a written record splits into exactly three fields and reads back as the percentage, current and total written |
| Progress.StatusFileName | utils.py:151 | a status file name ends in `status.txt` |
| Progress.StatusNamesDistinct | utils.py:181-184 | a download file never has the name of an upload file, even across messages |
| Progress.StatusNameInjective | utils.py:151 | the file names of one direction identify the message |
| Progress.StatusFiles | utils.py:181-184 | the two status files of a message are distinct |
| Progress.ProgressStep | utils.py:143-152 | a zero total divides by zero first; then a pending cancel raises; otherwise the record is written to the direction's file |
| Progress.CleanupFiles | utils.py:181-184 | removes the message's two status files and nothing else |
| MessageKind.GetMessageType | utils.py:154-179 | the kind is present, and no kind earlier in the order Document, Video, Animation, Sticker, Voice, Audio, Photo is present; Text comes after them, Unknown last |
| MessageKind.Has | utils.py:155-175 | whether the message carries the kind's attribute; `GetMessageType`'s ensures state the chosen kind is present and no earlier one is |
| MessageKind.DocumentFirst | utils.py:155-157 | a document wins over every other kind |
| MessageKind.PhotoAlone | utils.py:173-175 | a message whose only media is a photo is a photo |
| MessageKind.PrivateRoute | main.py:191-208 | a video over 2 GiB takes the failing large-video branch; text is copied; all other kinds are transferred as media of that kind |
| MessageKind.LargeVideoThreshold | main.py:194 | exactly 2 GiB is ordinary media; one byte more is not |
| Captions.RFind | utils.py:336 | the last index of the character, or -1 |
| Captions.Basename | utils.py:336 | the part after the last `/`, a suffix of the path |
| Captions.Splitext | utils.py:270 | stem plus extension is the path; the extension is empty or one dot followed by no dot or `/` |
| Captions.StemOfRenamed | utils.py:336 | the stem of `rename/<name><ext>` is `<name>` |
| Captions.BasenameOfRenamed | utils.py:336 | the base name of `rename/<b>` is `b` |
| Captions.Stem | utils.py:336 | the base name without its extension; `StemOfRenamed` states the stem of `rename/<name><ext>` is `<name>` |
| Captions.SplitextOfNamed | utils.py:270 | splitting `<name><ext>` gives back `<name>` |
| Captions.ResolveCaption | utils.py:333-344 | a set custom caption drops the entities and is used verbatim when the flag is unset; with none set, the original caption and entities pass through |
| Captions.PlaceholderFilled | utils.py:335-337 | with the flag, every `{filename}` becomes the file stem |
| Captions.CaptionWithoutPlaceholder | utils.py:335-337 | a custom caption without `{filename}` is used verbatim even with the flag |
| Captions.PartCaption | utils.py:401-405 | each part caption starts with its title and part line; only part 1 carries the joining note |
| Captions.PartTitle | utils.py:401 | the caption when it is non-empty, else the file name, else `None`; the title is empty only when there is no caption and the file name is empty |
| Captions.PartHeader | utils.py:401-402 | the bold title, then `Part <i> of <n>`; `PartCaptionShape` and `PartCaptionsDistinct` state that the part number tells parts apart |
| Captions.PartCaptionsDistinct | utils.py:401-405 | two parts of one video never share a caption |
| Captions.PartCaptionShape | utils.py:402-403 | the caption is the bold title, then `Part <i>` followed by a space |
| Media.LetterPathNotStatus | utils.py:151 | a path starting with neither a digit nor a minus sign is not a status file name |
| Media.SavedPathNotStatus | utils.py:257-261 | a saved download never has a status file's name |
| Media.SavedPath | utils.py:257-261 | `downloads/<name>`; `SavedPathNotStatus` states it never collides with a status file |
| Media.RenameTarget | utils.py:269-270 | `rename/<name><ext>`; `RenameTargetNotStatus` states it is neither a status file nor the resized thumbnail |
| Media.Renamable | utils.py:269-271 | `os.rename` fails for an empty, `.` or `..` name; `Deliver` and `TryTransfer` state such a transfer ends with an error |
| Media.RenameTargetNotStatus | utils.py:269-270 | the renamed path is neither a status file nor the resized thumbnail |
| Media.ReportProgress | utils.py:143-152 | a zero size raises; a pending cancel raises; otherwise the direction's status file is written |
| Media.SendToDump | utils.py:301-383 | only the upload status file can appear; the resized thumbnail is removed however the call ends; with a progress callback a cancel during upload exits cancelled; a sticker's upload has none, so it completes, writes no status file and the mark stays; on completion the dump post comes first, then the destination-channel notices |
| Media.Fetch | utils.py:254-266 | a pending cancel stops before download; a cancel during download exits cancelled; only the status file and the saved file can be created; a zero size is an error |
| Media.Deliver | utils.py:266-283 | the status files are removed and the file is renamed; an empty, `.` or `..` name makes the rename fail with an error and the saved file kept as `file`; otherwise it is uploaded and copied to the user, and only the renamed file and the upload status can appear |
| Media.Upload | utils.py:275-283 | a failing status edit is an error before the upload; a cancel during upload exits cancelled; a completed upload is copied to the user and the status files are removed |
| Media.TryTransfer | utils.py:249-283 | the body of the `try`: what it may create and remove, when it completes, where a cancel is marked and when it ends the body, and the unrenamable name |
| Media.RunTransfer | utils.py:249-299 | the status files are removed on every exit; a failing deletion of the status message raises and leaves the renamed file behind; with all handler calls working nothing escapes; delivered iff the body completes and the deletion succeeds; a cancel arriving at one of the transfer's checked points clears the user's mark, except a sticker's, whose upload never sees it, or one whose zero-size download fails first (the progress callback divides by the size before it checks the mark); a user cancelled beforehand gets the cancellation notice and no file is touched but the status files |
| Media.HandleMedia | utils.py:240-299 | as `RunTransfer`, after the name is sanitised (so a cancel is seen only at the transfer's checked points); a missing file name or a failing status post raises before anything is posted; a sticker's upload does not report progress |
| Media.LateCancel | main.py:452-455 | a `/cancel` landing after a transfer's last check leaves the user marked, so the user's next transfer is cancelled at its first check: its notices are the status post, the cancellation notice and the deletion; it ends cancelled when the notice edit and the deletion succeed, and leaves the user unmarked |
| Media.Settle | utils.py:285-299 | the `except` handlers and `finally` block: a cancel clears the mark and, if its edit succeeds, removes the staged files; an error is replied; a failing handler call or deletion raises; the staged file is removed by the cancellation handler when its edit succeeds, or by the `finally` block when the deletion succeeds |
| Media.DeliveredTranscript | utils.py:279-323 | a delivery includes the copy to the user; a destination warning appears iff a channel is set and copying to it failed |
| Media.RemoveStaged | utils.py:287-299 | removes the status files and the staged file, and nothing else |
| Settings.SkipWord | settings.py:227 | what follows the first word: a suffix that is empty or starts with white space |
| Settings.CommandArgument | settings.py:227-228 | the second field of `split(None, 1)`, or None when there is none; it never starts with white space |
| Settings.ArgumentAfterCommand | settings.py:227-228 | `/cmd <arg>` yields the argument without leading white space, or None when it is blank |
| Settings.BareCommand | settings.py:227-228 | a command alone has no argument |
| Settings.ParseRule | settings.py:261-268 | the pattern never holds `-`; a rule without `-` maps the stripped word to `''` |
| Settings.ParseRuleFormatted | settings.py:261-264 | `old-new` with both sides stripped and no `-` in `old` parses back to that rule |
| Settings.ParseRuleWord | settings.py:265-268 | a bare word maps to `''` |
| Settings.Lookup | settings.py:259 | None exactly when the pattern is not in the table |
| Settings.Assign | settings.py:264-268 | an existing pattern is overwritten in place; a new one is appended; the other rules are unchanged; patterns stay distinct |
| Settings.AssignLookup | settings.py:264-268 | after assignment the pattern reads its new value and every other pattern its old one |
| Settings.UserThumbnail | utils.py:38-44 | a thumbnail path is reported only when it is stored and the file exists |
| Settings.DocOf | settings.py:11-13 | the user's document, or the empty one when none is stored; the store's methods state what they change in it |
| Settings.ThumbStatus | settings.py:20-21 | `✓ ` iff a non-empty thumbnail path is found, else `X` |
| Settings.ChannelStatus | settings.py:24-25 | `X` iff no channel or channel 0; else a space and the id, which parses back |
| Settings.CaptionSummary | settings.py:34-39 | `X` for no or an empty caption |
| Settings.CaptionSummaryShape | settings.py:35-39 | the first 30 characters, then `...` iff the caption is longer than 30, then ` (with filename)` iff the flag is set |
| Settings.ShortCaptionShownWhole | settings.py:36-37 | a caption of at most 30 characters is shown whole |
| Settings.RuleLine | settings.py:29-31 | a bullet, the pattern, an arrow, then the replacement, or `[REMOVE]` for an empty one |
| Settings.RuleLines | settings.py:29-31 | one line per rule, in table order |
| Settings.RulesSummary | settings.py:28-31 | `X ` iff there are no rules |
| Settings.RulesSummaryLines | settings.py:29-31 | the summary splits on newlines into exactly one line per rule |
| Settings.BuildSettingsText | settings.py:15-61 | five buttons, each naming its action and this user in data that parses back |
| Settings.ParseCallback | settings.py:82-83 | data is split at the last `_` and the tail read by `int()`; None when either step raises |
| Settings.ParseButtonData | settings.py:82-83 | the data of every button parses back to its action and user |
| Settings.ButtonData | settings.py:54-58 | `<action>_<id>`; `ParseButtonData` states it parses back to its action and user |
| Settings.Cleared | settings.py:91-122 | each clear action unsets only its named fields, and its summary then shows `X` |
| Settings.ThumbFile | settings.py:112-117 | clearing the thumbnail removes at most the one stored file |
| Settings.CaptionSetting | settings.py:310-316 | `clear` in any case gives no caption and no flag; any other text is stored as is, flagged iff it holds `{filename}` |
| Settings.ClearInAnyCase | settings.py:311-312 | every case spelling of `clear` clears |
| Settings.Preview | settings.py:319 | a caption without `{filename}` is previewed unchanged |
| Settings.PreviewFillsPlaceholder | settings.py:319 | the placeholder is previewed as `example` |
| Settings.SettingsStore.constructor | settings.py:8-9 | a store over the persisted user documents |
| Settings.SettingsStore.SetReplacement | settings.py:225-280 | without an argument, help and no change; otherwise the parsed rule is assigned into the user's table and nothing else changes |
| Settings.SettingsStore.SetCaption | settings.py:282-326 | without an argument, help; otherwise the caption and flag from `CaptionSetting` are stored and the reply is the clear notice or the preview |
| Settings.SettingsStore.SetChannel | settings.py:174-223 | help without an argument; a non-integer is refused; an unreachable channel is refused; otherwise the id is stored |
| Settings.SettingsStore.HandleCallback | settings.py:81-142 | unparseable data raises and changes nothing; a press by anyone but the menu's owner changes nothing; otherwise the action is applied |
| Settings.SettingsStore.ApplyAction | settings.py:89-142 | clears the named fields and removes the thumbnail file for `clear_thumb`; `close_settings` changes nothing and closes the menu; other actions refresh it |
| Settings.ClearThumbShowsNone | settings.py:112-122 | after `clear_thumb` the summary shows no thumbnail |
| Settings.RuleShownAfterAdd | settings.py:264-268 | an added rule appears as a line of the rules summary |
| VideoSplit.ProbeDuration | video_handler.py:11-24 | the probed duration, or 0 on any failure |
| VideoSplit.CeilDiv | video_handler.py:45 | the least n with `n*b >= a` |
| VideoSplit.NumParts | video_handler.py:45 | `num_parts*target >= size`, `(num_parts-1)*target < size`, and zero parts only for an empty file |
| VideoSplit.NumPartsAtTarget | video_handler.py:45 | the largest file under 1.95 GiB (2093796556 bytes) is one part; one byte more makes two |
| VideoSplit.SegmentsTile | video_handler.py:46-52 | part 0 starts at 0, each part starts where the previous one ends, and the last ends at the duration |
| VideoSplit.PartPath | video_handler.py:53 | the input path is a prefix of every part path |
| VideoSplit.PartPathsDistinct | video_handler.py:53 | distinct parts have distinct paths |
| VideoSplit.Kept | video_handler.py:71-72 | only existing paths are kept, at most one per part |
| VideoSplit.KeptMembership | video_handler.py:51-72 | a path is kept iff it is a planned part path and exists after the cut |
| VideoSplit.KeptDistinct | video_handler.py:71-72 | no path is kept twice |
| VideoSplit.KeptFrame | video_handler.py:71-72 | only the existence of part paths decides what is kept |
| VideoSplit.WrittenMembership | video_handler.py:64-70 | the cut adds exactly the paths of the parts it writes |
| VideoSplit.SplitVideo | video_handler.py:26-74 | a zero duration or an unreadable bit rate raises before any file is written; otherwise the planned paths that exist after the cut are returned in part order |
| VideoSplit.CutParts | video_handler.py:51-72 | the loop over the parts adds exactly the files the cut writes and returns, in part order, the part paths that exist afterwards |
| VideoSplit.FailedRemovals | video_handler.py:76-83 | the paths whose removal was attempted and failed |
| VideoSplit.CleanupSplitFiles | video_handler.py:76-83 | every listed path that exists is removed unless its removal fails; a failure is logged and the loop goes on |
| Text.Split | utils.py:82 | `str.split(sep)`: at least one piece, none holding the separator |
| Text.JoinSplit | main.py:323 | joining the pieces with the separator gives back the text |
| Text.SplitJoin | utils.py:82 | splitting a join of separator-free pieces gives back the pieces |
| Text.SplitOnce | settings.py:263 | `split('-', 1)` splits at the first separator |
| Text.RSplitOnce | settings.py:82 | `rsplit('_', 1)` splits at the last separator |
| Text.StripIdempotent | utils.py:204 | stripping twice is stripping once |
| Text.StripKeepsChars | settings.py:254 | stripping only removes characters |
| Text.ParseIntToString | settings.py:83 | `int(str(n)) == n` for every integer |
| Text.IntToStringInjective | main.py:16-23 | distinct integers have distinct decimal forms |
| Text.ReplaceAbsent | settings.py:319 | replacing an absent pattern changes nothing |

The lemmas `Media.DeliveryFrame`, `Media.RemovedWithin`, `Media.StagedThenRenamed`, `Media.StagedRemoved`, `Media.EarlyCancelTranscript`, `Media.TranscriptHas` and `Media.UploadTranscript` are proof helpers. They are set and sequence identities used by `Media.TryTransfer` and `Media.RunTransfer`, and model no source line of their own.

## Left out

- Pyrogram calls are not modelled as services. In a transfer (`Media.Effects`), the status post, the download, the status edits, the upload, the two copies, the error reply and the deletion of the status message each appear as an outcome given as a parameter. In a batch (`Batch.BatchCalls`), the progress post and its two edits do. Notices stand for the messages posted.
- Pinning and unpinning the progress message are left out. Both sit in their own `try` (main.py:341-344, 386-389), so their failure changes nothing the model tracks.
- The `send_message` that reports a failed copy to the destination channel (utils.py:311) is modelled as always succeeding. Its failure would turn a completed upload into an error.
- Pyrogram is taken to let an exception raised by the `progress` callback escape `download_media` and the `send_*` calls. The model relies on this when a zero size ends the transfer with an error (`Media.Fetch`, `Media.SendToDump`) and when a cancellation seen by the callback ends it as cancelled.
- Media.RunTransfer: a cancellation is modelled only where the transfer checks for one (before the download, in the download's and the upload's progress callbacks). A `/cancel` that lands later, during the copies, the cleanup, the handlers or the `finally` block, is `TaskManager.Cancel` after the transfer returns. Its mark survives and cancels the user's next transfer at its first check (`Media.LateCancel`).
- Media.HandleMedia: cancellations are seen only at the transfer's checked points, as for `Media.RunTransfer`.
- Media.HandleMedia: the contract takes every replacement to be inserted literally. `re.sub` reads the replacement as a template: a backslash escape is expanded, and an unknown escape such as `\c` in `/rm zzz-b\c`, or a reference to a group that does not exist, raises. In that case the sanitiser raises before the status message is posted and `handle_media` raises, which the model does not produce.
- Sanitize.ApplyRule: inserts the replacement literally. This matches `re.sub` only for a replacement without a backslash. Template escapes and the errors they raise are not modelled.
- Sanitize.SanitizeFilename: same limitation as `Sanitize.ApplyRule`. A replacement with a backslash may be expanded differently or raise.
- Batch.FilteredCancelTarget: the filter `^cancel_batch_\d+$` is modelled for ASCII digits at the very end of the data. Python's `\d` also matches other Unicode digits, and `$` also matches before a final newline.
- The Mongo reads (`get_user_replacements`, `get_user_caption`, the user documents behind the settings menu) are taken to succeed. A failing read would raise out of the calling handler, or end the transfer's `try` with an error.
- File-name length limits of the file system are not modelled. A sanitised name too long for `os.rename` is taken to rename successfully.
- The Mongo database is not modelled as a service. The session store and the user documents are maps, and a missing document reads as one with no fields. The store keeps no distinction between an absent field and a null one. A missing `replacements` and an empty one are the same empty table.
- The write failures of `set_destination_channel` and `set_user_caption` are left out, because they depend on database errors.
- The generic `except Exception` replies of `/setid`, `/rm` and `/setcc` are left out. Besides database errors, they fire when a command arrives as a media caption: the command filter reads the caption, `message.text` is then None, and `message.text.split` raises (settings.py:176, 227, 284). The model takes the command text to be present.
- The sign-in, 2FA, `/setss` and `/log2` flows are left out (main.py:429-674). They are network and database I/O.
- Session loading at startup is left out for the same reason.
- `downstatus` and `upstatus` are left out. These polling loops are timing-driven and format floating-point megabytes, speed and an ETA that divides by zero when nothing has been transferred.
- VideoSplit.SegmentsTile: segment starts and the duration are exact rationals. The source computes `duration / num_parts` and `i * segment_duration` in binary floats (video_handler.py:46, 52), where the last part need not end exactly at the duration: for a 0.9 s video in 3 parts, `3 * (0.9 / 3)` is `0.8999999999999999`.
- Floating-point formatting is left out. The percentage is kept in tenths, rounded half up. Python's `.1f` rounds binary floats half to even, which can differ in the last digit.
- `Media.ReportProgress`: a transfer is modelled with a single progress callback at its end, not one per chunk.
- Thumbnail resizing with PIL (`process_thumbnail`) and `/settb` are left out. Only the removal of the resized file and the clearing of the stored path are modelled.
- The photo reply of `/uset` and the `edit_media` that redraws the menu after an action are left out. The menu text and keyboard are modelled.
- Semaphores and the per-call `asyncio.Lock` are left out. Concurrency is out of scope, and the lock guards nothing.
- The fallback at main.py:260-270 re-enters the private-message handler while the semaphore is held. It is left out because it is a concurrency concern.
- `MediaHandler.handle_large_video` is left out. From `handle_private_message` it is unreachable, because the call fails on a missing attribute, and the method itself references a progress callback the handler lacks. Only its part captions (`Captions.PartCaption`) are modelled.
- The ffprobe and ffmpeg subprocesses are left out. Their outputs are inputs to the model: the probed duration, the bit-rate text and which part files the cut writes.
- Rule patterns are modelled as literal words, so regular-expression metacharacters in a pattern are not interpreted.
- `\w` and case-insensitive matching are modelled for ASCII only. Python's Unicode word characters and case folding are not modelled.
- `Text.ParseInt` does not accept the underscore digit grouping (`"5_0"`) or the non-ASCII digits that Python's `int()` accepts.
- A failed `os.remove` in `handle_media` and in the clear-thumbnail action is left out. Only `cleanup_split_files` models removal failures.
- Logging and the duplicated monkeypatch of `get_peer_type` (main.py:25-45) are left out. The second definition is identical to the first.
