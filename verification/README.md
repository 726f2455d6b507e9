# MassMailing send log, tracking and reply detection in Dafny

This project models the bookkeeping core of MassMailing, a desktop mass-mailer.
The mailer sends one tracked HTML mail per recipient and records each attempt in a
JSON send log. A small HTTP endpoint serves a one-pixel image and marks the entry
*read* when the image is loaded. An IMAP scan marks an entry *replied* when mail from
the recipient is dated after the send. Two JSON tables hold templates and SMTP/IMAP
profiles.

Every JSON file is a `FileState`: `Absent`, `Corrupt` (not decodable as JSON) or `Ok(data)`.
Each manager class keeps its file in a `file` field. Each method states, with `old`,
the file it leaves and the value it returns, in terms of pure specification
functions. The properties the source promises are proved as lemmas about those
functions. The SMTP server, the IMAP server, the clock, the uuid generator and the
ISO date parser are inputs.

| file | module | source |
|---|---|---|
| `storage.dfy` | `Storage` | `Option` and the three-state file |
| `text.dfy` | `Text` | Python `str.strip`, `split`, `join`, `replace` and `in` |
| `history.dfy` | `History` | `history_manager.py` |
| `reply_checker.dfy` | `ReplyChecker` | `reply_checker.py` |
| `tracking.dfy` | `Tracking` | `tracking_server.py` |
| `templates.dfy` | `Templates` | `template_manager.py` |
| `profiles.dfy` | `Profiles` | `profile_manager.py` |
| `mail.dfy` | `Mail` | `mail_handler.py` |
| `app.dfy` | `App` | `main.py` (`process_mail`, `check_replies`, `load_history_view`) |

The model relies on these facts about the code:

- `update_status` assigns the flag it is given rather than OR-ing it in (`History.UpdateAssignsFalse`). Flags only stay true because every caller passes `True` (`History.AfterUpdateMonotone`).
- Uuids are not checked for uniqueness. The update touches the first entry with the uuid (`History.FirstMatch`).
- The reply scan returns a list that can repeat a uuid, not a set.
- Files are rewritten in place, with no lock and no write-then-swap.

## Model

| member | source | states |
|---|---|---|
| Text.Strip | main.py:190-192 | `str.strip()`: the result is a slice of the input with no white space at either end, and everything cut off is white space |
| Text.StripIsSlice | main.py:190-192 | the stripped text is `s[i..j]` with only white space before `i` and after `j` |
| Text.StripEmptyIff | main.py:195 | `not s.strip()` holds exactly when every character is white space |
| Text.StripIdempotent | mail_handler.py:35 | stripping twice is stripping once |
| Text.ContainsChar | mail_handler.py:30 | the one-character substring test is membership of the character |
| Text.FindFrom | main.py:213 | the search returns the leftmost occurrence at or after `i`, or none when there is none |
| Text.FindFromIsLeftmost | main.py:213 | the search finds exactly the leftmost occurrence |
| Text.FindIffContains | main.py:216 | the search finds something exactly when `p in s` |
| Text.Split | main.py:295 | `str.split(p)` has at least one piece |
| Text.ReplaceIsJoinOfSplit | main.py:213 | `s.replace(p, r) == r.join(s.split(p))`: every occurrence, left to right, becomes `r` and the text between occurrences is kept |
| Text.ReplaceBySelf | main.py:213 | replacing a pattern by itself changes nothing |
| Text.SplitJoinRoundTrip | main.py:295 | `p.join(s.split(p)) == s` |
| Text.SplitHeadIsPrefix | main.py:295 | the first piece of a split is a prefix of the text |
| Text.SplitHeadIsFree | main.py:295 | the first piece holds no separator |
| Text.SplitAtLeftmost | mail_handler.py:30 | a split at the leftmost occurrence is the text before it, then the split of what follows |
| Text.SplitOfFree | mail_handler.py:30 | a text without the separator is its own single piece |
| Text.SplitFirstPiece | main.py:295 | either one piece equal to the text, or the separator right after the first piece and the rest split recursively |
| Text.SplitOfContained | mail_handler.py:30 | a text containing the separator has at least two pieces |
| Text.SplitPiecesFree | mail_handler.py:30 | no piece of a split contains the separator |
| Text.JoinContainsSeparator | main.py:217 | a join of two or more pieces has the separator right after the first piece |
| Text.Join | main.py:217 | `sep.join(parts)`; its meaning is fixed by `Text.SplitJoinRoundTrip` and `Text.JoinContainsSeparator` |
| Text.ReplaceAll | main.py:213 | `s.replace(p, r)`; its meaning is fixed by `Text.ReplaceIsJoinOfSplit` and `Text.ReplaceBySelf` |
| History.Normalize | history_manager.py:44-46 | a missing flag becomes false; a present flag and every other field are kept |
| History.NormalizeAll | history_manager.py:44-46 | every entry is normalised in place, and the order and length are kept |
| History.NormalizeAllNormalized | history_manager.py:44-46 | normalising a list that has every flag changes nothing |
| History.Snapshot | history_manager.py:37-49 | `get_history` is `[]` for a missing or undecodable file; otherwise it is the stored list, normalised |
| History.FirstMatch | history_manager.py:54-55 | the index of the first entry with the uuid: it matches and no earlier entry does; none exactly when no entry matches |
| History.SetFlags | history_manager.py:56-59 | each flag given is assigned, a flag not given is kept, other fields are unchanged |
| History.Updated | history_manager.py:54-61 | the list `update_status` computes keeps its length, and is the same list when no entry has the uuid |
| History.AfterUpdate | history_manager.py:51-66 | an unknown uuid leaves the file as it was; a known one rewrites it as a decodable list of the same length |
| History.UpdatedChangesOnlyFirstMatch | history_manager.py:54-61 | only the first matching entry changes and only in the flags given; length and order are kept |
| History.FirstMatchByUuids | history_manager.py:54-55 | two logs with the same uuids in the same places have the same first match |
| History.UpdatedKeepsUuids | history_manager.py:54-61 | an update never moves or changes a uuid |
| History.UpdatedIdempotent | history_manager.py:56-59 | applying an update twice equals applying it once |
| History.AfterUpdateKeepsUuids | history_manager.py:51-66 | the file after `update_status` has the same uuids in the same places |
| History.AfterUpdateIdempotent | history_manager.py:51-66 | `update_status` twice leaves the same file as once |
| History.AfterUpdateMonotone | history_manager.py:51-66 | with only `True` passed, true flags stay true, the first match stays the same, and the flags given end true |
| History.UpdateAssignsFalse | history_manager.py:56-59 | passing `False` clears a flag that was true: the update is an assignment, not an OR |
| History.HistoryManager.constructor | history_manager.py:6-13 | a missing file is created holding `[]`; any other file is left as it is |
| History.HistoryManager.AddEntry | history_manager.py:15-35 | the file becomes the stored list (`[]` if missing or undecodable) plus one new entry with both flags false |
| History.HistoryManager.GetHistory | history_manager.py:37-49 | returns the snapshot of the file |
| History.HistoryManager.UpdateStatus | history_manager.py:51-66 | returns whether some entry has the uuid; the file is rewritten with the first match updated, and left as it is when there is no match |
| ReplyChecker.Reversed | reply_checker.py:60 | `reversed(msg_ids)`: same length, element `k` is element `n-1-k` |
| ReplyChecker.Scan | reply_checker.py:60-78 | one entry's scan of its messages, newest first, yields only that entry's uuid, at most once per message |
| ReplyChecker.EntryReplies | reply_checker.py:32-78 | an entry yields only its own uuid, and nothing when it is not eligible or has no email or date |
| ReplyChecker.Replies | reply_checker.py:19-27 | nothing when the mailbox cannot be opened or the log is empty; where the reports come from is stated by `ReplyChecker.RepliesComeFromEligibleEntries` |
| ReplyChecker.CheckReplies | reply_checker.py:14-86 | the returned list is the specification `Replies` with the literal status "EnvoyÃ©"; empty when the mailbox cannot be opened |
| ReplyChecker.ScanMessages | reply_checker.py:55-78 | the uuids appended for one entry are `Scan` of its messages, newest first |
| ReplyChecker.PartsHaveReply | reply_checker.py:62-75 | the part loop finds a part exactly when some part's date parsed and is later than the send |
| ReplyChecker.ScanStep | reply_checker.py:60-78 | a fetch error ends an entry's scan; a fetched message adds the uuid exactly when it has a qualifying part |
| ReplyChecker.ScanPrefixGrows | reply_checker.py:60-75 | the scan result grows by one message's contribution per fetched message |
| ReplyChecker.RepliesConcat | reply_checker.py:32-86 | results follow history order: the scan of `a + b` is the scan of `a` followed by the scan of `b` |
| ReplyChecker.ScanStopsAtError | reply_checker.py:76-78 | a fetch error keeps what was appended for newer messages and examines no older message |
| ReplyChecker.ScanYieldsOnlyReplies | reply_checker.py:67-74 | a scan appends only the entry's uuid, at most once per message, and only when some fetched message has a part dated after the send |
| ReplyChecker.ScanFindsReply | reply_checker.py:60-75 | a qualifying message with no fetch error among newer ones puts the uuid in the result |
| ReplyChecker.EntryRepliesNeedLaterMessage | reply_checker.py:32-78 | an entry contributes only its uuid, and only when it is eligible, has an email and a parsable date, the search succeeded, and a message is dated after the send |
| ReplyChecker.RepliesComeFromEligibleEntries | reply_checker.py:32-74 | every reported uuid is the uuid of an eligible entry of the input |
| ReplyChecker.NewestLaterMessageIsReply | reply_checker.py:60-75 | an eligible entry whose newest message is dated after the send is reported |
| ReplyChecker.AppEntriesNeverScanned | reply_checker.py:34 | with statuses "Envoyé", "Échec" or "Sent", as the application writes them, the scan reports nothing |
| ReplyChecker.TwoLaterMessagesTwoReports | reply_checker.py:60-75 | an entry with two later messages is reported twice |
| ReplyChecker.ScanFirstReply | reply_checker.py:75 | the scan that stops at the first qualifying message yields the uuid at most once |
| ReplyChecker.EntryRepliesIntended | reply_checker.py:32-78 | the intended per-entry scan, which compares against "Envoyé", yields the uuid at most once |
| ReplyChecker.FirstReplyDetectsSame | reply_checker.py:60-75 | the intended scan finds a reply exactly when the literal scan does |
| ReplyChecker.IntendedReportsSentEntryOnce | reply_checker.py:34-75 | an "Envoyé" entry whose newest message is later is reported exactly once by the intended scan |
| Tracking.PixelResponse | tracking_server.py:35-41 | status 200, the pixel bytes as `image/png`, and the four no-cache and CORS headers |
| Tracking.TrackedId | tracking_server.py:25-28 | the log is touched exactly when the `id` argument is present and non-empty |
| Tracking.AfterTrack | tracking_server.py:28-30 | a request without an id leaves the log as it was, and one that changes the log names a known uuid and leaves a decodable list |
| Tracking.TrackTwiceIsTrackOnce | tracking_server.py:28-30 | a repeated request changes nothing further |
| Tracking.TrackMarksRead | tracking_server.py:28-30 | a known id ends read, no true flag is cleared, and no uuid moves; a missing, empty or unknown id leaves the log unchanged |
| Tracking.TrackingServer.constructor | tracking_server.py:12-21 | the server holds the pixel computed at start-up and the log |
| Tracking.TrackingServer.Track | tracking_server.py:23-41 | always the pixel response; the log is updated as `AfterTrack` when the update succeeds, left as it was when it fails while reading, and left undecodable when it fails while writing a known id's entry |
| Templates.DefaultTemplates | template_manager.py:49-54 | the default table is exactly "Défaut" with the given content and `["variable"]` |
| Templates.Upgrade | template_manager.py:34-40 | a bare string becomes `{content, ["variable"]}`; a record is kept |
| Templates.Persist | template_manager.py:43-44 | the written table has the same names, each value as a record |
| Templates.Migrated | template_manager.py:33-40 | every value is upgraded and the names are kept |
| Templates.Loaded | template_manager.py:27-54 | a decodable file gives its names, each upgraded to a record; otherwise the built-in default table |
| Templates.LoadWrites | template_manager.py:33-44 | the file changes only when it held a bare string, and then keeps its names and holds records only |
| Templates.MigrationIsStable | template_manager.py:33-46 | the write-back changes nothing a later load sees, and a second load writes nothing |
| Templates.ContentOf | template_manager.py:71-75 | content exactly for the names in the table |
| Templates.VariablesOf | template_manager.py:77-81 | the record's list for a known name with one, `[]` otherwise |
| Templates.SaveVariables | template_manager.py:58-62 | the given list; without one, the existing template's list, or `["variable"]` for a new name |
| Templates.Saved | template_manager.py:56-69 | the saved name is added to the names, holds the content and the chosen list, and every other template is unchanged |
| Templates.SaveThenRead | template_manager.py:56-69 | after a save the name reads back the content and the chosen variables; other names read as before; the names gain the saved name |
| Templates.Renamed | template_manager.py:95-97 | the record moves to the new name, the old name is gone, and the others are kept |
| Templates.RenameRoundTrip | template_manager.py:93-101 | a rename that succeeds can be undone and restores the table |
| Templates.IndexOf | template_manager.py:132 | `list.index`: the first position holding the value |
| Templates.RemoveFirst | template_manager.py:121 | `list.remove`: only the first occurrence is dropped, and the multiset loses exactly one copy |
| Templates.ReplaceFirst | template_manager.py:132-133 | the first occurrence is overwritten at its index and nothing else changes |
| Templates.WithVariable | template_manager.py:109-110 | a non-empty unlisted variable is appended; otherwise the list is kept |
| Templates.WithVariableKeepsNoDuplicates | template_manager.py:103-114 | a duplicate-free list stays duplicate-free and lists the non-empty variable afterwards |
| Templates.RemoveFirstFromNoDuplicates | template_manager.py:116-125 | in a duplicate-free list, removal leaves the variable absent and the list duplicate-free |
| Templates.ReplaceFirstRoundTrip | template_manager.py:127-137 | renaming a variable to an unlisted name and back restores the list |
| Templates.ReplaceFirstMayDuplicate | template_manager.py:131 | renaming onto a listed variable creates a duplicate, because the new name is not checked |
| Templates.TemplateManager.constructor | template_manager.py:9-25 | a missing file is created with the default template, taking the legacy HTML when present |
| Templates.TemplateManager.LoadTemplates | template_manager.py:27-54 | returns `Loaded` (the migrated table, or the default for a missing or undecodable file) and writes back only when something was migrated |
| Templates.TemplateManager.SaveTemplate | template_manager.py:56-69 | writes the loaded table with the name set to the content and the chosen variables |
| Templates.TemplateManager.GetTemplateContent | template_manager.py:71-75 | the content of the loaded table's record, `None` for an unknown name |
| Templates.TemplateManager.GetTemplateVariables | template_manager.py:77-81 | the variables of the loaded record, `[]` otherwise |
| Templates.TemplateManager.GetTemplateNames | template_manager.py:83-84 | the names of the loaded table |
| Templates.TemplateManager.DeleteTemplate | template_manager.py:86-91 | removes only that name; an absent name writes nothing beyond the load |
| Templates.TemplateManager.RenameTemplate | template_manager.py:93-101 | succeeds exactly when the old name exists and the new one is non-empty and free, then moves the record |
| Templates.TemplateManager.AddVariable | template_manager.py:103-114 | true exactly when the name exists and the variable is non-empty and unlisted, then appends it |
| Templates.TemplateManager.RemoveVariable | template_manager.py:116-125 | true exactly when the variable is listed, then drops its first occurrence |
| Templates.TemplateManager.RenameVariable | template_manager.py:127-137 | true exactly when the old variable is listed and the new one is non-empty, then overwrites the first occurrence |
| Profiles.ProfileManager.constructor | profile_manager.py:5-12 | a missing file is created holding `{}` |
| Profiles.ProfileManager.LoadProfiles | profile_manager.py:14-19 | the stored table, or `{}` for a missing or undecodable file |
| Profiles.ProfileManager.GetProfile | profile_manager.py:33-35 | a record exactly for the stored names, and it is the stored one |
| Profiles.ProfileManager.GetProfileNames | profile_manager.py:37-38 | exactly the names `get_profile` finds |
| Profiles.ProfileManager.SaveProfile | profile_manager.py:21-31 | the name now holds exactly the five fields; other profiles are unchanged; the names gain that name |
| Mail.MessageIdDomain | mail_handler.py:30 | "localhost" without an `@`; otherwise the second `@`-piece, which holds no `@` |
| Mail.SplitAtFirstChar | mail_handler.py:30 | splitting at a character separates the text before its first occurrence |
| Mail.DomainIsSecondPiece | mail_handler.py:30 | for `a@d` followed by nothing or by `@…`, the domain is `d` |
| Mail.NextOpen | mail_handler.py:35 | the first `<` at or after `i`, or the end of the text |
| Mail.LastClose | mail_handler.py:35 | the last `>` in a range, or none |
| Mail.TagEnd | mail_handler.py:35 | the match of `<[^<]+>` at a `<` ends at a `>` with at least one character inside and no `<` before it, and no `>` follows it before the next `<`; there is no match exactly when no `>` from the third character on comes before the next `<` |
| Mail.StripTags | mail_handler.py:35 | `re.sub('<[^<]+>', '', s)`, leftmost match first; it never lengthens the text, and its behaviour is fixed by the five lemmas below |
| Mail.StripTagsKeepsTagFree | mail_handler.py:35 | text with no `<` or no `>` is kept whole |
| Mail.StripTagsKeepsPrefix | mail_handler.py:35 | text before the first `<` is kept |
| Mail.StripTagsRemovesTag | mail_handler.py:35 | a tag `<t>` is removed whole, whatever `>` it holds, when the text after it has no `>` before its next `<`; the rest is stripped on its own |
| Mail.StripTagsKeepsUnclosed | mail_handler.py:35 | a `<` with no `>` before the next `<` is kept |
| Mail.StripTagsParagraph | mail_handler.py:35 | `<p>Hi</p>` leaves `Hi` |
| Mail.TextFallback | mail_handler.py:35-37 | never empty: the fixed notice when the stripped text is blank, otherwise the stripped tag-free text |
| Mail.DigitsAreRun | mail_handler.py:44 | a non-empty text of digits is a digit literal `int()` accepts |
| Mail.Unsigned | mail_handler.py:44 | only a digit literal has a value, and that value is not negative |
| Mail.SignedValue | mail_handler.py:44 | a value needs a non-empty text |
| Mail.ParseInt | mail_handler.py:44 | `int()` needs non-blank text |
| Mail.ParseIntRejectsBlank | mail_handler.py:44 | blank text raises |
| Mail.ParseIntOfTrimmed | mail_handler.py:44 | for text with no surrounding white space, `int()` reads the signed literal |
| Mail.Decimal | mail_handler.py:44 | `str(n)` is a non-empty run of digits |
| Mail.DecimalValue | mail_handler.py:44 | the digits of `str(n)` have value `n` |
| Mail.StripOfTrimmed | mail_handler.py:44 | text with no white space at either end is its own strip |
| Mail.RunEndsInDigit | mail_handler.py:44 | a digit literal ends in a digit |
| Mail.ParseIntDigits | mail_handler.py:44 | `int()` of a digit literal is its value |
| Mail.SignedValueNegative | mail_handler.py:44 | a minus sign negates a digit literal |
| Mail.ParseIntDecimal | mail_handler.py:44 | `int(str(n)) == n` |
| Mail.SecurityFor | mail_handler.py:45-55 | implicit SSL exactly for port 465, STARTTLS otherwise |
| Mail.Compose | mail_handler.py:25-40 | no message exactly when a header assignment raises; otherwise sender, recipient, subject and HTML are as given, the text part is non-empty, and the Message-ID domain has no `@` and no line break |
| Mail.WithoutFinalBreak | mail_handler.py:26-30 | the text less at most the one final line ending `splitlines` drops, and the text itself when it has no line break |
| Mail.MultiLineExamples | mail_handler.py:26-30 | a header ending in one line ending is accepted; one with a break before its last line is refused |
| Mail.SendEmail | mail_handler.py:11-65 | true exactly when the headers are accepted, the port parses and the server delivers, with the success message; a refused header gives the policy's error text before the port is read; then a bad port gives `int()`'s error text, an auth failure the fixed message, and any other failure its text |
| Mail.MultiLineSubjectFails | mail_handler.py:26-65 | a two-line subject gives `(False, "Header values may not contain linefeed or carriage return characters")` whatever the port and server |
| Mail.InvalidPortMessage | mail_handler.py:44 | `int()`'s error text ends with the port in quotes |
| Mail.SuccessUsedPortSecurity | mail_handler.py:44-58 | a successful send to port `str(n)` had its headers accepted and went through port `n` with SSL exactly when `n` is 465 |
| App.InsertPixelPlacesPixel | main.py:216-219 | the page always holds the pixel; without `</body>` it is appended; otherwise it is inserted before every `</body>`, and the text up to the first one is kept |
| App.PixelBeforeFirstClose | main.py:217 | the replacement is the join of the split with the pixel before each `</body>`, and the pixel sits where the first one was |
| App.TrackingPixel | main.py:206 | an `img` tag whose `src` attribute is the tracking URL |
| App.InsertPixel | main.py:216-219 | the pixel appended to a page without `</body>`, otherwise joined in before every `</body>` |
| App.PrepareSend | main.py:189-232 | aborts on an empty stripped email, then on a missing or empty template, then on any empty SMTP field; otherwise the stripped fields and the page built from the template |
| App.PreparedPageIsTracked | main.py:205-219 | the page carries the pixel for the message's own uuid; a template with no placeholder and no `</body>` is sent as it is, followed by the pixel |
| App.ApplyOneMore | main.py:271-273 | one more reported uuid applies one more update and counts one more when it was found |
| App.ApplyReplied | main.py:271-272 | the file after one `update_status(uid, replied=True)` per reported uuid; a decodable log stays decodable |
| App.CountKnown | main.py:270-273 | the number of those calls that returned true, never more than the number of reports |
| App.ApplyRepliedKeepsUuids | main.py:271-272 | the updates keep the log's length and uuids |
| App.KnownThroughUpdates | main.py:271-272 | a known uuid stays known at the same first place |
| App.AllKnownAllCounted | main.py:270-273 | when every reported uuid is in the log, the count is the number of reports |
| App.EveryReportIsCounted | main.py:266-273 | the logged count equals the number of uuids returned, duplicates included |
| App.ApplyRepliedKeepsFlags | main.py:271-272 | no true flag becomes false |
| App.ApplyRepliedMarks | main.py:271-272 | the first entry of every reported known uuid ends replied |
| App.DateShort | main.py:295 | the longest prefix of the date with no "T" |
| App.HistoryView | main.py:293-298 | one row per entry, newest first: the top row shows the last entry and the bottom row the first |
| App.HistoryViewGrows | main.py:293 | each further row shows the next older entry |
| App.RowOfEntry | main.py:293 | entry `i` is shown on row `n-1-i` |
| App.HistoryViewAppend | main.py:293 | an entry appended to the log becomes the top row, above the earlier rows |
| App.SnapshotAppend | history_manager.py:32-47 | the snapshot after an append is the old snapshot plus the normalised new entry |
| App.NewEntryShownFirst | main.py:293-295 | a newly added entry is the top row, unread and unanswered, above the earlier rows |
| App.RepliedShownAfterCheck | main.py:268-278 | after the reply check, the row of each reported entry shows a reply |
| App.Application.constructor | main.py:16-28 | the application holds the send log and the local address |
| App.Application.ProcessMail | main.py:189-246 | on an abort, nothing is sent or written; otherwise one send, and exactly one entry appended with the tracking id and "Envoyé" or "Échec" by the outcome |
| App.Application.CheckRepliesFlow | main.py:255-278 | stops when a raw IMAP field is empty; otherwise it applies `update_status(uid, replied=True)` per reported uuid and returns the count of updates that found their entry |
| App.Application.LoadHistoryView | main.py:280-310 | the rows of the current log, newest first |

## Findings

| source | as written | input that shows it | evidently intended | confidence | as-written member | corrected member |
|---|---|---|---|---|---|---|
| reply_checker.py:34 | compares the status with "EnvoyÃ©", the UTF-8 bytes of "Envoyé" read as Latin-1 | any log written by the application: statuses are "Envoyé" or "Échec" (main.py:239) | entries recorded as "Envoyé" are scanned | not executed | ReplyChecker.AppEntriesNeverScanned | ReplyChecker.IntendedReportsSentEntryOnce |
| reply_checker.py:75 | `break` leaves only the loop over message parts, so the scan goes on to older messages | an eligible entry with two messages dated after the send gives `[uuid, uuid]` | stop at the first reply ("move to next entry") | not executed | ReplyChecker.TwoLaterMessagesTwoReports | ReplyChecker.FirstReplyDetectsSame |

The application's reply flow (`App.Application.CheckRepliesFlow`) calls the checker as
written, as main.py does. The lemmas that take the list of reported uuids as a
parameter (`App.ApplyOneMore`, `App.ApplyRepliedMarks`, and `App.AllKnownAllCounted` when
every uuid is known) hold for any list. `App.EveryReportIsCounted` is proved only for the
scan as written.

## Left out

- Threads, the Flask server lifecycle and the GUI widgets are not modelled. Every operation is sequential, and the model has no lock or atomic write because the code has none.
- JSON text, file paths and encodings are not modelled. A file is `Absent`, `Corrupt` or `Ok(value)`. A missing `read` or `replied` flag in a log record, and a missing `content` or `variables` in a template record, is `None`. A stored `null` flag is treated as missing, so it reads as false after loading; `get_history` keeps it as `None`, which every caller also treats as false.
- A log record is assumed to carry the string fields `date`, `email`, `variable`, `uuid` and `status`. A record without one of them, which `entry.get` tolerates in `update_status` and `check_replies`, cannot be represented.
- A decodable file is assumed to hold data of the right shape: a list of records for the send log, an object for the template and profile tables. A file such as `{"a": 1}` or `[1]` makes `get_history` raise a `TypeError`, because only `JSONDecodeError` is caught; this case is not represented.
- Dict order is not modelled: the template and profile tables are maps, and the name lists are sets.
- The IMAP protocol is not modelled. The search is a map from sender to result, the server's `FROM` substring match is not modelled, and the MIME parsing of a message is reduced to the optional parsed date of each part.
- Dates are integers. `datetime.now()`, `fromisoformat`, `parsedate_tz` and the local time zone are inputs.
- `uuid4`, the local-address probe, the PNG bytes, the `Date` header and the random part of the Message-ID are inputs or left out.
- SMTP is the `transport` input, which returns delivered, authentication refused or another error. The `ssl` context is left out.
- `Mail.ParseInt`: only ASCII digits, underscores between digits and an optional sign are modelled. Non-ASCII decimal digits, which `int()` also accepts, are not.
- `Mail.ParseIntDecimal`: the round trip is stated for natural numbers. For negative literals it is stated on `Mail.SignedValueNegative`.
- `Mail.InvalidPortMessage`: the text quotes the port as given. Python's `repr` escaping of quotes and control characters, and the `%.200R` cut of the quoted text to 200 characters, are not modelled.
- Logging and `print` output are left out; they carry no behaviour.
- `Mail.Compose`: among header failures only the line-break refusal of the default email policy is modelled; other failures of the address-header parser are not.
- The "send immediately" checkbox that `process_mail` reads (main.py:193) is left out: its value is never used.
- The `self.after` scheduling in `check_replies` and the widget clearing in `load_history_view` are left out. Only the rows' content and order are modelled.
