# plex-o-tron, modelled in Dafny

plex-o-tron is a Telegram bot. Given a magnet link, a `.torrent` URL or a
web page, it downloads the torrent through libtorrent and files the result
into a Plex library. It can also search torrent sites (The Pirate Bay, YTS
and configurable generic sites) for a film or a TV season, using Wikipedia
for years and episode titles. Downloads are queued per chat: each chat has
at most one active download, a FIFO queue behind it, pause/resume and a
two-phase cancel. The queue state is saved to `persistence.json` after every
change and reloaded at start-up.

This project models the logic of that bot as pure Dafny functions over
immutable values and proves properties of it:

- **Scheduler.** The per-chat scheduler (`DownloadManager`,
  `SchedulerProps`) and its persistence (`State`): each lock-guarded handler
  is one atomic transition on the two dictionaries `active_downloads` and
  `download_queues`. Engine calls and task cancellations are returned as
  effects.
- **Predecessor.** The single-file predecessor `telegram_bot.py` (`Legacy`).
- **File placement.** Plex file names, torrent file checks and the
  move-and-rename step after a download (`MediaManager`, `Paths`).
- **Parsers and helpers.** The text parsers and helpers: `BotUtils`,
  `SearchParser`, `Franchise`, the Wikipedia title and year logic
  (`Wikipedia`), the TPB and YTS helpers (`Tpb`, `Yts`) and the torrent
  input routing (`TorrentService`).
- **Search.** Scoring and ranking (`Scoring`, `SearchLogic`, `Sorting`), the
  search conversation and its session record (`SearchWorkflow`,
  `SearchSession`), and the retrying Telegram wrappers (`Messaging`).
- **Tooling.** The line-oriented tools: `config.ini` reading (`Config`), the
  changelog git hooks (`ChangelogHooks`) and the scraper-config generator's
  text helpers (`ScraperConfig`).

Foreign code is passed in as function parameters ("oracles"). This covers:

- libtorrent;
- HTTP;
- the file system;
- `json`, `configparser`, `urllib.parse`;
- the fuzzy-match ratio;
- BeautifulSoup;
- the clock.

The model states only what the bot does with the results of these calls.
`Wrappers`, `Strings`, `Seqs`, `TextMatch` and `Values` are shared helpers:

- `Option` and `Result`;
- ASCII string functions;
- list comprehensions;
- leftmost-match regular-expression shapes;
- loosely typed dictionary values.

Where the code and its documentation disagree, the model follows the code:

- **Single-file completion.** It picks the first file with an allowed
  extension, not the largest (`telegram_bot/services/media_manager.py:271-277`).
- **Empty season pack.** A season pack in which no file was moved still
  reports success, with a count of 0.
- **Size limit.** The package's size limit is 21 GB
  (`telegram_bot/config.py:11`); the legacy file uses 10 GB.

## Model

| member | source | states |
|---|---|---|
| DownloadManager.QueueOf | telegram_bot/services/download_manager.py:495-501 | a chat without a queue entry has an empty queue |
| DownloadManager.Started | telegram_bot/services/download_manager.py:517-520 | the registered job holds a lock and a running task and is otherwise the queued job |
| DownloadManager.NewJob | telegram_bot/services/download_manager.py:571-576 | a confirmed download enters the queue idle, unpaused, without a pending cancel, with the pending torrent, message id and default save path |
| DownloadManager.CancelIfRunning | telegram_bot/services/download_manager.py:565-566 | the task is cancelled exactly when it exists and is not done |
| DownloadManager.StartDownloadTask | telegram_bot/services/download_manager.py:511-522 | the job becomes its chat's active download, a task is started and the state is persisted |
| DownloadManager.ProcessQueue | telegram_bot/services/download_manager.py:489-508 | nothing happens while the chat has an active download or an empty queue; otherwise the head of the queue is started and removed, the queue entry disappears when it empties |
| DownloadManager.DisplacePaused | telegram_bot/services/download_manager.py:561-566 | a paused active download is marked requeued and its running task cancelled; any other state is untouched |
| DownloadManager.AddDownload | telegram_bot/services/download_manager.py:544-608 | an expired confirmation only replies; otherwise the job is appended, persisted and the queue processed; well-formedness is kept, other chats are untouched and no chat is left with a queue but no active download |
| DownloadManager.SeasonJob | telegram_bot/services/download_manager.py:640-680 | the job for one linked entry is waiting in the chat, carries the entry's link and parsed info, the batch id, the message id as original message id and the default save path, and is a magnet exactly when the link starts with "magnet:" |
| DownloadManager.SeasonJobs | telegram_bot/services/download_manager.py:640-680 | at most one job per entry, each waiting in the chat and tagged with the batch id and the message id |
| DownloadManager.SeasonJobsAreLinkedItems | telegram_bot/services/download_manager.py:640-680 | the jobs are exactly the entries with a non-empty link, filtered in order, each turned into its job |
| DownloadManager.AddSeason | telegram_bot/services/download_manager.py:611-695 | an empty pending list only replies; otherwise a batch of `len(pending_list)` with nothing done is registered, the jobs are queued and well-formedness and other chats are kept |
| DownloadManager.AppendWaitingKeepsWf | telegram_bot/services/download_manager.py:578-581 | appending idle jobs of a chat to its queue keeps the scheduler well formed and changes no other chat |
| DownloadManager.PauseResume | telegram_bot/services/download_manager.py:698-731 | without an active download the user is told so; without a handle nothing happens; otherwise `is_paused` flips and the matching engine call (pause or resume) is made |
| DownloadManager.SetPending | telegram_bot/services/download_manager.py:755 | only the `cancellation_pending` flag of the chat's active download changes |
| DownloadManager.CancelRequest | telegram_bot/services/download_manager.py:734-782 | without an active download the user is told so; "cancel_download" sets the pending flag and asks; "cancel_confirm" clears it and cancels a running task; "cancel_deny" clears it |
| DownloadManager.CancelAll | telegram_bot/services/download_manager.py:785-866 | "cancel_all" sets the pending flag and asks; "cancel_all_confirm" deletes the queue, clears the flag, cancels the task and persists; "cancel_all_deny" clears the flag; other actions do nothing |
| DownloadManager.Requeue | telegram_bot/services/download_manager.py:408-431 | the job goes to the back of its chat's queue paused, leaves the active map, the state is persisted and the queue processed; well-formedness and settledness hold after |
| DownloadManager.Requeued | telegram_bot/services/download_manager.py:417-421 | the requeued record is idle and paused and keeps source, message id, save path, pending flag and lock |
| DownloadManager.Cleanup | telegram_bot/services/download_manager.py:455-469 | the chat's active entry is removed and the state persisted |
| DownloadManager.Finish | telegram_bot/services/download_manager.py:248-356 | a requeued job is requeued; during shutdown nothing but batch counters changes; otherwise the final message is sent, resources cleaned up and the queue processed; well-formedness is kept |
| DownloadManager.BatchesAfter | telegram_bot/services/download_manager.py:279-306 | batch counters move only after a successful download |
| DownloadManager.BatchStep | telegram_bot/services/download_manager.py:377-386 | `done` goes up by one and the scan fires exactly when `done` reaches `total` and no scan has happened, which marks the batch scanned |
| DownloadManager.EscapeV2 | telegram_bot/services/download_manager.py:393 | Telegram MarkdownV2 escaping: undoing the escapes gives the text back, every special character is escaped, and text without special characters is unchanged |
| DownloadManager.BatchSeason | telegram_bot/services/download_manager.py:389-390 | a missing or falsy season reads as 0, otherwise `int()` of it, and nothing when `int()` cannot read it |
| DownloadManager.BatchLine | telegram_bot/services/download_manager.py:389-402 | the completion line exists exactly when the season reads as a number; it names the two-digit season, the MarkdownV2-escaped title and "total/total" episodes |
| DownloadManager.UpdateBatch | telegram_bot/services/download_manager.py:359-405 | a job without a batch id or with an unknown batch leaves counters and message alone; otherwise the batch is stepped, and when it fires with a readable season the completion line and scan message are appended, while an unreadable season leaves the text as it was and triggers no scan |
| DownloadManager.UnreadableSeasonSkipsScan | telegram_bot/services/download_manager.py:389-405 | a season of "abc" marks the batch scanned but adds no line and runs no scan |
| DownloadManager.BatchScansOnce | telegram_bot/services/download_manager.py:377-386 | over any number of completions a fresh batch triggers exactly one Plex scan, once `done` reaches `total` |
| DownloadManager.ScannedStaysQuiet | telegram_bot/services/download_manager.py:381 | a batch already scanned never scans again |
| DownloadManager.Report | telegram_bot/services/download_manager.py:43-128 | nothing is reported while a cancel is pending or within one second of the last report; otherwise the report time moves to now, the call raises exactly when a tv record's title, season or (non-pack) episode cannot be read, and a shown message has speed 0 when paused and rate/1024/1024 otherwise, the matching Resume or Pause toggle, and "Cancel All" exactly when the chat has queued downloads |
| DownloadManager.IntOrZero | telegram_bot/services/download_manager.py:69 | `int(x or 0)`: a falsy value reads as 0, an integer as itself, anything else as `int()` reads it |
| DownloadManager.UnreadableSeasonRaisesReport | telegram_bot/services/download_manager.py:54-69 | a tv download whose season is "abc" raises and sends nothing, though its report time has already moved to now |
| DownloadManager.ReadableNamesShow | telegram_bot/services/download_manager.py:68-85 | a tv record with integer season and episode and a string or missing title always gets a message once the throttle passes |
| SchedulerProps.AdmissionIsFifo | telegram_bot/services/download_manager.py:489-508 | draining a chat admits its queued downloads in queue order |
| SchedulerProps.DrainEmptiesChat | telegram_bot/services/download_manager.py:340-356 | once every queued download has been admitted and finished the chat has neither an active download nor a queue |
| SchedulerProps.DrainSplit | telegram_bot/services/download_manager.py:340-356 | a drain of k + 1 rounds is a drain of k rounds followed by one finish |
| SchedulerProps.DrainKeeps | telegram_bot/services/download_manager.py:340-356 | each admission keeps the scheduler well formed with a plain active download |
| SchedulerProps.DrainStep | telegram_bot/services/download_manager.py:340-356 | the first round of a drain is one finish of the active download |
| SchedulerProps.FinishAdmitsNext | telegram_bot/services/download_manager.py:346-356 | finishing the active download of a chat with a queue starts the head of that queue |
| SchedulerProps.AddKeepsActive | telegram_bot/services/download_manager.py:561-581 | confirming a download never removes the chat's active download |
| SchedulerProps.AddSeasonKeepsActive | telegram_bot/services/download_manager.py:620-626 | the same for a whole season |
| SchedulerProps.AddWhileActiveAppends | telegram_bot/services/download_manager.py:578-590 | a confirmation while a download runs only appends to the queue |
| SchedulerProps.AddWhileIdleStarts | telegram_bot/services/download_manager.py:604-608 | a confirmation for an idle chat is admitted straight away |
| SchedulerProps.AddSeasonWhileActiveAppends | telegram_bot/services/download_manager.py:671-690 | a season confirmed while a download runs appends exactly its jobs, in order, to the queue and replies with the number queued |
| SchedulerProps.AddSeasonWhileIdleStarts | telegram_bot/services/download_manager.py:671-690 | a season confirmed for an idle chat starts its first job and queues the rest in order; with no linked entry nothing starts |
| SchedulerProps.DisplacedGoesBehind | telegram_bot/services/download_manager.py:561-566 | a new download displaces a paused active one, which ends up paused behind it in the queue |
| SchedulerProps.ToggleTwiceRestores | telegram_bot/services/download_manager.py:718-729 | pausing and resuming restores the scheduler |
| SchedulerProps.CancelThenDenyRestores | telegram_bot/services/download_manager.py:753-782 | asking to cancel and then declining leaves the download exactly as it was |
| SchedulerProps.CancelThenConfirm | telegram_bot/services/download_manager.py:753-779 | asking and then confirming cancels the running task with the flag cleared |
| SchedulerProps.CancelAllClearsChat | telegram_bot/services/download_manager.py:795-851 | asking and confirming "cancel all" leaves no queue for the chat and cancels its task |
| SchedulerProps.ShutdownFinishKeepsMaps | telegram_bot/services/download_manager.py:313-316 | a task stopped by shutdown leaves both maps untouched so that the shutdown save keeps it |
| State.Strip | telegram_bot/state.py:21-25 | the persisted copy lacks task, lock and handle and is otherwise the job |
| State.PersistedActive | telegram_bot/state.py:17-26 | exactly the non-requeued active downloads are persisted, each stripped |
| State.SaveState | telegram_bot/state.py:14-42 | an unwritable file is left alone; queues holding runtime objects garble it; otherwise the snapshot of persisted active downloads and queues is written |
| State.LoadState | telegram_bot/state.py:45-68 | a missing, unreadable or unparsable file gives two empty maps; otherwise the saved maps |
| State.SaveLoadRoundTrip | telegram_bot/state.py:14-68 | loading what was saved gives the persisted active downloads and the queues back (the file is modelled as the saved value, so this holds once the save writes) |
| State.StripQueues | telegram_bot/state.py:21-25 | every queued job stripped, same chats and lengths, all serialisable |
| State.StripAll | telegram_bot/state.py:21-25 | a queue stripped job by job |
| State.SaveStateFixed | telegram_bot/state.py:14-42 | the corrected save always writes a loadable snapshot when the file is writable |
| State.SaveFixedLoadRoundTrip | telegram_bot/state.py:14-68 | with the corrected save the queues come back job for job, stripped |
| State.SaveFixedAgrees | telegram_bot/state.py:14-42 | on serialisable queues the corrected save writes what the original writes |
| State.RequeueGarblesSave | telegram_bot/state.py:28-35 | displacing a paused download that holds its lock puts an unserialisable job in the queue, the save garbles the file and the next start loads nothing |
| State.RequeueSavesWhenFixed | telegram_bot/state.py:28-35 | with the corrected save the displaced job reloads paused and stripped at the back of the queue |
| State.PostInit | telegram_bot/state.py:71-100 | start-up installs the loaded maps and gives each restored active download a lock and a task; queued ones are not started |
| State.FinishCancelled | telegram_bot/state.py:127-129 | the cancelled tasks' completion handlers, run in turn during shutdown, keep the flag, the batches and well-formedness |
| State.FinishCancelledRefiles | telegram_bot/services/download_manager.py:408-431 | a cancelled requeued download is filed at the back of its queue with its lock and the head of the queue is admitted in its place |
| State.FinishCancelledIdle | telegram_bot/services/download_manager.py:313-316 | when no cancelled download was requeued the handlers change nothing |
| State.PostShutdown | telegram_bot/state.py:103-137 | shutdown sets the flag, cancels exactly the running tasks, lets their handlers finish and then saves the state they leave |
| State.ShutdownRefilesDisplaced | telegram_bot/state.py:127-137 | a displaced download whose task is cancelled at shutdown is behind its queue when the state is saved, and the queue's head is active |
| State.ShutdownGarblesWithDisplaced | telegram_bot/state.py:28-35 | that refiled download still holds its lock, so the shutdown save garbles the file and the next start restores nothing |
| State.ShutdownFixedKeepsDisplaced | telegram_bot/state.py:28-35 | with the corrected save the refiled download reloads stripped and paused at the back of its queue |
| State.RestartResumes | telegram_bot/state.py:71-137 | when no cancelled download was displaced, after shutdown and restart every non-requeued active download is running again and the queues are restored |
| MediaManager.SafeName | telegram_bot/services/media_manager.py:27-28 | the characters not in `<>:"/\|?*` in their original order, and nothing else |
| MediaManager.RemoveAllowedIsFilter | telegram_bot/services/media_manager.py:27-28 | removing the invalid characters is filtering by the allowed ones |
| MediaManager.SafeNameKeepsOrder | telegram_bot/services/media_manager.py:27-28 | sanitising a concatenation concatenates the sanitised parts, and one character survives exactly when it is allowed |
| MediaManager.IntLike | telegram_bot/services/media_manager.py:43 | the values `{v:02d}` accepts are the ints; strings and None are refused |
| MediaManager.Format02 | telegram_bot/services/media_manager.py:43 | formatting succeeds exactly on ints and gives the two-digit zero-padded number |
| MediaManager.TitleText | telegram_bot/services/media_manager.py:26-28 | a missing title gives the default; a present one succeeds exactly when it is a string |
| MediaManager.GetOr | telegram_bot/services/media_manager.py:35-36 | `dict.get` with a default |
| MediaManager.EpisodeFileName | telegram_bot/services/media_manager.py:34-43 | the episode name is produced exactly when season and episode are ints and a truthy episode title is a string |
| MediaManager.GeneratePlexFilename | telegram_bot/services/media_manager.py:24-46 | a non-string title raises; "tv" gives the episode name; a type other than movie or tv gives the safe title plus extension |
| MediaManager.MovieFilename | telegram_bot/services/media_manager.py:30-32 | a film is named "<safe title> (<year>)<ext>" |
| MediaManager.EpisodeFilename | telegram_bot/services/media_manager.py:34-43 | an episode is named "sSSeEE[ - <safe episode title>]<ext>" with the dash part only for a non-empty episode title |
| MediaManager.EpisodeFilenameReparses | telegram_bot/services/media_manager.py:34-43 | the generated episode name parses back through `parse_torrent_name` as the same season and episode |
| MediaManager.MarkerAtStart | telegram_bot/utils.py:207-225 | a name starting with sSSeEE followed by a non-word character parses as that episode |
| MediaManager.DestinationPath | telegram_bot/services/media_manager.py:314-334 | a missing "default" raises KeyError; movies go to "movies" or the default; tv goes to "<tv root>/<safe show>/Season NN"; anything else to the default |
| MediaManager.SeasonFolder | telegram_bot/services/media_manager.py:324-332 | the folder exists exactly for a string show and an int season; its last component is "Season NN" and its parent is the safe show title |
| MediaManager.PadNoSlash | telegram_bot/services/media_manager.py:332 | the season number adds no path separator |
| MediaManager.LibraryFor | telegram_bot/services/media_manager.py:348-354 | only "movie" and "tv" have a library |
| MediaManager.TriggerScan | telegram_bot/services/media_manager.py:337-375 | without a Plex config or a library the message is empty, otherwise it is not |
| MediaManager.ScanMessageNamesLibrary | telegram_bot/services/media_manager.py:348-375 | the started-scan message names its library, so movie and tv scans give different messages, and it never equals the error message |
| MediaManager.LargestIndex | telegram_bot/services/media_manager.py:53 | `max(..., key=file_size)`: the first index of the largest size |
| MediaManager.DominantFileType | telegram_bot/services/media_manager.py:49-56 | "N/A" for no files or an extensionless largest file; otherwise exactly the largest file's extension without the dot, upper-cased character by character |
| MediaManager.DominantIgnoresSmaller | telegram_bot/services/media_manager.py:53-56 | adding a file no larger than the current largest does not change the answer |
| MediaManager.ParseResolution | telegram_bot/services/media_manager.py:59-70 | the answer is one of 4K, 1080p, 720p, SD, N/A |
| MediaManager.ResolutionMonotone | telegram_bot/services/media_manager.py:59-70 | appending text never lowers the detected resolution's rank |
| MediaManager.ResolutionIgnoresCase | telegram_bot/services/media_manager.py:61 | detection ignores case |
| MediaManager.ValidateTorrentFiles | telegram_bot/services/media_manager.py:73-108 | an empty torrent is refused; a torrent is accepted exactly when some file over 10 MiB has an allowed extension, or none is that large and the largest file's is allowed; the refusal names the largest file's extension |
| MediaManager.FirstAllowed | telegram_bot/services/media_manager.py:271-277 | the first file, in torrent order, with an allowed extension, or none when there is none |
| MediaManager.ValidatedHasTarget | telegram_bot/services/media_manager.py:73-108 | a validated torrent always has a file the single-file branch can move |
| MediaManager.PackRecord | telegram_bot/services/media_manager.py:208-213 | the per-file record takes type "tv" and the pack's title and season, and the episode parsed from the file name |
| MediaManager.PackEligibleIff | telegram_bot/services/media_manager.py:203-227 | a pack file is processed exactly when its extension is allowed, the pack has a string title and an int season and the file name parses as an episode |
| MediaManager.WithLookup | telegram_bot/services/media_manager.py:241-243 | the lookup sets the episode title and replaces the show title only when a correction came back |
| MediaManager.EligibleRecordPlaces | telegram_bot/services/media_manager.py:245-250 | an eligible record always has a destination and a file name |
| MediaManager.PlanMove | telegram_bot/services/media_manager.py:245-254 | the move starts from the file's download path; a missing default path raises KeyError |
| MediaManager.PackItemFor | telegram_bot/services/media_manager.py:202-254 | a file gets a plan exactly when it is eligible |
| MediaManager.PackItems | telegram_bot/services/media_manager.py:202 | one item per torrent file, in order |
| MediaManager.RunPack | telegram_bot/services/media_manager.py:202-256 | the loop moves at most one file per item |
| MediaManager.HandleSuccessfulDownload | telegram_bot/services/media_manager.py:184-311 | a pack never takes the single-file branch and scans TV once; a single download with no allowed file fails with FileNotFoundError, otherwise moves its first allowed file; a deferred scan is empty |
| MediaManager.SingleMoviePlacement | telegram_bot/services/media_manager.py:268-299 | a single film moves from its first playable file to "<movies root>/<title> (<year>)<ext>" and scans Movies unless deferred |
| MediaManager.MovieInfoFields | telegram_bot/services/media_manager.py:30 | a film record is a non-pack of type "movie" with its title |
| MediaManager.CountPlanned | telegram_bot/services/media_manager.py:256 | the number of planned items is bounded by the number of items |
| MediaManager.CountEligible | telegram_bot/services/media_manager.py:256 | the number of eligible files is bounded by the number of files |
| MediaManager.CountsAgree | telegram_bot/services/media_manager.py:201-256 | the planned items are counted exactly as the eligible files |
| MediaManager.RunPackAllMoved | telegram_bot/services/media_manager.py:201-256 | when every move succeeds one move per planned item is made, each being one of the plans |
| MediaManager.RunPackSkips | telegram_bot/services/media_manager.py:205-206 | skipped files do nothing |
| MediaManager.PackMovesEligible | telegram_bot/services/media_manager.py:200-265 | a pack moves exactly its eligible files, each from its download path, and succeeds |
| MediaManager.PackWithoutTitleMovesNothing | telegram_bot/services/media_manager.py:221-227 | a pack without a string title moves nothing and still reports success with one TV scan |
| MediaManager.PackMoveFailureAborts | telegram_bot/services/media_manager.py:254-303 | a failed move aborts the whole pack with that failure |
| MediaManager.OutcomeMessage | telegram_bot/services/media_manager.py:261-311 | the message starts with the success marker exactly when post-processing did not fail |
| Legacy.EscapeMarkdown | telegram_bot.py:39-42 | the escaped text is never shorter and text without special characters is unchanged |
| Legacy.EscapeMarkdownRoundTrip | telegram_bot.py:39-42 | removing the escaping backslashes gives the original text back |
| Legacy.EscapeMarkdownGuards | telegram_bot.py:39-42 | every special character of the result is preceded by a backslash |
| Legacy.Authorized | telegram_bot.py:661-680 | an empty allow-list admits everyone; otherwise exactly a present user whose id is listed |
| Legacy.AuthorizedMonotone | telegram_bot.py:661-680 | listing more users never locks out one already admitted |
| Legacy.FirstBadLarge | telegram_bot.py:645-653 | the first file over 10 MiB, in torrent order, whose extension is not allowed |
| Legacy.LegacyValidate | telegram_bot.py:635-659 | an empty torrent is refused; a torrent is accepted exactly when every large file has an allowed extension and, with no large file, the largest file's extension is allowed |
| Legacy.LegacyValidateStricter | telegram_bot.py:635-659 | whatever the legacy check accepts the package's check accepts too |
| Legacy.LegacyRejectsMixedLargeFiles | telegram_bot.py:649-653 | a torrent with a large .mkv and a large .iso passes the package's check but the legacy one refuses it, naming ".iso" |
| Legacy.MkvAllowed | telegram_bot.py:37 | ".mkv" is an allowed extension |
| Legacy.IsoRejected | telegram_bot.py:37 | ".iso" is not an allowed extension |
| Legacy.LegacyStart | telegram_bot.py:1578-1587 | the job becomes the chat's active download with a lock and a running task; nothing else changes |
| Legacy.LegacyProcessQueue | telegram_bot.py:1159-1195 | nothing happens while the chat has an active download |
| Legacy.LegacyQueueAgrees | telegram_bot.py:1159-1195 | the legacy admission is the package's: same guard, same FIFO pop, same deletion of an emptied queue |
| Legacy.LegacyConfirm | telegram_bot.py:1357-1383 | an expired confirmation only replies |
| Legacy.LegacyConfirmAgrees | telegram_bot.py:1357-1383 | without a paused or displaced download in the chat, confirming is the same transition as the package's |
| Legacy.LegacyConfirmIdleStarts | telegram_bot.py:1368-1383 | a confirmation for an idle chat starts the new download at once and says it is next in line |
| Legacy.LegacyCleanup | telegram_bot.py:1425-1442 | the entry is removed and the state saved only when the chat had one, which is then the package's cleanup |
| Legacy.LegacyCancel | telegram_bot.py:1291-1317 | without an active download the user is told so; without a lock nothing happens; "cancel_download" sets the pending flag; "confirm_cancel" cancels a running task and changes no flag; "resume_download" clears the flag |
| Legacy.LegacyCancelThenResume | telegram_bot.py:1296-1313 | asking to cancel and then declining restores the state |
| Legacy.LegacyConfirmKeepsPending | telegram_bot.py:1302-1304 | unlike the package, confirming leaves the pending flag set |
| Legacy.LegacyReportDue | telegram_bot.py:1391-1396 | no update while a cancel is pending or within 5 seconds of the previous one |
| Legacy.LegacyReportsSubset | telegram_bot.py:1391-1396 | whenever the legacy 5-second throttle lets an update through, the package's 1-second throttle does too: the package reporter moves its report time to now and builds the message |
| Legacy.LegacyUpdatesSpaced | telegram_bot.py:1391-1396 | two consecutive legacy updates are at least 5 seconds apart |
| Legacy.LegacyCopy | telegram_bot.py:886-890 | the legacy copy pops only the task, keeping lock and handle |
| Legacy.LegacySave | telegram_bot.py:884-905 | an unwritable file is left alone; the document is written exactly when every copy can be encoded, with the same chats and queues |
| Legacy.LegacyStartGarblesSave | telegram_bot.py:1578-1587 | every start saves while the job holds its lock, so the file is garbled and the next start loads nothing |
| Legacy.LegacySaveFixed | telegram_bot.py:884-905 | with the lock popped too, every writable save of serialisable queues is written |
| Legacy.LegacySaveFixedRoundTrip | telegram_bot.py:884-923 | with the lock popped, a save made while downloads run loads back every active download stripped and the same queues |
| Paths.RFind | telegram_bot/services/media_manager.py:55 | the index of the last occurrence, or -1 when there is none |
| Paths.SplitExt | telegram_bot/services/media_manager.py:55 | `os.path.splitext`: the two parts concatenate to the path and the extension is empty or a dot followed by neither dot nor slash |
| Paths.Basename | telegram_bot/services/media_manager.py:209 | `os.path.basename`: a slash-free suffix of the path |
| Paths.PathJoin | telegram_bot/services/media_manager.py:251-252 | `os.path.join`: an absolute second part wins; otherwise a slash is inserted only when the first part is non-empty and does not end in one |
| Paths.JoinBasename | telegram_bot/services/media_manager.py:251-252 | the base name of a joined path is the slash-free second part |
| Paths.ParentDir | telegram_bot/services/media_manager.py:332 | a helper for the folder layout, not `os.path.dirname`: the text before the last slash, strictly shorter, or the whole path when it has no slash |
| Paths.JoinParent | telegram_bot/services/media_manager.py:332 | the parent of a joined path is the first part |
| Paths.SplitExtOfSuffix | telegram_bot/services/media_manager.py:55 | a name with a dotted suffix splits into the name and that suffix |
| BotUtils.FirstDigit | telegram_bot/utils.py:73 | the first digit at or after a position, or none when there is none |
| BotUtils.FirstInt | telegram_bot/utils.py:73-74 | a number is found exactly when the text holds a digit |
| BotUtils.ExtractFirstInt | telegram_bot/utils.py:69-74 | empty text gives None |
| BotUtils.ExtractNoDigits | telegram_bot/utils.py:69-74 | text without a digit gives None |
| BotUtils.StripWindow | telegram_bot/utils.py:73 | stripping keeps every character between the first and the last non-space one |
| BotUtils.ExtractRendered | telegram_bot/utils.py:69-74 | a number written between digit-free text and a non-digit is read back as itself |
| BotUtils.ExtractDigitsBetween | telegram_bot/utils.py:69-74 | any digit run so placed is read back as its value |
| BotUtils.ReadBackText | telegram_bot/utils.py:69-74 | the first maximal digit run of the text is read back as its value |
| BotUtils.CleanName | telegram_bot/utils.py:207 | every dot and underscore becomes a space and nothing else changes |
| BotUtils.TvMatchAt | telegram_bot/utils.py:210-212 | a marker starts at a word boundary and has one- or two-digit season and episode |
| BotUtils.FindTv | telegram_bot/utils.py:210-212 | `re.search`: the leftmost marker, or none when no position matches |
| BotUtils.NameDict | telegram_bot/utils.py:225-247 | the dictionary has type and title; type is "tv" exactly for an episode, which alone carries season and episode |
| BotUtils.TrimTitle | telegram_bot/utils.py:224-234 | the trimmed title is no longer and has no outer whitespace |
| BotUtils.ParseTorrentName | telegram_bot/utils.py:202-247 | an episode exactly when a TV marker is found, with its season and episode; a film exactly when there is no marker but a 19xx/20xx year, with that year |
| BotUtils.FallbackKeepsExtension | telegram_bot/utils.py:207-244 | dots are already spaces when `splitext` runs, so a plain "name.ext" is titled "name ext" |
| BotUtils.PlainPairTitle | telegram_bot/utils.py:245-246 | tag removal, stripping and space collapsing leave two plain words alone |
| BotUtils.NoDigitsNoTv | telegram_bot/utils.py:210-212 | text without digits holds no TV marker |
| BotUtils.NoDotNoExt | telegram_bot/utils.py:244 | a name without a dot has no extension |
| BotUtils.ParseTorrentNameFixed | telegram_bot/utils.py:237-247 | the corrected parser agrees with the original when a marker or year is found, and otherwise splits the extension off the raw name before cleaning |
| BotUtils.FixedFallbackDropsExtension | telegram_bot/utils.py:237-247 | the corrected parser titles a plain "name.ext" as "name" |
| BotUtils.CleanPlainPair | telegram_bot/utils.py:207 | cleaning turns the dot between two plain words into a space |
| BotUtils.SplitPlainPair | telegram_bot/utils.py:244 | `splitext` separates a plain word from its extension |
| BotUtils.PlainWordTitle | telegram_bot/utils.py:245-246 | a plain word is its own fallback title |
| BotUtils.TvNameRoundTrip | telegram_bot/utils.py:207-225 | parsing "<title>.SnnEmm<rest>" gives back the title with dots as spaces, the season and the episode |
| BotUtils.EpisodeFindTv | telegram_bot/utils.py:210-212 | the leftmost marker of an episode name is the one after the title |
| BotUtils.MarkerAfterTitle | telegram_bot/utils.py:210-212 | "SnnEmm" after the title and a space is a TV marker |
| BotUtils.NoMarkerInTitle | telegram_bot/utils.py:210-212 | no marker starts inside a title without digits |
| BotUtils.TvTitle | telegram_bot/utils.py:214-224 | the title steps of the TV branch leave a cleaned title alone |
| BotUtils.CleanConcat | telegram_bot/utils.py:207 | cleaning commutes with concatenation |
| BotUtils.MovieNameRoundTrip | telegram_bot/utils.py:207-235 | parsing "<title>.<year><rest>" gives back the title with dots as spaces and the year |
| BotUtils.MovieTitle | telegram_bot/utils.py:231-234 | the title steps of the film branch leave a cleaned title alone |
| BotUtils.TrimAlphaEnds | telegram_bot/utils.py:224-234 | text with a letter at both ends has nothing to trim |
| BotUtils.MovieFindYear | telegram_bot/utils.py:228 | the leftmost year of a film name is the one after the title |
| BotUtils.YearNameNoTv | telegram_bot/utils.py:210-212 | a film name holds no TV marker |
| BotUtils.FindYearAt | telegram_bot/utils.py:228 | the search finds the leftmost year position |
| BotUtils.EpisodeMarker | telegram_bot/utils.py:210-212 | "SnnEmm" preceded by a non-word character and followed by a word boundary is a marker with those numbers |
| BotUtils.FindTvAt | telegram_bot/utils.py:210-212 | the search finds the leftmost marker position |
| BotUtils.SiteName | telegram_bot/utils.py:20-55 | "Unknown" for an empty URL or host; otherwise an upper-case name without dots |
| BotUtils.SiteNameIgnoresWww | telegram_bot/utils.py:44-45 | a leading "www." never changes the site name |
| BotUtils.SiteNameIsFirstLabel | telegram_bot/utils.py:44-52 | the site name is the upper-cased first label of the host |
| Values.WordIsNoInt | telegram_bot/services/download_manager.py:390 | `int()` cannot read text that starts and ends with a letter |
| Messaging.SuppressionKey | telegram_bot/utils.py:92-105 | a Message always has a key; for a Bot there is one exactly when both chat_id and message_id are passed |
| Messaging.FallBack | telegram_bot/utils.py:142-153 | an uneditable Message is sent again as a new message to its chat with the same text |
| Messaging.EditLoop | telegram_bot/utils.py:113-199 | the loop makes at most the remaining number of attempts, only adds sleeps, never leaves a suppression entry behind a successful edit and keeps the suppression map for keyless edits |
| Messaging.SafeEditMessage | telegram_bot/utils.py:77-199 | an edit under an open suppression window makes no call; otherwise at most `max_attempts` calls, with the same suppression guarantees as the loop |
| Messaging.HarmlessNeverRaises | telegram_bot/utils.py:129-133 | "message is not modified" is swallowed whatever transient failures came before it |
| Messaging.Delay | telegram_bot/utils.py:189-190 | the back-off never falls below the base delay |
| Messaging.Backoff | telegram_bot/utils.py:189-190 | one doubling sleep per remaining attempt |
| Messaging.TransientExhausts | telegram_bot/utils.py:187-197 | network failures on every attempt: exactly `max_attempts` calls, sleeps doubling from the base delay, then the last failure is raised |
| Messaging.TransientStep | telegram_bot/utils.py:187-193 | one transient failure sleeps the current back-off, doubles it and retries |
| Messaging.LongRetryAfterSuppresses | telegram_bot/utils.py:107-182 | a RetryAfter longer than allowed opens a suppression window and returns quietly; an edit of the same message inside the window makes no call |
| Messaging.ShortRetryAfterThenEdited | telegram_bot/utils.py:167-186 | a short RetryAfter then success: two calls and one sleep of the wait plus 0.1 s |
| Messaging.UneditableFallsBack | telegram_bot/utils.py:135-153 | a message that can no longer be edited is sent anew to the same chat with the same text |
| Messaging.ResolvedChat | telegram_bot/utils.py:269-275 | the chat given wins, else the Message's own |
| Messaging.Retry | telegram_bot/utils.py:287-299 | a RetryAfter keeps the delay; a network failure sleeps the delay and doubles it |
| Messaging.SendLoop | telegram_bot/utils.py:280-304 | at most the remaining attempts are made, and a send succeeds only on a call that succeeded, to the resolved chat with the given text |
| Messaging.SafeSendMessage | telegram_bot/utils.py:250-304 | missing text and then a missing chat raise ValueError before any call; at most `max_attempts` calls are made |
| Messaging.SendRetriesUntilDone | telegram_bot/utils.py:284-300 | retryable failures are retried until the first success while attempts remain |
| Messaging.SendGivesUp | telegram_bot/utils.py:284-304 | retryable failures on every attempt: exactly `max_attempts` calls, then the last failure is raised |
| Scoring.KeywordScore | telegram_bot/services/scrapers/scoring.py:17-24 | with non-negative weights the keyword part is non-negative |
| Scoring.UploaderScore | telegram_bot/services/scrapers/scoring.py:27-29 | with non-negative weights the uploader part is non-negative |
| Scoring.ScoreTorrentResult | telegram_bot/services/scrapers/scoring.py:6-34 | with no preferences the score is the seeder count; with non-negative weights it is never below it |
| Scoring.KeywordScoreAppend | telegram_bot/services/scrapers/scoring.py:17-24 | the keyword score of two weight lists is the sum of their scores |
| Scoring.KeywordScoreSnoc | telegram_bot/services/scrapers/scoring.py:18-19 | one more key adds its weight exactly when it occurs in the lower-cased title |
| Scoring.KeywordScoreSwap | telegram_bot/services/scrapers/scoring.py:17-24 | the order of the preference entries does not matter |
| Scoring.ScoreIgnoresCase | telegram_bot/services/scrapers/scoring.py:14-28 | the score ignores the case of the title and of the uploader |
| Scoring.UploaderCase | telegram_bot/services/scrapers/scoring.py:28 | the uploader comparison ignores case |
| Scoring.SubstringCodec | telegram_bot/services/search_logic.py:120-127 | None exactly when none of x265, hevc, x264 occurs in the lower-cased title; x265 and hevc win over x264 |
| Scoring.SkipSpaces | telegram_bot/services/scrapers/scoring.py:41 | a greedy `\s*`: the end of the whitespace run |
| Scoring.LiteralEnd | telegram_bot/services/scrapers/scoring.py:39-43 | a literal matches exactly where it occurs, ending after it |
| Scoring.XEnd | telegram_bot/services/scrapers/scoring.py:41-43 | a match of `x\s*<digits>` is non-empty and inside the text |
| Scoring.HEnd | telegram_bot/services/scrapers/scoring.py:41-43 | a match of `h\s*[.\s]?<digits>` is non-empty and inside the text |
| Scoring.ParseCodec | telegram_bot/services/scrapers/scoring.py:37-58 | av1 wins when its pattern matches, then x265, then x264; None exactly when no pattern matches |
| Scoring.HevcWordIsX265 | telegram_bot/services/scrapers/scoring.py:41-57 | "hevc" as a separate word gives x265 unless the title names av1 |
| Scoring.Av1WordWins | telegram_bot/services/scrapers/scoring.py:39-57 | "av1" as a separate word wins over any other codec |
| Scoring.GluedX265Differs | telegram_bot/services/scrapers/scoring.py:41 | the two codec parsers disagree on "ax265": the substring test finds x265, the word-bounded pattern does not |
| SearchLogic.ConfigKey | telegram_bot/services/search_logic.py:34 | "movies" exactly for "movie", "tv" for everything else |
| SearchLogic.TaskOf | telegram_bot/services/search_logic.py:49-75 | a configuration item yields a task exactly when it is a dict, enabled, has a non-empty string name with a scraper and a truthy search URL |
| SearchLogic.SelectSites | telegram_bot/services/search_logic.py:48-75 | at most one task per item, each for a known scraper with a URL |
| SearchLogic.SelectSitesAppend | telegram_bot/services/search_logic.py:49 | selection goes item by item |
| SearchLogic.SelectSitesComplete | telegram_bot/services/search_logic.py:48-75 | every qualifying site is searched and nothing else is |
| SearchLogic.ScoreKey | telegram_bot/services/search_logic.py:83 | a missing score sorts as 0 |
| SearchLogic.GatherContains | telegram_bot/services/search_logic.py:81-82 | each task contributes all of its results |
| SearchLogic.OrchestrateSearches | telegram_bot/services/search_logic.py:21-86 | no list, or an empty one, gives []; otherwise the merged results of the selected sites, permuted, sorted by score descending, with equal scores in gathering order |
| SearchLogic.NoTaskNoResults | telegram_bot/services/search_logic.py:77-79 | with no site selected nothing is returned |
| SearchLogic.SiteResultsKept | telegram_bot/services/search_logic.py:81-86 | every result of a searched site appears in the merged list |
| SearchLogic.MatchesIn | telegram_bot/services/search_logic.py:170-173 | the matches of a directory are at most its entries |
| SearchLogic.MatchesInComplete | telegram_bot/services/search_logic.py:170-173 | a name scoring above 85 is reported under its directory |
| SearchLogic.Shape | telegram_bot/services/search_logic.py:177-181 | None for no match, the bare path for one, the whole list for several |
| SearchLogic.FindMediaByName | telegram_bot/services/search_logic.py:152-162 | a missing, empty or absent library root gives None |
| SearchLogic.SingleMatchIsPath | telegram_bot/services/search_logic.py:152-181 | a lone close match is returned as a bare path |
| Tpb.SafeInt | telegram_bot/services/scrapers/tpb.py:214-219 | the result is `int(value)` exactly when that parses and is non-negative, and 0 otherwise |
| Tpb.SafeIntOfText | telegram_bot/services/scrapers/tpb.py:214-219 | a count given as an int or as decimal text reads back as itself |
| Tpb.SafeIntRejects | telegram_bot/services/scrapers/tpb.py:214-219 | negative numbers, None and the empty string read as 0 |
| Tpb.Blank | telegram_bot/services/scrapers/tpb.py:206 | every character other than ASCII letters, digits and whitespace becomes a space, position by position |
| Tpb.DropStopWords | telegram_bot/services/scrapers/tpb.py:210 | the kept tokens are non-empty, not stop words, and come from the input |
| Tpb.NormalizeShape | telegram_bot/services/scrapers/tpb.py:205-211 | the normal form is lower-case tokens without stop words joined by single spaces |
| Tpb.NormalizeIdempotent | telegram_bot/services/scrapers/tpb.py:205-211 | normalising normalised text changes nothing |
| Tpb.NormalizeJoined | telegram_bot/services/scrapers/tpb.py:205-211 | tokens joined by single spaces are already normal |
| Tpb.SplitJoin | telegram_bot/services/scrapers/tpb.py:210-211 | splitting joined tokens at the spaces gives the tokens back |
| Tpb.DropNoStopWords | telegram_bot/services/scrapers/tpb.py:210 | a token list without stop words or empty tokens is kept whole |
| Tpb.SeasonTokens | telegram_bot/services/scrapers/tpb.py:252-267 | the set always holds "Sss", "Ss" and "SEASONs", and "sXe" when an episode is given |
| Tpb.SeasonTokensEpisodeForms | telegram_bot/services/scrapers/tpb.py:258-266 | the episode forms are added exactly when the episode is positive |
| Tpb.Compact | telegram_bot/services/scrapers/tpb.py:275 | only upper-case letters and digits remain |
| Tpb.NoTokensNoMatch | telegram_bot/services/scrapers/tpb.py:271-273 | an empty token set matches nothing |
| Tpb.MatchesTvCases | telegram_bot/services/scrapers/tpb.py:226-249 | a target season of 0 accepts everything; the same season with the same or no target episode, or a same-season pack, is accepted; another season is accepted only through the title tokens |
| Tpb.TrackerQuery | telegram_bot/services/scrapers/tpb.py:27-29 | a non-empty tracker list yields "&tr=…" |
| Tpb.BuildMagnet | telegram_bot/services/scrapers/tpb.py:197-202 | the link starts with "magnet:?xt=urn:btih:<hash>&dn=<quoted name>" |
| Tpb.Or | telegram_bot/services/scrapers/tpb.py:119 | Python's `x or y` on strings |
| Tpb.TargetOf | telegram_bot/services/scrapers/tpb.py:119-128 | the target takes the parsed year and season, and the episode only when there is a season |
| Tpb.UploaderOf | telegram_bot/services/scrapers/tpb.py:171 | an empty uploader becomes "Anonymous", so it is always truthy |
| Tpb.Judge | telegram_bot/services/scrapers/tpb.py:133-190 | an entry is kept only when it is acceptable (long hash, title filters, size in range, positive score, magnet link) and is kept whenever it passes all of them; a non-string uploader with uploader preferences raises |
| Tpb.Dedup | telegram_bot/services/scrapers/tpb.py:130-191 | kept hashes were not seen before and each kept pair comes from a verdict |
| Tpb.DedupUnique | telegram_bot/services/scrapers/tpb.py:130-191 | at most one result per info hash |
| Tpb.DedupComplete | telegram_bot/services/scrapers/tpb.py:130-191 | every acceptable hash is represented |
| Tpb.FirstKeepWins | telegram_bot/services/scrapers/tpb.py:130-191 | the first entry kept under a hash is the one reported |
| Tpb.CrashAborts | telegram_bot/services/scrapers/tpb.py:169-172 | an entry whose score raises aborts the whole transform |
| Tpb.Verdicts | telegram_bot/services/scrapers/tpb.py:133 | one verdict per entry, in payload order |
| Tpb.KeptAcceptable | telegram_bot/services/scrapers/tpb.py:133-191 | every kept entry is acceptable |
| Tpb.Results | telegram_bot/services/scrapers/tpb.py:177-190 | the results of the kept pairs, in order |
| Tpb.LimitValue | telegram_bot/services/scrapers/tpb.py:72-78 | a positive int is the limit; anything else except `True` gives the default 40 |
| Tpb.Rank | telegram_bot/services/scrapers/tpb.py:193-194 | the first `min(limit, len(kept))` results of the kept ones sorted by (seeders, score) descending: sorted, drawn from the kept ones, all of them when they fit |
| Tpb.RankKeepsTop | telegram_bot/services/scrapers/tpb.py:193-194 | every dropped result ranks no higher than every kept one, kept and dropped together are all the results, and results with equal keys keep their payload order |
| Tpb.TransformResults | telegram_bot/services/scrapers/tpb.py:110-194 | the transform fails exactly when judging an entry raises, and otherwise ranks the kept entries |
| Tpb.RankFromKept | telegram_bot/services/scrapers/tpb.py:193-194 | every ranked result is one of the kept entries |
| Tpb.TransformAcceptable | telegram_bot/services/scrapers/tpb.py:110-194 | exactly `min(limit, n)` acceptable results for the n kept entries, best first |
| Tpb.ScrapeTpb | telegram_bot/services/scrapers/tpb.py:38-107 | a blank query, missing preferences or a failed request gives []; otherwise the transform of the payload with "tv" chosen by the media type's prefix, bounded by the limit |
| SearchParser.NumberAt | telegram_bot/workflows/search_parser.py:7 | `(\d{1,2})\b`: one or two digits followed by a word boundary, so the number is below 100 |
| SearchParser.SxxEyyAt | telegram_bot/workflows/search_parser.py:7 | a match of `\bS(\d{1,2})E(\d{1,2})\b` carries both a season and an episode |
| SearchParser.SeasonWordAt | telegram_bot/workflows/search_parser.py:8-10 | a match of "Season N" with an optional "Episode M"/"Ep M" lies inside the text and has a two-digit season |
| SearchParser.SeasonOnlyAt | telegram_bot/workflows/search_parser.py:11 | a match of `\bS(\d{1,2})\b` carries a season and no episode |
| SearchParser.EpisodeOnlyAt | telegram_bot/workflows/search_parser.py:12 | a match of "Episode N"/"Ep. N" carries a single number |
| SearchParser.MatchAt | telegram_bot/workflows/search_parser.py:7-12 | each pattern matches only after a word boundary, inside the text, and SxxEyy alone yields a second number |
| SearchParser.Search | telegram_bot/workflows/search_parser.py:63-86 | `pattern.search`: the reported match is the leftmost one, and None means no position matches |
| SearchParser.Blot | telegram_bot/workflows/search_parser.py:51-61 | the consumed span is overwritten with spaces and every other character and the length are kept |
| SearchParser.FirstPass | telegram_bot/workflows/search_parser.py:63-74 | a leftmost SxxEyy sets season and episode; without one, "Season N [Episode M]" sets them; with neither nothing is consumed |
| SearchParser.SeasonPass | telegram_bot/workflows/search_parser.py:76-80 | the bare "SN" pattern runs only while the season is unknown and never touches the episode |
| SearchParser.EpisodePass | telegram_bot/workflows/search_parser.py:82-86 | the "Episode N" pattern runs only while the episode is unknown and never touches the season |
| SearchParser.TvHints | telegram_bot/workflows/search_parser.py:63-86 | the consumed tokens are spans inside the query and the working text keeps its length |
| SearchParser.PySlice | telegram_bot/workflows/search_parser.py:124 | Python slicing agrees with Dafny slicing on in-range bounds |
| SearchParser.ByStart | telegram_bot/workflows/search_parser.py:121 | a permutation of the spans, ordered by start |
| SearchParser.StripSpans | telegram_bot/workflows/search_parser.py:115-127 | no spans leaves the text unchanged |
| SearchParser.SkipsNested | telegram_bot/workflows/search_parser.py:122-123 | a span starting inside the previously removed one is ignored |
| SearchParser.StripFromChain | telegram_bot/workflows/search_parser.py:119-127 | for spans in order the loop removes exactly the covered characters and keeps the rest in order |
| SearchParser.StripSpansRemovesCovered | telegram_bot/workflows/search_parser.py:115-127 | when the sorted spans do not overlap, `_strip_spans` equals the reference "keep every character no span covers" |
| SearchParser.SanitizeChars | telegram_bot/workflows/search_parser.py:104 | every character outside `[\w\s-]` becomes a space, position by position |
| SearchParser.SanitizeTitle | telegram_bot/workflows/search_parser.py:104-105 | the title holds only word characters, hyphens and single spaces, with no leading or trailing space, underscore, dot or hyphen |
| SearchParser.TitleSource | telegram_bot/workflows/search_parser.py:95-103 | with no tokens the title comes from the cleaned text; otherwise the text before the first token, else after the last, else the cleaned text |
| SearchParser.YearOf | telegram_bot/workflows/search_parser.py:88-91 | the leftmost 19xx/20xx year at word boundaries, and None when there is none |
| SearchParser.ParseSearchQuery | telegram_bot/workflows/search_parser.py:34-112 | a blank query gives an empty title and no hints; the title is clean; season and episode have at most two digits; a year is reported exactly when the query holds one, as four digits |
| SearchParser.HintsBelow100 | telegram_bot/workflows/search_parser.py:7-12 | every season and episode the passes extract is below 100 |
| SearchParser.SxxEyyWins | telegram_bot/workflows/search_parser.py:63-67 | the leftmost SxxEyy token decides both season and episode, whatever else the query holds |
| SearchParser.SeasonWordNext | telegram_bot/workflows/search_parser.py:68-74 | without an SxxEyy token, "Season N" sets the season and its "Episode M" the episode |
| SearchParser.SeasonOnlyFallback | telegram_bot/workflows/search_parser.py:76-80 | with neither of the first two patterns, the season is the leftmost bare "SN", or None |
| SearchParser.EpisodeQueryRoundTrip | telegram_bot/workflows/search_parser.py:34-112 | "<title> SnnEmm" for a plain title parses back to exactly that title, season and episode, with no year |
| SearchParser.SanitizePlain | telegram_bot/workflows/search_parser.py:104-105 | a title of letters and single spaces survives the clean-up unchanged |
| SearchSession.Or | telegram_bot/workflows/search_session.py:112 | Python's `a or b`: the first operand when truthy, else the second |
| SearchSession.GetOr | telegram_bot/workflows/search_session.py:70 | `dict.get` with a default |
| SearchSession.Trunc | telegram_bot/workflows/search_session.py:97 | `int()` of a float truncates toward zero on both signs |
| SearchSession.IntOf | telegram_bot/workflows/search_session.py:97 | `int()` keeps integers and raises TypeError on None, lists and dicts |
| SearchSession.ListOf | telegram_bot/workflows/search_session.py:93-95 | `list()` keeps a list, splits a string into characters, takes a dict's keys, and raises TypeError on scalars |
| SearchSession.StepOf | telegram_bot/workflows/search_session.py:70-74 | a stored step value names its step, and anything else falls back to TITLE |
| SearchSession.StepRoundTrip | telegram_bot/workflows/search_session.py:10-20 | every step's stored value reads back as that step |
| SearchSession.UnknownStepIsTitle | telegram_bot/workflows/search_session.py:73-74 | a value naming no step reads as TITLE |
| SearchSession.FieldNameRoundTrip | telegram_bot/workflows/search_session.py:161-187 | the 21 stored keys are distinct and each names its field |
| SearchSession.Load | telegram_bot/workflows/search_session.py:76-104 | the loaded session always has a truthy resolution filter and sort, copies the plain fields, sets `allow_detail_change` to the truthiness of the stored value, and keeps missing episodes only when they are a list |
| SearchSession.FromUserData | telegram_bot/workflows/search_session.py:59-104 | no user data, or no dictionary under "search_session", gives the default session; otherwise the payload is loaded |
| SearchSession.ToDict | telegram_bot/workflows/search_session.py:160-187 | one key per field, in declaration order, each holding that field's stored value |
| SearchSession.Save | telegram_bot/workflows/search_session.py:189-190 | the session is stored under "search_session" and every other key of the user data is kept |
| SearchSession.Normalized | telegram_bot/workflows/search_session.py:98-99 | empty filter and sort fall back to "all" and "score"; a session already holding truthy ones is unchanged |
| SearchSession.SaveLoadRoundTrip | telegram_bot/workflows/search_session.py:59-190 | loading a saved session gives the session back, up to the filter and sort defaults |
| SearchSession.LoadToDict | telegram_bot/workflows/search_session.py:76-187 | loading `to_dict`'s output gives the normalised session |
| SearchSession.LoadStored | telegram_bot/workflows/search_session.py:76-104 | any payload holding what `to_dict` stores for a session loads as that session |
| SearchSession.LoadSaveLoad | telegram_bot/workflows/search_session.py:59-190 | saving a loaded session and loading it again changes nothing |
| SearchSession.NonListEpisodesRaise | telegram_bot/workflows/search_session.py:93 | a non-zero integer stored as `existing_episodes` makes loading raise TypeError |
| SearchSession.ActiveAfterLoad | telegram_bot/workflows/search_session.py:106-108 | the default session is inactive, and a loaded one is active exactly when the payload has a non-None media type |
| SearchSession.EffectiveTitle | telegram_bot/workflows/search_session.py:110-112 | the resolved title when truthy, else the title |
| SearchSession.SetTitle | telegram_bot/workflows/search_session.py:117-120 | the title is replaced, the resolved title only by a truthy one, and nothing else changes |
| SearchSession.SetTitleKeepsResolved | telegram_bot/workflows/search_session.py:117-120 | a falsy resolved title never erases the known one, which stays the effective title |
| SearchSession.Require | telegram_bot/workflows/search_session.py:23-28 | a falsy value raises the context-lost error, a truthy one is returned |
| SearchSession.RequireTitle | telegram_bot/workflows/search_session.py:125-128 | raises exactly when neither title is truthy, and otherwise returns the effective title |
| SearchSession.RequireTitleAfterSet | telegram_bot/workflows/search_session.py:117-128 | after setting a non-empty title, requiring a title succeeds |
| SearchSession.RequireFinalTitle | telegram_bot/workflows/search_session.py:130-133 | raises exactly when the final title is falsy |
| SearchSession.RequireMediaType | telegram_bot/workflows/search_session.py:135-138 | raises exactly when the media type is falsy |
| SearchSession.RequireTvScope | telegram_bot/workflows/search_session.py:145-148 | raises exactly when the scope is falsy |
| SearchSession.RequireResolution | telegram_bot/workflows/search_session.py:150-153 | raises exactly when the resolution is falsy |
| SearchSession.RequireSeason | telegram_bot/workflows/search_session.py:140-143 | raises exactly when the season is None; season 0 is accepted |
| SearchSession.ConsumePromptMessageId | telegram_bot/workflows/search_session.py:155-158 | returns the stored id and clears it, leaving every other field alone |
| SearchSession.ConsumeOnce | telegram_bot/workflows/search_session.py:155-158 | a second consume returns None |
| SearchSession.ClearSearchSession | telegram_bot/workflows/search_session.py:193-195 | removes "search_session" and keeps every other key; no user data stays none |
| SearchSession.ClearThenLoad | telegram_bot/workflows/search_session.py:59-195 | after clearing, loading gives the default session |
| Franchise.SanitizeFilename | telegram_bot/workflows/franchise_workflow.py:19-20 | the name loses every `<>:"/\|?*` and its outer whitespace, and grows no longer |
| Franchise.SanitizeFilenameNoop | telegram_bot/workflows/franchise_workflow.py:19-20 | a name without forbidden characters or outer whitespace is left as it is |
| Franchise.SanitizeFilenameIdempotent | telegram_bot/workflows/franchise_workflow.py:19-20 | sanitising twice gives the same name as once |
| Franchise.SanitizeFilenameKeeps | telegram_bot/workflows/franchise_workflow.py:19-20 | every allowed non-space character keeps all its occurrences |
| Franchise.KeepTitleChars | telegram_bot/workflows/franchise_workflow.py:223 | the kept characters are all in `[a-z0-9]` and each such character keeps its count |
| Franchise.NormalizeTitle | telegram_bot/workflows/franchise_workflow.py:222-223 | the normal form holds exactly the `[a-z0-9]` characters of the lower-cased title |
| Franchise.NormalizeTitleIgnoresCase | telegram_bot/workflows/franchise_workflow.py:222-223 | lower- or upper-casing the title first gives the same normal form |
| Franchise.NormalizeTitleIdempotent | telegram_bot/workflows/franchise_workflow.py:222-223 | normalising is idempotent and distributes over concatenation |
| Franchise.IsSameMovie | telegram_bot/workflows/franchise_workflow.py:245-250 | false when a title is empty; true exactly when the normal forms agree and the years agree whenever both are truthy; raises when both years are truthy and one is not an integer |
| Franchise.IsSameMovieSymmetric | telegram_bot/workflows/franchise_workflow.py:245-250 | the comparison does not depend on argument order |
| Franchise.IsSameMovieReflexive | telegram_bot/workflows/franchise_workflow.py:245-250 | a non-empty title with a missing or readable year matches itself |
| Franchise.TitleOf | telegram_bot/workflows/franchise_workflow.py:257 | `r.get("title", "")`: missing gives "", a string gives itself |
| Franchise.FirstWithResolution | telegram_bot/workflows/franchise_workflow.py:257-259 | the first result whose lower-cased title holds the lower-cased resolution |
| Franchise.SelectBestCandidate | telegram_bot/workflows/franchise_workflow.py:253-260 | no results gives None; a non-string title raises; otherwise one of the results |
| Franchise.SelectBestCandidateChoice | telegram_bot/workflows/franchise_workflow.py:253-260 | the choice is the first result mentioning the resolution, or the top result when none does |
| Franchise.Retarget | telegram_bot/workflows/franchise_workflow.py:157-159 | the record's parsed info gains the destination folder and nothing else changes |
| Franchise.FirstTarget | telegram_bot/workflows/franchise_workflow.py:155-161 | the first record whose message id equals the seed's (Python `==`) and that has parsed info |
| Franchise.UpdateListFirst | telegram_bot/workflows/franchise_workflow.py:154-161 | the loop reports success exactly when a record is targeted, and changes exactly the first such record |
| Franchise.UpdateQueuesFirst | telegram_bot/workflows/franchise_workflow.py:168-170 | only the first queue holding a targeted record changes |
| Franchise.UpdateQueuesNone | telegram_bot/workflows/franchise_workflow.py:168-170 | with no targeted record the queues are unchanged |
| Franchise.UpdateSeedDestinationOnce | telegram_bot/workflows/franchise_workflow.py:151-171 | at most one record changes: the first targeted active download, or else the first targeted record of the first queue holding one |
| SearchWorkflow.TitleText | telegram_bot/workflows/search_workflow.py:771 | `r.get("title", "")` is readable exactly for a dictionary whose title is missing or a string; missing gives "" |
| SearchWorkflow.Patterns | telegram_bot/workflows/search_workflow.py:761-769 | 2160p accepts "2160p" or "4k"; any other resolution accepts only itself |
| SearchWorkflow.FilterByResolution | telegram_bot/workflows/search_workflow.py:759-772 | the kept results are exactly those whose lower-cased title holds one of the patterns, in original order with their multiplicities; an unreadable title raises |
| SearchWorkflow.FilterByResolutionAppend | telegram_bot/workflows/search_workflow.py:770-772 | filtering distributes over concatenation, so order is kept |
| SearchWorkflow.UpperFourKKept | telegram_bot/workflows/search_workflow.py:770-772 | a title spelling "4K" in capitals is kept for 2160p |
| SearchWorkflow.ResolutionOf | telegram_bot/workflows/search_workflow.py:313-319 | "2160p" or "4k" in the data selects 2160p; otherwise "720p" selects 720p; otherwise 1080p |
| SearchWorkflow.FourKButtonSelects2160 | telegram_bot/workflows/search_workflow.py:645-647 | the "4K (2160p)" button selects 2160p |
| SearchWorkflow.Button720Selects720 | telegram_bot/workflows/search_workflow.py:637 | the 720p button selects 720p |
| SearchWorkflow.Button1080Selects1080 | telegram_bot/workflows/search_workflow.py:636 | the 1080p button selects 1080p |
| SearchWorkflow.ResolutionOfIdempotent | telegram_bot/workflows/search_workflow.py:313-319 | a selected resolution read back as data selects itself |
| SearchWorkflow.SelectorAgreesWithFilter | telegram_bot/workflows/search_workflow.py:313-319 | a title the selector maps to 2160p is exactly one the 2160p filter keeps |
| SearchWorkflow.SeasonToken | telegram_bot/workflows/search_workflow.py:697 | `f"s{season:02d} "` starts with "s", ends with a space and has at least two digits |
| SearchWorkflow.BestIndex | telegram_bot/workflows/search_workflow.py:707-711 | `max` by score returns the first result with the highest score |
| SearchWorkflow.BestIndexUnique | telegram_bot/workflows/search_workflow.py:707-711 | the first maximal index is the only one meeting that description |
| SearchWorkflow.SeasonPack | telegram_bot/workflows/search_workflow.py:696-711 | None exactly when no result is a pack candidate (complete, collection, season pack or "sNN ", and no sXeY); otherwise a candidate with the highest score; an unreadable title raises |
| SearchWorkflow.EpisodeTitleIsNoPack | telegram_bot/workflows/search_workflow.py:701-704 | a title with an SnnEmm tag is never a pack candidate |
| SearchWorkflow.YearReply | telegram_bot/workflows/search_workflow.py:125-145 | a lost title reports lost context; a four-digit reply completes the title as "title (year)"; anything else asks again |
| SearchWorkflow.SeasonReply | telegram_bot/workflows/search_workflow.py:160-172 | accepted exactly when the title is known and the reply is all digits, giving its value |
| SearchWorkflow.SeasonReplyRoundTrip | telegram_bot/workflows/search_workflow.py:166-172 | a season typed as its decimal number reads back as that number |
| SearchWorkflow.EpisodeReply | telegram_bot/workflows/search_workflow.py:198-212 | accepted exactly when title and season are known and the reply is all digits, giving "title SnnEmm" |
| SearchWorkflow.EpisodeTermParsesBack | telegram_bot/workflows/search_workflow.py:211-212 | the search term built from an episode reply parses back into the title, season and episode |
| SearchWorkflow.EpisodeReplyIsQuery | telegram_bot/workflows/search_workflow.py:211-212 | the term is the query form the search parser reads |
| SearchWorkflow.CleanTitle | telegram_bot/workflows/search_workflow.py:107 | the cleaned text holds only word characters and whitespace, with no outer whitespace |
| SearchWorkflow.MovieTitleReply | telegram_bot/workflows/search_workflow.py:99-122 | with no year the cleaned reply goes to the year search; with one, the cleaned text before the leftmost year and that year make the full title |
| SearchWorkflow.InlineYearAgreesWithYearReply | telegram_bot/workflows/search_workflow.py:99-145 | typing "title year" at once gives the same full title as typing the title and then the year |
| SearchWorkflow.CleanPlainTitle | telegram_bot/workflows/search_workflow.py:107 | cleaning a plain title followed by a space gives the title |
| SearchWorkflow.FindParenYear | telegram_bot/workflows/search_workflow.py:340 | the leftmost `\((\d{4})\)` at or after the start |
| SearchWorkflow.MovieSearchArgs | telegram_bot/workflows/search_workflow.py:340-342 | the search title is the text before the first "(", stripped; a year is found exactly when some "(dddd)" occurs, as four digits |
| SearchWorkflow.MovieSearchRecoversTitleAndYear | telegram_bot/workflows/search_workflow.py:340-342 | "title (yyyy)" splits back into the title and the year |
| SearchWorkflow.Route | telegram_bot/workflows/search_workflow.py:80-93 | buttons are routed by prefix, in order, so "search_select_year_" is matched before "search_select_" |
| SearchWorkflow.ButtonsRouted | telegram_bot/workflows/search_workflow.py:80-93 | the year, result and resolution buttons each reach their own handler |
| SearchWorkflow.YearSelection | telegram_bot/workflows/search_workflow.py:477-505 | a lost title reports lost context; data with fewer than four "_"-fields asks again; otherwise the fourth field completes the title |
| SearchWorkflow.YearButtonRoundTrip | telegram_bot/workflows/search_workflow.py:488-489 | pressing the button offered for a year completes the title with that year |
| SearchWorkflow.Insert | telegram_bot/workflows/search_workflow.py:877-879 | inserting into an ascending list of distinct strings keeps it ascending and adds just the element |
| SearchWorkflow.AscendingUnique | telegram_bot/workflows/search_workflow.py:877-879 | two strictly ascending lists with the same elements are equal, so `sorted(set)` is determined |
| SearchWorkflow.SortedYears | telegram_bot/workflows/search_workflow.py:877-879 | the strictly ascending list of exactly the truthy years of the results |
| SearchWorkflow.ProcessPreliminaryResults | telegram_bot/workflows/search_workflow.py:849-907 | no results reports nothing found; more than one distinct year prompts for a year; exactly one completes the title; none reports that no year is known |
| SearchWorkflow.OneYearCompletesTitle | telegram_bot/workflows/search_workflow.py:887-895 | when every result carrying a year carries the same one, the title is completed with it |
| SearchWorkflow.OfferedYearsComplete | telegram_bot/workflows/search_workflow.py:524-545 | every offered year button, when pressed, completes the title with that year |
| SearchWorkflow.ClearSearchContext | telegram_bot/workflows/search_workflow.py:832-846 | exactly the nine search keys are removed and every other key is kept with its value |
| SearchWorkflow.ClearSearchContextIdempotent | telegram_bot/workflows/search_workflow.py:832-846 | clearing twice is clearing once, and the stored results survive |
| SearchWorkflow.SizeFits | telegram_bot/workflows/search_workflow.py:792 | a missing size never fits; a number fits when at most the configured limit |
| SearchWorkflow.PresentSearchResults | telegram_bot/workflows/search_workflow.py:775-829 | the context is cleared first; no results or none fitting is reported; otherwise the fitting results are stored and at most five numbered buttons are offered |
| SearchWorkflow.PyIndex | telegram_bot/workflows/search_workflow.py:413 | Python indexing, with negative indices from the end and IndexError outside |
| SearchWorkflow.SelectResult | telegram_bot/workflows/search_workflow.py:400-440 | the stored results are popped; an empty list reports an expired selection; a bad index reports an error |
| SearchWorkflow.ResultButtonIndex | telegram_bot/workflows/search_workflow.py:818 | the third "_"-field of the i-th button is i |
| SearchWorkflow.PresentThenSelect | telegram_bot/workflows/search_workflow.py:400-829 | pressing an offered button selects the result shown at that position |
| SearchWorkflow.SelectStoredItem | telegram_bot/workflows/search_workflow.py:400-414 | the i-th result button picks the i-th stored result's page URL |
| Wikipedia.NormalizeForComparison | telegram_bot/services/scrapers/wikipedia.py:20-22 | the comparison key holds only lower-case letters and digits and is no longer than the title |
| Wikipedia.NormalizeForComparisonIsTitleNormalForm | telegram_bot/services/scrapers/wikipedia.py:20-22 | the key equals the franchise title normal form, ignores case, is idempotent and distributes over concatenation |
| Wikipedia.NormalizeSkipsPunctuation | telegram_bot/services/scrapers/wikipedia.py:20-22 | inserting a character that is neither letter nor digit leaves the key unchanged |
| Wikipedia.ClosingParen | telegram_bot/services/scrapers/wikipedia.py:254 | the final `)` before trailing whitespace, if the text ends so |
| Wikipedia.FirstOpen | telegram_bot/services/scrapers/wikipedia.py:254 | the first `(` in a range, or None when there is none |
| Wikipedia.TrailingGroup | telegram_bot/services/scrapers/wikipedia.py:254 | `\s*\([^)]*\)\s*$`: the reported group is a trailing parenthesised group, and it starts no later than any other |
| Wikipedia.CutAt | telegram_bot/services/scrapers/wikipedia.py:254 | the text before the group with its trailing whitespace removed is a prefix of the title |
| Wikipedia.FilmQualifierStripsBack | telegram_bot/services/scrapers/wikipedia.py:252-255 | "Title (film)" normalises back to the title |
| Wikipedia.FilmGroup | telegram_bot/services/scrapers/wikipedia.py:254 | in "Title (film)" the trailing group is exactly the suffix |
| Wikipedia.StripQualifierOnce | telegram_bot/services/scrapers/wikipedia.py:37 | one pass never lengthens the title, and leaves it unchanged when it keeps the length |
| Wikipedia.QualifierIsTrailingGroup | telegram_bot/services/scrapers/wikipedia.py:25-37 | a pass that changes more than whitespace removed a trailing group naming a miniseries or TV/television series |
| Wikipedia.SanitizeLoop | telegram_bot/services/scrapers/wikipedia.py:36-40 | the loop ends at a title one more pass leaves unchanged |
| Wikipedia.SanitizeWikipediaTitle | telegram_bot/services/scrapers/wikipedia.py:31-41 | the result is empty exactly for an empty title, and is either the title itself or a fixed point of the qualifier pass |
| Wikipedia.SanitizeIdempotent | telegram_bot/services/scrapers/wikipedia.py:31-41 | sanitising twice is sanitising once |
| Wikipedia.SanitizeDropsTvSeries | telegram_bot/services/scrapers/wikipedia.py:31-41 | "Name (TV series)" sanitises to "Name" |
| Wikipedia.StripTvSeriesOnce | telegram_bot/services/scrapers/wikipedia.py:37 | one pass removes the " (TV series)" suffix |
| Wikipedia.BareTitleStays | telegram_bot/services/scrapers/wikipedia.py:36-40 | a title of words with no parentheses is left as it is |
| Wikipedia.YearValue | telegram_bot/services/scrapers/wikipedia.py:241-243 | a year match reads as a value from 1900 to 2099 |
| Wikipedia.ExtractYears | telegram_bot/services/scrapers/wikipedia.py:239-246 | every extracted year lies in 1900-2099 |
| Wikipedia.ExtractYearsFindsAll | telegram_bot/services/scrapers/wikipedia.py:239-246 | the extracted years are exactly the values at the non-overlapping year matches, left to right |
| Wikipedia.YearsDoNotOverlap | telegram_bot/services/scrapers/wikipedia.py:241 | no year match starts inside another |
| Wikipedia.FindYearFilm | telegram_bot/services/scrapers/wikipedia.py:235 | the leftmost "(YYYY film)" match, and None exactly when there is none |
| Wikipedia.YearFromTitle | telegram_bot/services/scrapers/wikipedia.py:248-250 | a year exactly when the title holds a "(YYYY film)" qualifier, in 1900-2099 |
| Wikipedia.Classify | telegram_bot/services/scrapers/wikipedia.py:257-282 | a candidate's tests: a film qualifier of either kind implies it mentions "film" |
| Wikipedia.FilmMatchesMentionFilm | telegram_bot/services/scrapers/wikipedia.py:277-282 | both film qualifiers imply the lower-cased title contains "film" |
| Wikipedia.Classified | telegram_bot/services/scrapers/wikipedia.py:261-284 | one classified candidate per search result, in order |
| Wikipedia.PickFilmCandidateSpec | telegram_bot/services/scrapers/wikipedia.py:261-284 | the first matching "(YYYY film)" result is returned at once with the first disambiguation seen up to it; otherwise the first matching result mentioning film, and the first disambiguation page |
| Wikipedia.PickFromSpec | telegram_bot/services/scrapers/wikipedia.py:268-284 | the loop from any intermediate state ends as the specification above says |
| Wikipedia.InsertYear | telegram_bot/services/scrapers/wikipedia.py:472 | inserting into a strictly ascending list keeps it so and adds just the year |
| Wikipedia.SortedYearSet | telegram_bot/services/scrapers/wikipedia.py:472 | `sorted(set)`: strictly ascending with exactly the given years |
| Wikipedia.FirstOccurrences | telegram_bot/services/scrapers/wikipedia.py:475-480 | no repeats and exactly the given years |
| Wikipedia.DedupYears | telegram_bot/services/scrapers/wikipedia.py:475-480 | the loop with a `seen` set keeps the first occurrence of each year, in order |
| Wikipedia.MovieYears | telegram_bot/services/scrapers/wikipedia.py:225-227 | a blank title gives no years; otherwise the ascending "(YYYY film)" years when any were found, else the heuristic years without repeats in first-seen order |
| Wikipedia.CountFromTitles | telegram_bot/services/scrapers/wikipedia.py:1144-1148 | the highest episode number the episode list names, and None when it names none |
| Wikipedia.LowerHeaders | telegram_bot/services/scrapers/wikipedia.py:1200 | the lower-cased header texts, one per header |
| Wikipedia.FindSeasonRow | telegram_bot/services/scrapers/wikipedia.py:1227-1238 | the first row that has the episodes cell and whose first number is the season |
| Wikipedia.SeasonRowCount | telegram_bot/services/scrapers/wikipedia.py:1239-1279 | an ongoing season ("present", "tba", "ongoing") trusts only a usable episode-list count; otherwise the overview number, raised to the episode-list count when both are positive |
| Wikipedia.EpisodeCount | telegram_bot/services/scrapers/wikipedia.py:1157-1287 | the lookup retries with " (TV series)" exactly when there is no overview table, no usable episode-list count and this is not already the retry |
| Wikipedia.EpisodeCountSources | telegram_bot/services/scrapers/wikipedia.py:1157-1287 | a reported count is never invented: it is the episode list's count or the number the overview row gives for the season |
| Wikipedia.EpisodeCountFallback | telegram_bot/services/scrapers/wikipedia.py:1281-1286 | without an overview row for the season, a usable episode-list count is the answer |
| Wikipedia.OverviewHasEpisodesColumn | telegram_bot/services/scrapers/wikipedia.py:1170-1206 | a table chosen as the overview always has an episodes column |
| Wikipedia.CachedEpisodeTitle | telegram_bot/services/scrapers/wikipedia.py:64-72 | a hit exactly when the stripped, lower-cased title and the season are cached |
| Wikipedia.StoreSeasonTitles | telegram_bot/services/scrapers/wikipedia.py:181-183 | only a non-empty title map is stored, under one new key |
| Wikipedia.CacheFastPath | telegram_bot/services/scrapers/wikipedia.py:64-183 | after a season is stored, later requests spelt with any case or padding are answered from the cache with the stored title and correction |
| Yts.TokenRuns | telegram_bot/services/scrapers/yts.py:51 | `re.findall(r"[a-z0-9]+")`: non-empty runs of token characters |
| Yts.Tokens | telegram_bot/services/scrapers/yts.py:50-51 | the token set of the lower-cased text holds no upper-case letter |
| Yts.BaseTokens | telegram_bot/services/scrapers/yts.py:47-53 | the query's tokens minus the stop words "the", "a", "an", "of", "and" |
| Yts.GatePassesOwnQuery | telegram_bot/services/scrapers/yts.py:55-60 | a query always passes its own gate |
| Yts.GateIgnoresCase | telegram_bot/services/scrapers/yts.py:55-60 | upper-casing the query or the candidate does not change the gate |
| Yts.StopWordQueriesPassEverything | telegram_bot/services/scrapers/yts.py:59 | a query of stop words only lets every candidate through |
| Yts.TokenRunsSplit | telegram_bot/services/scrapers/yts.py:51 | a separator character splits the token runs exactly |
| Yts.TokensOfSpacedJoin | telegram_bot/services/scrapers/yts.py:50-51 | the tokens of "a b" are those of a and of b together |
| Yts.GateSurvivesExtraWords | telegram_bot/services/scrapers/yts.py:55-60 | a passing candidate keeps passing with extra words on either side |
| Yts.FirstFourDigits | telegram_bot/services/scrapers/yts.py:48 | the leftmost `\d{4}`, and None when there is none |
| Yts.StrippedText | telegram_bot/services/scrapers/yts.py:68-69 | `value.strip() or None`: None exactly for blank text |
| Yts.NormalizeYearText | telegram_bot/services/scrapers/yts.py:62-69 | no value or "" gives None; the first four digits when there are any; otherwise the stripped text or None |
| Yts.FourDigitsNormalizeToThemselves | telegram_bot/services/scrapers/yts.py:62-69 | a four-digit year normalises to itself |
| Yts.NormalizeYearTextIdempotent | telegram_bot/services/scrapers/yts.py:62-69 | normalising a normalised year changes nothing |
| Yts.YearString | telegram_bot/services/scrapers/yts.py:24-28 | a missing year or one whose text is blank is none; otherwise the stripped text |
| Yts.QualitySlug | telegram_bot/services/scrapers/yts.py:73-77 | a non-blank string resolution gives its stripped lower-case form, anything else "all" |
| Yts.YearSlug | telegram_bot/services/scrapers/yts.py:78 | the year string or "all" |
| Yts.Replacements | telegram_bot/services/scrapers/yts.py:81-92 | the ten placeholders, each starting with "{" |
| Yts.SubstituteWithoutBraces | telegram_bot/services/scrapers/yts.py:93-95 | a template without "{" survives the replacements unchanged |
| Yts.SearchUrlWithoutPlaceholders | telegram_bot/services/scrapers/yts.py:80-97 | a template without placeholders is the search URL itself |
| Yts.AddPageParam | telegram_bot/services/scrapers/yts.py:110-114 | page 1 or less leaves the URL alone; later pages extend it |
| Yts.AddPageParamOneQuery | telegram_bot/services/scrapers/yts.py:113-114 | "&" is used when the URL already has "?", so the result has at most as many "?" as needed |
| Yts.Choice | telegram_bot/services/scrapers/yts.py:118-137 | a wrapper contributes its href and title exactly when its year agrees, it has a string href and a title, and it passes the gate when a year is asked |
| Yts.DictFrom | telegram_bot/services/scrapers/yts.py:137 | the keys are the contributed hrefs and each value comes from a contribution with that href |
| Yts.DictFromLastWins | telegram_bot/services/scrapers/yts.py:137 | each href holds the title of its last contribution |
| Yts.CollectChoices | telegram_bot/services/scrapers/yts.py:116-138 | the choices are exactly the kept wrappers' hrefs, and with a year every title passes the gate |
| Yts.CollectChoicesLastWins | telegram_bot/services/scrapers/yts.py:116-138 | each href maps to the title of the last kept wrapper with it |
| Yts.PageChoices | telegram_bot/services/scrapers/yts.py:102-108 | a failed fetch contributes nothing |
| Yts.FirstFilledPage | telegram_bot/services/scrapers/yts.py:149-156 | the first of pages 2 to 5 with choices, every earlier one having none |
| Yts.BrowseChoices | telegram_bot/services/scrapers/yts.py:142-156 | without a year only the first page is read; with one, later pages are read only while nothing was found, stopping at the first with choices |
| Yts.StageOneDecision | telegram_bot/services/scrapers/yts.py:319-351 | no choices and no year gives no results; a page is opened exactly when there are choices, the best score reaches 80 with a year (86 without) and with a year the chosen title passes the gate; otherwise the API fallback |
| Yts.YearLowersThreshold | telegram_bot/services/scrapers/yts.py:336 | a score from 80 to 85 opens a gated page with a year and falls back without one |
| Yts.Leechers | telegram_bot/services/scrapers/yts.py:199-200 | `max(peers - seeders, 0)` with missing peers read as 0 |
| Yts.ResolutionChecksAgree | telegram_bot/services/scrapers/yts.py:174-181 | the two result builders agree on the resolution filter, except for a truthy non-string resolution, which stage 4 reads as matching nothing |
| Yts.Magnet | telegram_bot/services/scrapers/yts.py:195 | the link starts with "magnet:?xt=urn:btih:" and the hash |
| Yts.HitCodec | telegram_bot/services/scrapers/yts.py:207 | the parsed codec, defaulting to x264 |
| Yts.MakeHit | telegram_bot/services/scrapers/yts.py:188-229 | the result carries the torrent's seeders, size and leechers and scores its title with uploader "YTS" |
| Yts.MadeHitAdmissible | telegram_bot/services/scrapers/yts.py:174-229 | a torrent that passes the filters yields an admissible result: within the size limit, at least 20 seeders, a magnet link |
| Yts.TorrentHits | telegram_bot/services/scrapers/yts.py:469-530 | one result per admitted torrent, in order, each admissible |
| Yts.ApiHits | telegram_bot/services/scrapers/yts.py:161-232 | the results come exactly from the admitted movies' admitted torrents |
| Yts.ListHits | telegram_bot/services/scrapers/yts.py:234-269 | a failed request or a reply without a movie list gives nothing |
| Yts.BaseParams | telegram_bot/services/scrapers/yts.py:273-281 | query and limit 50 always; quality only for 720p/1080p/2160p; year only when it is all digits |
| Yts.FallbackAttempts | telegram_bot/services/scrapers/yts.py:271-314 | the base request first, then without quality and without year, each only when it differs |
| Yts.FirstNonEmpty | telegram_bot/services/scrapers/yts.py:282-317 | the first attempt with results wins, and none means every attempt came back empty |
| Yts.ApiFallback | telegram_bot/services/scrapers/yts.py:158-317 | every fallback result is admissible |
| Yts.FirstValidDetails | telegram_bot/services/scrapers/yts.py:385-459 | the movie of a valid reply among the remaining attempts, and none only when no remaining attempt is valid |
| Yts.FetchMovieDetails | telegram_bot/services/scrapers/yts.py:385-459 | details are returned exactly when one of three attempts is valid, and they are those of the first valid one; each failure before it sleeps 2^(k-1) seconds |
| Yts.ScrapeYts | telegram_bot/services/scrapers/yts.py:16-539 | no preferences gives []; every result is admissible; stage 1 gives no results or the API fallback as it decides; a failed movie page gives []; a page without a movie id, or details that never validate, give the API fallback; otherwise the hits of the details' torrents at stage 4 |
| TorrentService.RouteOf | telegram_bot/services/torrent_service.py:43-60 | a magnet prefix fetches metadata; an http(s) URL ending in ".torrent" is downloaded; any other http(s) URL is scraped; anything else is rejected |
| TorrentService.RoutesOfLinks | telegram_bot/services/torrent_service.py:43-48 | a URL with ".torrent" appended goes to the download, a magnet link to the fetch |
| TorrentService.ClockAdvances | telegram_bot/services/torrent_service.py:301-305 | after k polls with half-second sleeps the clock has moved at least k × 500 ms |
| TorrentService.Arrival | telegram_bot/services/torrent_service.py:301-305 | the first poll that sees metadata before 30 seconds have passed, with no earlier poll seeing it |
| TorrentService.FetchResult | telegram_bot/services/torrent_service.py:288-314 | the worker returns metadata only when the link was added and the metadata arrived in time |
| TorrentService.PollForMetadata | telegram_bot/services/torrent_service.py:299-305 | the loop finds the metadata exactly when it arrives within 30 seconds, on that poll, and polls a bounded number of times |
| TorrentService.PollStep | telegram_bot/services/torrent_service.py:301-304 | a poll before the deadline that sees metadata returns at once |
| TorrentService.PollTimedOut | telegram_bot/services/torrent_service.py:301 | once 30 seconds have passed no later poll is made |
| TorrentService.BlockingFetchMetadata | telegram_bot/services/torrent_service.py:288-314 | the session ends with the same handles it started with, on every way out, and the result is the metadata that arrived in time |
| TorrentService.ParseChoices | telegram_bot/services/torrent_service.py:220-244 | the choices are exactly the fetched links within the size limit, ordered by link index |
| TorrentService.FetchMetadataFromMagnet | telegram_bot/services/torrent_service.py:247-285 | without bot data nothing is fetched; otherwise the metadata, or a timeout failure |
| TorrentService.HandleTorrentUrl | telegram_bot/services/torrent_service.py:63-105 | a downloaded valid torrent is returned and its file path stored; a request error or a non-torrent body stores nothing; an HTTP status error propagates |
| TorrentService.FetchAll | telegram_bot/services/torrent_service.py:217-218 | one fetch result per link, in link order |
| TorrentService.HandleWebpageUrl | telegram_bot/services/torrent_service.py:108-186 | no links fails; one link becomes the pending magnet; several links offer the non-empty list of fitting choices in link order and store it |
| TorrentService.ProcessUserInput | telegram_bot/services/torrent_service.py:29-60 | no user data does nothing; a non-link is rejected with the data unchanged; a magnet link is stored as pending and fetched; a .torrent URL is downloaded |
| Config.HeaderAtOrAbove | telegram_bot/config.py:87-91 | the backward scan finds the nearest header line at or above the position, with no header between it and the line, and finds none exactly when no line up to there is a header |
| Config.SectionAt | telegram_bot/config.py:87-91 | a line has a section exactly when some header stands at or above it, and that section is a stripped header line |
| Config.IsInSection | telegram_bot/config.py:81-93 | a line judged to be in a section is one of the file's lines |
| Config.FirstCopyFollowsPosition | telegram_bot/config.py:85-90 | for the first copy of a line, membership agrees with the header that stands above that position |
| Config.CopiesShareSection | telegram_bot/config.py:86 | `list.index` makes every later copy of a line judged by the section of its first copy |
| Config.BeforeHeadersInNoSection | telegram_bot/config.py:87-91 | a line above every header belongs to no section |
| Config.RepeatedLineJudgedByFirstCopy | telegram_bot/config.py:51-53 | a line repeated under `[search]` whose first copy sits in another section stays in the text given to configparser |
| Config.CleanLines | telegram_bot/config.py:51-53 | a line reaches configparser exactly when it is one of the file's lines and is not judged to be in `[search]` |
| Config.FirstEquals | telegram_bot/config.py:112 | `split("=", 1)` cuts at an `=` with no `=` before it |
| Config.KindOfAgrees | telegram_bot/config.py:104-116 | each line's kind agrees with the tests the loop applies: `[search]`, a websites or preferences key line, or a continuation line |
| Config.Step | telegram_bot/config.py:108-116 | one body line keeps the current key among the collected keys and never drops a key |
| Config.Run | telegram_bot/config.py:103-116 | reading lines keeps the scan state consistent and never drops a collected key |
| Config.RunAppend | telegram_bot/config.py:103-116 | reading two stretches of lines equals reading the first and then the second |
| Config.SectionBody | telegram_bot/config.py:105-110 | the collected body never holds a header line |
| Config.ScanSection | telegram_bot/config.py:103-116 | the loop with its `continue` and `break` computes the state obtained from the lines between the opening line and the next header |
| Config.ParseSearchSection | telegram_bot/config.py:96-116 | the search section content the method collects equals the declarative definition |
| Config.PrefixIgnored | telegram_bot/config.py:103-108 | lines before the first `[search]` line change nothing |
| Config.StopsAtNextHeader | telegram_bot/config.py:109-110 | collection stops at the next header, and whatever follows it changes nothing |
| Config.NoSearchSectionNoContent | telegram_bot/config.py:96-131 | without a `[search]` line nothing is collected |
| Config.ValueStartsNewKey | telegram_bot/config.py:111-114 | a websites or preferences line sets its key to the stripped value, makes it the current key and leaves the other keys alone |
| Config.TextAppends | telegram_bot/config.py:115-116 | continuation lines are each appended to the current key's value after a newline, and the other keys keep their values |
| Config.ContinuationsAppend | telegram_bot/config.py:115-116 | after a key line, later continuation lines extend that key's value and keep it current |
| Config.NoKeyNoContent | telegram_bot/config.py:115 | lines read before any key line leave nothing collected and no current key |
| Config.NothingBeforeFirstKey | telegram_bot/config.py:111-116 | body lines before the first websites or preferences line are dropped |
| Config.DecodeSearch | telegram_bot/config.py:118-131 | decoding fails with the invalid-JSON error exactly when some collected search key fails to parse; otherwise the result holds exactly the collected search keys, each with its parsed value |
| Config.GetOption | telegram_bot/config.py:57 | an option has a value exactly when its section and option both exist |
| Config.LoadPaths | telegram_bot/config.py:134-169 | a missing or empty default_save_path is an error; otherwise default is the expanded default path and movies and tv_shows are their own expanded values when set, else the default |
| Config.OnlyDefaultPath | telegram_bot/config.py:151-169 | with only the default save path configured, all three paths are that path |
| Config.ParseIds | telegram_bot/config.py:64-69 | the id list parses exactly when every non-blank item is an integer, yields at most one id per item, and fails only with a bad-user-id error |
| Config.IdStep | telegram_bot/config.py:66 | one item is skipped when blank and prepended when it is an integer, and otherwise fails |
| Config.ParseIdsCons | telegram_bot/config.py:66 | the comprehension handles the first item and then the rest in order |
| Config.AllowedIds | telegram_bot/config.py:64-69 | an empty setting gives no ids, and any failure is a bad-user-id error |
| Config.BlankItemsIgnored | telegram_bot/config.py:66 | a blank item, such as the one a trailing comma leaves, changes nothing |
| Config.NatReadsBack | telegram_bot/config.py:66 | a written decimal number strips to itself and `int` reads it back |
| Config.IdListRoundTrip | telegram_bot/config.py:66 | a comma-joined list of ids splits and parses back to the same ids |
| Config.AllowedIdsRoundTrip | telegram_bot/config.py:64-69 | an allowed_user_ids setting written from a list of ids reads back as those ids, including the empty list |
| Config.PlexConfigRefusing | telegram_bot/config.py:181-190 | a Plex configuration exists exactly when the `[plex]` section has a non-empty URL and a non-empty token other than the refused placeholder, and it carries those two values |
| Config.PlexConfigAsWritten | telegram_bot/config.py:187 | the code as written only refuses the misspelled "YOUR_PEX_TOKEN_HERE" token |
| Config.PlexConfigFixed | telegram_bot/config.py:187 | the corrected check never yields the sample placeholder "YOUR_PLEX_TOKEN_HERE" as a token |
| Config.PlexPlaceholderAcceptedAsWritten | telegram_bot/config.py:187 | as written, a config holding the sample placeholder token enables Plex with that placeholder |
| Config.PlexPlaceholderRefusedFixed | telegram_bot/config.py:187 | the corrected check refuses the placeholder yet accepts every other non-empty URL and token |
| Config.ConfigurationRefusing | telegram_bot/config.py:28-78 | invalid search JSON fails first; a returned token is the bot_token read from the text outside `[search]`, not empty and not "PLACE_TOKEN_HERE"; the search config is the decoded section with only websites and preferences keys; the Plex settings are those `_load_plex_config` gives for the refused placeholder |
| Config.GetConfiguration | telegram_bot/config.py:28-78 | invalid search JSON fails first; a returned token is the bot_token read from the text outside `[search]`, not empty and not "PLACE_TOKEN_HERE"; the search config is the decoded section with only websites and preferences keys; a Plex token is never the placeholder |
| Config.GetConfigurationAsWritten | telegram_bot/config.py:71 | the configuration as written carries the Plex settings of the misspelled check |
| Config.RefusedOnlyAffectsPlex | telegram_bot/config.py:71 | the Plex check cannot make loading fail or change anything but the Plex settings |
| Config.AsWrittenDiffersInPlexOnly | telegram_bot/config.py:187 | the configuration as written and the corrected one succeed together and differ only in Plex; with the sample placeholder token only the version as written enables Plex |
| ChangelogHooks.FindEntry | scripts/changelog_hooks.py:24-45 | a failed lookup is always the "no entries" error |
| ChangelogHooks.FindEntryCharacterised | scripts/changelog_hooks.py:24-45 | the lookup fails exactly when no `Commit: ` line follows any separator; otherwise the entry starts at the first `Commit: ` line after the first separator and ends at the next `Commit: ` line or at the end of the file |
| ChangelogHooks.FindEntryOfLayout | scripts/changelog_hooks.py:24-45 | a changelog laid out as example block, `---`, `Commit: ` line, body and rest is found as exactly that entry |
| ChangelogHooks.FindEntryOfSearches | scripts/changelog_hooks.py:28-45 | the entry reported is the separator found, the `Commit: ` line after it, and the next `Commit: ` line or the end of the file |
| ChangelogHooks.EntryEndAfterRewrite | scripts/changelog_hooks.py:40-44 | replacing the entry's head by another `Commit: ` line does not move the end of the entry |
| ChangelogHooks.FindEntrySearches | scripts/changelog_hooks.py:28-45 | a found entry's separator is the first separator, its head the first `Commit: ` line after it, and its end the next `Commit: ` line or the end of the file |
| ChangelogHooks.FindEntryAfterHeadRewrite | scripts/changelog_hooks.py:33-44 | with the separator and head fixed by the searches, a `Commit: ` line put in the head's place is found as the same entry |
| ChangelogHooks.FindEntryAfterRewrite | scripts/changelog_hooks.py:33-44 | replacing the entry's head by another `Commit: ` line leaves the entry where it was |
| ChangelogHooks.DropLineEnd | scripts/changelog_hooks.py:52 | `rstrip("\r\n")` keeps a prefix that does not end in a line-ending character and removes only line-ending characters |
| ChangelogHooks.MessageOf | scripts/changelog_hooks.py:52-53 | the joined entry text neither starts nor ends with a newline |
| ChangelogHooks.GenerateCommitMessage | scripts/changelog_hooks.py:48-58 | a message exists exactly when an entry is found and its body's text is not empty; the message never starts or ends with a newline; an empty body is the "empty entry" error |
| ChangelogHooks.DropLineEndOfWritten | scripts/changelog_hooks.py:52 | a line written with a newline loses exactly that newline |
| ChangelogHooks.DropWrittenLines | scripts/changelog_hooks.py:52 | dropping the line ending of each written line gives back the texts |
| ChangelogHooks.JoinedTextsHaveNoOuterNewline | scripts/changelog_hooks.py:53 | texts whose first and last are non-empty and newline-free join into text that the outer strip leaves alone |
| ChangelogHooks.MessageOfWrittenEntry | scripts/changelog_hooks.py:52-53 | an entry written as lines reads back as those lines joined by newlines |
| ChangelogHooks.GenerateFromLayout | scripts/changelog_hooks.py:48-58 | the message of a changelog laid out as example block, separator, `Commit: ` line and entry text is exactly that text |
| ChangelogHooks.PrepareCommitMessage | scripts/changelog_hooks.py:61-68 | a message file with non-blank text is kept; a blank or missing one gets the entry's message plus a newline, or fails when the changelog is missing |
| ChangelogHooks.PrepareTwice | scripts/changelog_hooks.py:61-68 | running the hook again on the file it wrote keeps that text |
| ChangelogHooks.EndingOf | scripts/changelog_hooks.py:83-86 | the ending kept is either the line's own trailing line-ending characters or `os.linesep` |
| ChangelogHooks.ReplacePendingCommit | scripts/changelog_hooks.py:71-90 | a missing changelog is an error; nothing changes exactly when there is no entry or its head lacks `<pending>`; otherwise only the head line changes, to `Commit: ` plus the hash plus the old line ending |
| ChangelogHooks.FinalizeChangelog | scripts/changelog_hooks.py:93-120 | an empty hash, or a failed `git rev-parse`, changes nothing; a given non-empty hash does exactly the pending-commit replacement |
| ChangelogHooks.NoAngleNoPending | scripts/changelog_hooks.py:80 | text without `<` never contains `<pending>` |
| ChangelogHooks.RewriteKeepsEntry | scripts/changelog_hooks.py:88 | after the rewrite the first entry is found in the same place |
| ChangelogHooks.EndingSettled | scripts/changelog_hooks.py:83-86 | the kept ending has no `<` when `os.linesep` has none |
| ChangelogHooks.WrittenCommitLineSettled | scripts/changelog_hooks.py:88 | a head written with a `<`-free hash and ending mentions no `<pending>` |
| ChangelogHooks.FinalizeOnce | scripts/changelog_hooks.py:71-90 | after one rewrite with a real hash, a second run changes nothing |
| ScraperConfig.SubAll | telegram_bot/utility_scripts/generate_scraper_config.py:921 | a substitution on text the pattern never matches leaves it unchanged |
| ScraperConfig.HasMatchAt | telegram_bot/utility_scripts/generate_scraper_config.py:919 | a match at any position is found by the search |
| ScraperConfig.NoMatchExcept | telegram_bot/utility_scripts/generate_scraper_config.py:919-924 | when every match starts with a character that occurs only where nothing matches, the search finds nothing |
| ScraperConfig.SubAllAround | telegram_bot/utility_scripts/generate_scraper_config.py:921 | the substitution copies a match-free prefix, replaces the first match and carries on after it |
| ScraperConfig.SubAllContains | telegram_bot/utility_scripts/generate_scraper_config.py:920-925 | whenever the search matched, the replacement text is in the result |
| ScraperConfig.MatchCategoryPage | telegram_bot/utility_scripts/generate_scraper_config.py:919 | a match of `\{query\}/[^/]+/\d+/` starts with `{query}/` and ends with `/` |
| ScraperConfig.MatchPage | telegram_bot/utility_scripts/generate_scraper_config.py:923 | a match of `\{query\}/\d+/` starts with `{query}/` and ends with `/` |
| ScraperConfig.UpgradeTemplate | telegram_bot/utility_scripts/generate_scraper_config.py:913-931 | a template with both placeholders is kept, and so is a query-string template that neither path pattern matches |
| ScraperConfig.UpgradeTakesCategoryPage | telegram_bot/utility_scripts/generate_scraper_config.py:919-921 | when a placeholder is missing and the category pattern matches, every match becomes `{query}/{category}/{page}/` |
| ScraperConfig.UpgradeTakesPage | telegram_bot/utility_scripts/generate_scraper_config.py:923-925 | when only the page pattern matches, every match becomes `{query}/{page}/` |
| ScraperConfig.SubstituteOnce | telegram_bot/utility_scripts/generate_scraper_config.py:919-925 | one match between brace-free text is found and is the only text replaced |
| ScraperConfig.PlaceholdersInTails | telegram_bot/utility_scripts/generate_scraper_config.py:921-931 | each replacement text carries `{page}`, and the category and default ones also carry `{category}` |
| ScraperConfig.UpgradeProvidesPage | telegram_bot/utility_scripts/generate_scraper_config.py:913-931 | every template without `?` comes out with `{page}`, and also with `{category}` unless the page-only rule applied |
| ScraperConfig.UpgradeCategoryPage | telegram_bot/utility_scripts/generate_scraper_config.py:919-921 | `{query}/<segment>/<n>/` becomes `{query}/{category}/{page}/` with the rest of the template kept |
| ScraperConfig.CategoryPageMissesDigitless | telegram_bot/utility_scripts/generate_scraper_config.py:919 | the category pattern does not match `{query}/<n>/` when no digit follows it |
| ScraperConfig.NoCategoryPageBeforeDigitless | telegram_bot/utility_scripts/generate_scraper_config.py:919-920 | in a template whose only brace opens `{query}/<n>/`, the category pattern matches nowhere |
| ScraperConfig.UpgradePage | telegram_bot/utility_scripts/generate_scraper_config.py:923-925 | `{query}/<n>/` becomes `{query}/{page}/` with the rest of the template kept |
| ScraperConfig.UpgradePlainPath | telegram_bot/utility_scripts/generate_scraper_config.py:926-931 | a path template with no placeholder and no `?` loses its trailing slashes and gets `/{category}/{page}/` appended |
| ScraperConfig.SlugVariants | telegram_bot/utility_scripts/generate_scraper_config.py:991-1005 | the forms include the stripped term, its lower-case form, both URL-encoded forms and, when there are words, the hyphen-, underscore- and plus-joined words |
| ScraperConfig.WordsOfJoin | telegram_bot/utility_scripts/generate_scraper_config.py:997 | words joined by single spaces split back into those words |
| ScraperConfig.SlugsOfWords | telegram_bot/utility_scripts/generate_scraper_config.py:991-1001 | a lower-case term of single-spaced words has its words joined by `-`, `_` and `+` among its forms |
| ScraperConfig.Segments | telegram_bot/utility_scripts/generate_scraper_config.py:1057 | every segment is non-empty and has no `/` |
| ScraperConfig.ChosenSegment | telegram_bot/utility_scripts/generate_scraper_config.py:1059-1065 | the chosen index is one of the segments |
| ScraperConfig.DerivePathTemplate | telegram_bot/utility_scripts/generate_scraper_config.py:1056-1071 | the derived template starts with `/` |
| ScraperConfig.ChosenSegmentIs | telegram_bot/utility_scripts/generate_scraper_config.py:1059-1065 | the chosen segment is the first that is a form of the term, or the last one when none is |
| ScraperConfig.SegmentsReadBack | telegram_bot/utility_scripts/generate_scraper_config.py:1068 | slash-free segments joined behind a `/` split back into themselves |
| ScraperConfig.TemplateForSegments | telegram_bot/utility_scripts/generate_scraper_config.py:1066-1068 | the template's segments are the path's segments with the chosen one replaced by `{query}` |
| ScraperConfig.DerivedTemplateSegments | telegram_bot/utility_scripts/generate_scraper_config.py:1056-1071 | a path without segments gives `/{query}`; otherwise exactly the first segment that is a form of the term, or else the last, becomes `{query}` and the others stay in order |
| ScraperConfig.DefaultOutputPath | telegram_bot/utility_scripts/generate_scraper_config.py:229-232 | the file sits directly in the configs directory and is named by the site name, with no spaces or capitals, plus ".yaml" |
| ScraperConfig.OutputNameReadsBack | telegram_bot/utility_scripts/generate_scraper_config.py:231 | for a name without underscores, the file name gives back the lower-cased site name |
| ScraperConfig.SplitLines | telegram_bot/utility_scripts/generate_scraper_config.py:1248 | the lines hold no newline, and there are none exactly when the text is empty |
| ScraperConfig.SplitLinesOfJoin | telegram_bot/utility_scripts/generate_scraper_config.py:1248 | lines joined with newlines, the last not empty, split back into those lines |
| ScraperConfig.DumpWebsitesBlock | telegram_bot/utility_scripts/generate_scraper_config.py:1247-1253 | empty JSON text gives `websites = {}` and a newline; every block starts with `websites = ` and ends with a newline |
| ScraperConfig.DumpMultiLine | telegram_bot/utility_scripts/generate_scraper_config.py:1247-1253 | multi-line JSON text is written back verbatim after `websites = `, followed by a newline |
| ScraperConfig.DumpOneLine | telegram_bot/utility_scripts/generate_scraper_config.py:1247-1253 | single-line JSON text is followed by an empty line |
| ScraperConfig.Upsert | telegram_bot/utility_scripts/generate_scraper_config.py:1220-1226 | the first dict with the name gets the URL and nothing else changes; without one, a new entry is appended |
| ScraperConfig.UpsertThenUrl | telegram_bot/utility_scripts/generate_scraper_config.py:1220-1226 | after an upsert the site's search URL is the given one |
| ScraperConfig.UpsertOtherSite | telegram_bot/utility_scripts/generate_scraper_config.py:1220-1226 | an upsert leaves every other site's URL as it was |
| ScraperConfig.UpsertIdempotent | telegram_bot/utility_scripts/generate_scraper_config.py:1220-1226 | upserting the same URL twice equals doing it once |
| ScraperConfig.UpdateWebsites | telegram_bot/utility_scripts/generate_scraper_config.py:1228-1234 | with no scopes or a scope named, that list gets the site's URL; a list out of scope is untouched; other sites keep their URLs |

## Left out

- **I/O and concurrency.** Asyncio tasks, locks, cancellation delivery and
  interleavings are left out: each handler is one atomic transition, and
  `task.cancel()` is an emitted effect. Telegram messages, keyboards and
  message editing are left out too; only the retry and suppression
  bookkeeping of `safe_edit_message` and `safe_send_message` is modelled.
- **Foreign libraries.** The following are parameters whose behaviour is not
  modelled:
  - libtorrent sessions and handles, and the download polling loop
    (`download_with_progress`);
  - HTTP requests, BeautifulSoup traversal and the `wikipedia` library;
  - `thefuzz` ratios and `extractOne`;
  - `json.dumps`/`json.loads`, `configparser` and `os.path.expanduser`;
  - `urllib.parse` (`urlparse`, `quote`, `quote_plus`, `urljoin`,
    `parse_qsl`), `shutil.move`, `os.walk` and `os.makedirs`;
  - `subprocess` and `git rev-parse`.
- **Floating point.** `format_bytes`, `_parse_size_to_gb` and size-in-GB
  divisions are left out. Sizes are integer byte counts. The download speed
  of a progress message is modelled as the exact real `rate / 1024 / 1024`,
  with no float rounding and no `:.2f` formatting.
- **Unicode.** Strings are ASCII in the model:
  - `\w`, `\s`, `\d`, `lower`, `upper` and `casefold` act on ASCII only;
  - `casefold` is `lower`;
  - `splitlines` is modelled for `\n` line breaks only, which is what
    `json.dumps` produces.
- **Exception text.** CPython's exception message text is not modelled.
  Raised exceptions are `Result` errors carrying the kind of error.
- **Emoji.** The bot's emoji in `telegram_bot/services/media_manager.py` are
  stored as mojibake in the source. The model copies them character for
  character.
- **Torrent checks and lookups.** `validate_and_enrich_torrent`
  (`telegram_bot/services/media_manager.py:111-181`), `find_season_directory`
  and `find_episode_file` are I/O-driven lookups outside the modelled
  placement logic.
- **Plex scan.** The Plex server calls of `_trigger_plex_scan` are left out;
  only its library mapping is modelled.
- **Legacy buttons and progress text.** The legacy `button_handler`
  branches for delete, select and `cancel_operation` are left out: only
  the queue and cancel branches are modelled. So is the progress message
  text of `ProgressReporter`: only its throttling and guard decisions are.
- **Collection mode.** The I/O-driven steps of collection mode are left out:
  `run_franchise_logic`, `handle_franchise_confirmation`,
  `_move_existing_movies`, `_is_movie_present` and `_queue_franchise_item`.
  The helpers they rely on are modelled.
- **TV searches.** In `search_workflow.py`, the TV scope and season search
  flows are modelled only through their decisions: the season-pack
  candidate predicate, reply validation and the filters. The message flow
  around them is left out.
- **YTS network steps.** The second and third YTS stages (page fetches and
  the API call) are an environment parameter. The model keeps their
  sequencing and the torrent filters.
- **Metadata timer.** `_update_fetch_timer` only updates the user
  interface, so it is left out.
- **Scraper-config generator.** The query-string branch of
  `_derive_template_from_example` is left out: it rebuilds the query with
  `parse_qsl` and `quote_plus`. The path branch is modelled.
  In `_update_config_ini_with_site`, only the `upsert` step and the scope
  choice are modelled. Left out are:
  - locating the `[search]` section and the `websites` block in the file;
  - the JSON fallback;
  - `build_url`.
  The recursive call that follows the insertion of a missing `websites`
  block does not pass `media_scopes` on, so that second pass updates both
  lists. Modelling this needs the file rewrite, which is left out.
- **Network-heavy code.** `guess_base_url`, `autodetect_from_site` and the
  other HTML-probing helpers of the generator are left out, and so are the
  interactive prompts.
- **Unnamed tests.** Behaviour that tests describe but that has no code in
  the modelled files is not modelled, because no such code exists:
  - `handle_pause_request`;
  - `handle_resume_request`;
  - `metadata_timeout_occurred`.
- Yts.ScrapeYts: an empty `preferences` dict is modelled as `None`, so
  every falsy value that the source tests with `if not preferences` returns
  no results.
- Wikipedia.EpisodeCount: returns `None` when the overview row for the
  season has an episode cell without a number, even if a usable count of
  episode titles is at hand. This is how the code is written.
- Config.GetConfiguration: uses the corrected Plex placeholder check,
  Config.PlexConfigFixed. The loader as written,
  Config.GetConfigurationAsWritten, is kept alongside it; see Findings.
- **Scoring imports.** `tpb.py:12` and `yts.py:13` import `parse_codec` and
  `score_torrent_result` from `telegram_bot/utils.py`, which defines
  neither, so as written both scrapers fail to import. The model binds the
  two names to `telegram_bot/services/scrapers/scoring.py:6` and `:47`, the
  scrapers package's own definitions. Their signatures match the TPB calls
  but not the YTS ones, which pass a `leechers=` keyword that neither
  `score_torrent_result` accepts (see `Yts.MakeHit` below). The different `score_torrent_result` of `search_logic.py:91` is modelled
  separately, as SearchLogic's, and is not used by the scrapers.
- Tpb.Parsed: uses `parse_torrent_name` as written, fallback bug included
  (see Findings), so Tpb.TargetOf, Tpb.Judge and everything built on them
  follow the code. The corrected parser is stated and proved on its own
  but no modelled caller uses it.
- State.RestartResumes: promises the restart only when no download whose
  task is cancelled at shutdown had been displaced. With such a download
  the shutdown save garbles the file; State.ShutdownGarblesWithDisplaced
  states that case.
- SearchLogic.ScoreKey: a `score` that is neither an int nor a bool sorts
  as 0, where Python's sort would raise on comparing it with an int.
- BotUtils.SiteName: the `ValueError` that `urlparse` raises on a malformed
  URL (caught and answered with "Unknown") is not modelled; `netloc` is a
  total parameter.
- Yts.TorrentHits: a torrent whose `quality` is JSON `null` makes the
  source's `.lower()` raise, and the search then returns []. The model
  reads a `null` quality as a missing one (""). A `null` `title_long` is
  read as missing as well, where the source would put "None" in the titles.
  In Stage 4 (`yts.py:490-494`) `seeds` and `peers` are read without
  `int(... or 0)`, so a JSON `null` in either makes the comparison or the
  subtraction raise, and the search returns []. The model's torrent entries
  carry an integer `seeds` and an integer or missing `peers`, so a `null` in
  either field is outside the model.
- Yts.MakeHit: the source passes `leechers=` to `score_torrent_result`
  (`yts.py:208-214` and `yts.py:504-510`), and neither scorer accepts that
  keyword, so every YTS scoring call raises `TypeError`: the API fallback
  skips each movie and returns [], and Stage 4 returns []. The model drops
  the keyword and scores with title, "YTS", preferences and seeders, so it
  describes the results the scraper would give were the keyword accepted.

## Findings

| source | as written | input that shows it | evidently intended | confidence | as-written member | corrected member |
|---|---|---|---|---|---|---|
| telegram_bot/config.py:187 | the placeholder refused is "YOUR_PEX_TOKEN_HERE" (missing L) | a `[plex]` section with `plex_url` set and `plex_token = YOUR_PLEX_TOKEN_HERE` enables Plex with the placeholder token | the sample placeholder "YOUR_PLEX_TOKEN_HERE" leaves Plex off | high; not executed | Config.PlexPlaceholderAcceptedAsWritten | Config.PlexPlaceholderRefusedFixed |
| telegram_bot.py:884-905 | the legacy `save_state` dumps the active job, which still holds its asyncio lock | saving while a download is active: `json.dump` raises part-way through, after `open(..., "w")` truncated the file | strip the runtime objects before dumping, so the snapshot reloads | medium; not executed | Legacy.LegacyStartGarblesSave | Legacy.LegacySaveFixedRoundTrip |
| telegram_bot/state.py:28-35 | a requeued job goes back to the queue with its runtime lock still in it, and the queue is dumped as it is | requeue a paused job, then save: the queued record holds a lock, and the file is left truncated; the shutdown save hits this whenever a displaced download's task is cancelled | strip runtime fields from queued jobs too | medium; not executed | State.RequeueGarblesSave | State.RequeueSavesWhenFixed |
| telegram_bot/utils.py:207-244 | the fallback runs `splitext` after dots have become spaces, so the extension is never split off | a name with no year or episode marker, such as `Nature.mkv`, gives the title "Nature mkv" | split the extension off before replacing the dots | medium; not executed | BotUtils.FallbackKeepsExtension | BotUtils.FixedFallbackDropsExtension |
