# link_yeeter, modelled in Dafny

link_yeeter is a Telegram bot that downloads a video from a link posted in a
chat, converts it to an MP4 that fits Telegram's 50 MB upload limit, and
sends it back. This project models the bot's decision logic and proves
properties about it. Subprocesses, Telegram calls, the filesystem, the
environment and the link-finding libraries become inputs. Every verdict the
bot reaches from their answers is computed here.

The repository holds two revisions of this logic, and each is modelled on
its own:

- **Current revision** (`src/worker.rs`, `src/task_manager.rs`,
  `src/commands.rs`, `src/task.rs`, `src/env.rs`):
  - a worker with a FIFO queue, a counter of tentatively accepted tasks and
    a busy flag (`Worker`, a class whose methods are specified against pure
    state functions);
  - the task manager that owns the worker and its cancellation token
    (`Manager`);
  - the per-task pipeline that checks the download and picks a bitrate
    (`Pipeline`);
  - command routing, URL choice and Markdown escaping (`Commands`);
  - the task types and their `Debug` text (`Tasks`), and the configuration
    statics (`Env`).
- **Older revision** (`src/main.rs`, `src/utils.rs`, `src/ytdl.rs`):
  - `get_url_info` with its `WHITELIST` (`LegacyUtils`);
  - the still older `find_link` (`Ytdl`);
  - the message handler with its request counter, replies, file checks and
    two-attempt conversion (`LegacyMain`).

Shared vocabulary sits in `Base` (options, outcomes, panicking statics,
integer widths, decimal megabytes), `Text` (decimal printing, `u64`
parsing, `split`/`join`, `trim`, `replace`), `Probing` (the four-field
probe both revisions use) and `Links` (a found link and the host its URL
parsed to).

Integers are unbounded. Where the source's width matters it is written out:
- `usize` wrap-around of the reservation counter in `Worker.PushAsWritten`,
  and of the queue-size sum in `Worker.SizeAsWritten`;
- the `as u32` cast in `LegacyMain.NextCount`;
- the saturating float-to-int casts in the bitrate functions.

`TaskOutput`'s `Debug` text (`src/task.rs:21-35`) prints the probe with the
derived `Debug` of the current revision's `Probe`, which is not part of this
model. `Tasks.ProbeDebug` takes its fields in the order of the older
revision's struct (`src/utils.rs:132-137`): duration, bitrate, width, height.

`ALLOWLIST` is a set (`Env.Allowlist`). The source prints it in the set's
iteration order, which it does not fix. `Commands.Settings.allowlist` stands
for that listing: any order, each entry once. The command lemmas hold for
every order.

The bitrate arithmetic is done in `f64` in the source. Here it is exact
rational arithmetic with rounding down, which idealises `f64` rounding.

### Where the code and its description differ

The model follows the code in each case.

- Fallback mode is described as raising the size ceiling. In
  `src/worker.rs:151-155` the fallback limit only chooses the error text.
  A file above `MAX_FILESIZE` is refused in fallback mode as well; see
  `Pipeline.FallbackStillCappedAtMax`.
- The description has the admission controller reconcile a reservation for
  every enqueue. The only caller (`src/commands.rs:241`, `:303`) never makes
  one; see the first finding.
- The description speaks of a second, adjusted encode attempt. The current
  pipeline converts once (`src/worker.rs:202`). The two-attempt sequence
  exists only in the older handler (`LegacyMain.ConvertWithFallback`).

## Model

| member | source | states |
|---|---|---|
| Base.MegaBytes | src/worker.rs:147 | bytes/1000/1000 is the whole number of decimal megabytes: mb·10⁶ ≤ bytes < (mb+1)·10⁶ |
| Probing.DefaultProbe | src/utils.rs:139-149 | the default probe has duration, bitrate, width and height all 0 |
| Tasks.DebugHidesHandles | src/task.rs:21-35 | two outputs that agree on metadata, reduced bitrate and whether a thumbnail exists print alike: the directory, the video file and the thumbnail's contents never show |
| Tasks.OptionDebugInjective | src/task.rs:33 | the reduced bitrate is printed in full: different values never print alike |
| Tasks.ProbeDebugThen | src/task.rs:32 | the probe's text, followed by anything, determines the probe and what follows it |
| Tasks.DebugShowsFields | src/task.rs:21-35 | the converse of DebugHidesHandles: equal `Debug` texts mean equal metadata, equal reduced bitrate and the same thumbnail presence |
| Env.Allowlist | src/env.rs:8-15 | unset gives the empty set; no entry is empty or padded with whitespace; every non-blank comma field is in the set trimmed, and every entry comes from a field |
| Env.Maintainer | src/env.rs:18-19 | Some exactly when the variable is set, and then "@" followed by the value |
| Env.MaxFilesize | src/env.rs:22-27 | panics when unset; otherwise the parsed u64, or 200 when the text does not parse |
| Env.MaxFilesizeOfDecimal | src/env.rs:22-27 | a limit written in decimal is read back unchanged |
| Env.FallbackFilesize | src/env.rs:30 | the fallback limit is at least the normal limit, and strictly above it when that is positive |
| Pipeline.SizeCheck | src/worker.rs:149-155 | the size check passes exactly when megabytes ≤ MAX_FILESIZE, whether or not fallback is on |
| Pipeline.MaxBitrate | src/worker.rs:161-174 | None iff duration is 0; otherwise ⌊(400000/d − 128)·0.97⌋, and 0 when that is negative |
| Pipeline.Cutoff | src/worker.rs:182 | the cutoff is 85 % of the original, rounded down |
| Pipeline.Target | src/worker.rs:193-200 | the original bitrate and "not reduced" when original < cap (0 without a cap), otherwise the cap and "reduced" |
| Pipeline.HandleTaskInternal | src/worker.rs:117-215 | an early stop becomes Err with its reason; a converter failure becomes Err with the converter's error; Ok iff every check passed and the converter succeeded, and then it carries the probe, the directory and the thumbnail |
| Pipeline.WrongFileCountFails | src/worker.rs:140-143 | any file count other than 1 fails with "N files found, expected 1" |
| Pipeline.TranscodeOnlyWithinLimits | src/worker.rs:140-155 | the converter is reached only with exactly one file below (MAX_FILESIZE+1)·10⁶ bytes |
| Pipeline.OversizeFails | src/worker.rs:147-155 | a file above MAX_FILESIZE fails; the message names FALLBACK_FILESIZE only when fallback is on and that limit is exceeded too |
| Pipeline.FallbackStillCappedAtMax | src/worker.rs:151-155 | in fallback mode a file between MAX_FILESIZE and FALLBACK_FILESIZE is still refused, naming MAX_FILESIZE |
| Pipeline.QualityGate | src/worker.rs:176-186 | "API-adjusted bitrate is too low" iff a cap exists, it is below the cutoff, and fallback is off |
| Pipeline.ZeroBitrateNeverRejected | src/worker.rs:180-185 | an original bitrate of 0 never trips the quality gate |
| Pipeline.UnprobedFileIsNotCapped | src/worker.rs:159-200 | without a probe the converter gets no bitrate argument and no reduction is reported |
| Pipeline.ReportedReduction | src/worker.rs:193-213 | a successful task reports None when the original was below the cap, and otherwise the cap |
| Pipeline.ReductionIsBounded | src/worker.rs:176-213 | a reported reduction is the cap, never above the original, and without fallback at least the cutoff |
| Pipeline.MaxBitrateFitsBudget | src/worker.rs:161-171 | a positive cap plus 128 kbps of audio fits 400000 kbit over the whole duration |
| Pipeline.MaxBitrateAntitone | src/worker.rs:161-171 | a longer clip never gets a higher cap |
| Pipeline.OneMinuteExample | src/worker.rs:161-200 | a 60 s clip is capped at 6342 kbps, so a 1000 kbps original is kept |
| Pipeline.TenMinuteExample | src/worker.rs:161-200 | a 600 s clip at 1000 kbps is capped at 522 < cutoff 850: refused without fallback, reduced to 522 with it |
| Worker.Reserve | src/worker.rs:49-58 | reserving val slots raises the queue size by val and leaves the queue and busy flag alone |
| Worker.Enqueue | src/worker.rs:72-76 | push appends the task, trades one reservation for it, and keeps the queue size |
| Worker.Begin | src/worker.rs:92-93 | taking the front task and marking busy keeps the queue size |
| Worker.Finish | src/worker.rs:95 | finishing the task in flight lowers the queue size by exactly one |
| Worker.AdmissionsCountOnce | src/worker.rs:49-76 | N reserve-then-push admissions raise the size by exactly N and queue the tasks in arrival order |
| Worker.FreshAdmissions | src/worker.rs:38-76 | from a new worker, N admissions give a queue size of N |
| Worker.InFlightCountedOnce | src/worker.rs:92-95 | the task being handled is counted exactly once, from when it is taken until it is done |
| Worker.SizeAsWritten | src/worker.rs:52-54 | the `usize` sum is below 2⁶⁴, and equals the true size whenever that fits |
| Worker.PushAsWritten | src/worker.rs:72-76 | appends the task; with a reservation it is Enqueue; without one the counter wraps from 0 to 2⁶⁴−1 |
| Worker.PushAsWrittenKeepsReportedSize | src/worker.rs:52-76 | with or without a reservation, a push leaves the wrapped queue size where it was |
| Worker.UnreservedPushesInvisible | src/worker.rs:72-76 | any number of unreserved pushes queue the tasks in order and leave the wrapped size unchanged |
| Worker.UnreservedPushUnderflows | src/worker.rs:52-74 | on a fresh worker the size reads 0; after an unreserved push the counter is 2⁶⁴−1 and the size still reads 0, also while the task is in flight; once it is done the size reads 2⁶⁴−1 |
| Worker.Popped | src/worker.rs:92-93 | the pop on its own lowers the size by one while the task is not yet marked busy |
| Worker.PopWindowUndercounts | src/worker.rs:92-93 | between pop and setting is_busy a size query sees one less than once the task is marked busy |
| Worker.HandleTask | src/worker.rs:104-113 | one delivery on the task's channel carrying exactly the pipeline's result; a dead receiver only makes it undelivered |
| Worker.Worker.constructor | src/worker.rs:38-46 | a new worker has an empty queue, no reservations and is idle |
| Worker.Worker.FetchAddQueueSize | src/worker.rs:49-58 | returns the size before and adds val reservations |
| Worker.Worker.QueueSize | src/worker.rs:61-63 | returns queue length + tentative + busy and changes nothing, so repeated calls agree |
| Worker.Worker.TentativeEnqueue | src/worker.rs:66-68 | returns the size before and reserves one slot, so the next size is one larger |
| Worker.Worker.Push | src/worker.rs:72-76 | requires a reservation; appends the task and keeps the queue size |
| Worker.Worker.Step | src/worker.rs:85-97 | a cancelled token stops without popping; otherwise the front task is handled and the worker is idle again, with the size one lower |
| Worker.Worker.Run | src/worker.rs:83-100 | tasks are handled in queue order, one delivery each, until cancellation, an empty queue or the end of the iterations; the rest stay queued |
| Manager.TaskManager.constructor | src/task_manager.rs:31-38 | a fresh manager has a fresh worker and an uncancelled token |
| Manager.TaskManager.Start | src/task_manager.rs:18-22 | starts the loop and leaves the token as it was |
| Manager.TaskManager.Stop | src/task_manager.rs:24-28 | after stop the child token given to the loop is cancelled |
| Manager.TaskManager.GetQueueSize | src/task_manager.rs:48-51 | the worker's queue size, with nothing changed |
| Manager.TaskManager.TentativeEnqueue | src/task_manager.rs:53-59 | the size before, and exactly one slot reserved |
| Manager.TaskManager.EnqueueTask | src/task_manager.rs:61-64 | requires a reservation; the task takes its place and the net size is unchanged |
| Manager.TaskManager.Admit | src/task_manager.rs:53-64 | reserve-then-enqueue: the reported position is the size before, and the size grows by exactly one |
| Manager.TaskManager.Tick | src/task_manager.rs:19-28 | the worker is idle afterwards and its reservations untouched; once stop has run, the loop ends with the state unchanged; an empty queue waits with the state unchanged; otherwise the front task is handled and the state is Finish(Begin(old)) |
| Manager.FreshManagerPositions | src/task_manager.rs:31-64 | on a fresh manager the first request is told position 0 and the second position 1 |
| Manager.RequestAsWritten | src/commands.rs:241-303 | the caller's path (read the size, push without a reservation): the task is queued, and the next request is told the same position |
| Manager.FreshRequestsAsWritten | src/commands.rs:241-303 | on a fresh bot, two requests along that path are both told "the queue is empty" and both tasks are queued |
| Commands.SanitiseAppend | src/commands.rs:88-94 | sanitising distributes over concatenation |
| Commands.SanitiseChar | src/commands.rs:88-94 | on one character, the five passes escape it iff it is one of `.()-_` |
| Commands.SanitiseEscapesEach | src/commands.rs:88-94 | `sanitise` puts one backslash before every `.`, `(`, `)`, `-`, `_` and leaves every other character unchanged |
| Commands.WithContact | src/commands.rs:227-237 | an error gets the contact suffix iff MAINTAINER is set |
| Commands.AcceptMessage | src/commands.rs:241-247 | "queue is empty" iff the position is 0, otherwise the position in decimal |
| Commands.ExtractUrls | src/commands.rs:261-293 | the message's own single URL wins; else, for a Common message replying to a text with exactly one URL, that reply's result; else the message's own result; One iff one of the two has exactly one URL |
| Commands.AnswerEntrypoint | src/commands.rs:159-258 | non-Common messages and forwards outside private chats get Nothing; a download starts only for yeet/yeetplz, with fallback iff yeetplz |
| Commands.InformationCommands | src/commands.rs:174-195 | help, status and allowlist always get a message; status reports the queue size; an empty allowlist reads " none" |
| Commands.DownloadCommands | src/commands.rs:197-257 | no URL and several URLs are refused with their texts; a single unsupported URL is refused only for yeet; otherwise a download starts |
| Commands.DownloadAnswer | src/commands.rs:309-332 | a closed channel and an Err become errors; an Ok becomes a video, captioned iff its bitrate was reduced |
| Commands.WorkerFailureReachesUser | src/commands.rs:119-128 | a failed task reaches the user as "Failed to download video (processing error: reason)." |
| Text.TrimmedFields | src/utils.rs:12-19 | no site is empty or padded with whitespace, and there are no more sites than fields |
| Text.TrimmedFieldsKeep | src/utils.rs:12-19 | every non-blank field is a site, trimmed |
| Text.TrimmedFieldsFrom | src/utils.rs:12-19 | every site is the trim of some field |
| Text.TrimmedFieldsClean | src/env.rs:8-15 | by membership: every site is non-empty, unpadded and the trim of a field, and every non-blank field is kept trimmed |
| LegacyUtils.Whitelist | src/utils.rs:12-19 | panics with the expect message and the `NotPresent` error when unset; otherwise the trimmed non-blank fields in order |
| LegacyUtils.WhitelistFields | src/utils.rs:12-19 | each non-blank field of the variable is whitelisted trimmed, and "" never is |
| LegacyUtils.HostKeySuffix | src/utils.rs:72-92 | the key is a suffix of the host: the whole host with at most two labels, else its last two labels |
| LegacyUtils.LastTwoLabels | src/utils.rs:70-92 | a host sub.name.tld is keyed by name.tld (vm.tiktok.com → tiktok.com) |
| LegacyUtils.TwoLabels | src/utils.rs:72-92 | a host of one or two labels is its own key |
| LegacyUtils.PermittedCount | src/utils.rs:55-99 | the filter chain keeps as many entries as there are allowed links |
| LegacyUtils.KeysIndexed | src/utils.rs:47-92 | each keyed entry carries the position of a link with a host and that host's key |
| LegacyUtils.PermittedKept | src/utils.rs:94-97 | the whitelist filter keeps only entries whose key is whitelisted |
| LegacyUtils.PermittedAppend | src/utils.rs:94-97 | the whitelist filter distributes over concatenation |
| LegacyUtils.SecondAllowed | src/utils.rs:94-108 | two different allowed links make the whitelisted count at least 2 |
| LegacyUtils.CountsAllowed | src/utils.rs:94-99 | one allowed link makes the whitelisted count at least 1 |
| LegacyUtils.GetUrlInfo | src/utils.rs:38-112 | total_urls is the number of links; whitelisted_urls counts the allowed ones; maybe_url is Some iff exactly one is allowed, and is then an allowed link's text |
| LegacyUtils.AllowedAtMostTotal | src/utils.rs:44-110 | whitelisted_urls ≤ total_urls |
| LegacyUtils.ChosenIsTheAllowedLink | src/utils.rs:99-108 | the chosen URL is the text of the one allowed link |
| Ytdl.RawWhitelist | src/ytdl.rs:10-16 | panics when unset; otherwise the comma fields verbatim, which join back to the variable |
| Ytdl.RawFields | src/ytdl.rs:10-16 | fields are neither trimmed nor dropped: "a,b" gives a and b, and "a," keeps an empty field |
| Ytdl.LastTwo | src/ytdl.rs:33-35 | no key (the source panics) iff the host has fewer than two labels; otherwise the key equals get_url_info's key |
| Ytdl.LastTwoIsHostKey | src/ytdl.rs:33-35 | on hosts of two or more labels, the last-two-labels cut agrees with the newer host key |
| Ytdl.FindLink | src/ytdl.rs:19-44 | not found unless exactly one link; not found without a host; panics on a single-label host; otherwise found, with that link, iff the key is whitelisted |
| Ytdl.FindLinkAgreesWithUrlInfo | src/ytdl.rs:19-44 | on a single link with a host of two or more labels, find_link and get_url_info choose the same URL |
| LegacyMain.LegacyMaxFilesize | src/main.rs:18-23 | the parsed u64; 250 when unset or unparsable |
| LegacyMain.LegacyMaintainer | src/main.rs:25-35 | "the maintainer" when unset or blank, else "@" and the trimmed value |
| LegacyMain.NextCount | src/main.rs:91-96 | the new count is 0 when count+delta ≤ 0, count+delta when it fits a u32, and wraps by 2³² above |
| LegacyMain.LeaveAtZero | src/main.rs:94 | −1 from 0 leaves 0 |
| LegacyMain.EntryThenExitRestores | src/main.rs:77-83 | +1 then −1 restores any count below u32::MAX |
| LegacyMain.EntryWrapsAtMax | src/main.rs:94 | at u32::MAX the entry step wraps to 0 and the endpoint leaves 0 |
| LegacyMain.Counter.constructor | src/main.rs:73 | the count starts at 0 |
| LegacyMain.Counter.ChangeCountBy | src/main.rs:92-96 | the count becomes NextCount of the old count and delta |
| LegacyMain.UrlFailure | src/main.rs:104-117 | "No URLs found." iff there are no links; the not-whitelisted text listing the supported sites when there are links but none allowed; otherwise the more-than-one text |
| LegacyMain.NoUrlReason | src/main.rs:101-117 | for an update that chose no URL: the no-URL reason iff it has no links, the not-whitelisted reason when none is allowed, the more-than-one reason when two or more are |
| LegacyMain.EscapeReplyParts | src/main.rs:121-125 | escaping the assembled reply escapes the reason and the maintainer and the final dot, and leaves the contact line as it is |
| LegacyMain.UrlFailureReply | src/main.rs:104-133 | the reply is the escaped reason, the contact line, the escaped maintainer and an escaped final dot; every '.' in it is escaped with a backslash |
| LegacyMain.PositionMessage | src/main.rs:157-164 | "queue is empty" iff count < 2, otherwise position count − 1 |
| LegacyMain.PositionMessageInjective | src/main.rs:157-164 | different positions give different replies |
| LegacyMain.FileCountMessage | src/main.rs:201-220 | the reply says "no" for 0 files and the number otherwise |
| LegacyMain.FileCountMessageInjective | src/main.rs:201-220 | the reply determines the file count |
| LegacyMain.FallbackBitrate | src/main.rs:267-276 | None iff duration is 0; otherwise ⌊(400000/d − 133)·0.97⌋, and 0 when that is negative |
| LegacyMain.FallbackFitsApiLimit | src/main.rs:267-276 | a positive fallback bitrate plus 133 kbps fits 400000 kbit over the duration |
| LegacyMain.OneMinuteFallback | src/main.rs:267-276 | a 60 s video falls back to 6337 kbps |
| LegacyMain.SkipOnlyBelowOriginal | src/main.rs:278-296 | a skip needs a fallback bitrate below the original; an original of 0, no fallback, or a fallback of at least 85 % of the original never skips |
| LegacyMain.NoSkipWithinBudget | src/main.rs:267-296 | a video whose bitrate is at most its fallback bitrate is never skipped to the fallback |
| LegacyMain.ConvertWithFallback | src/main.rs:298-337 | the unadjusted attempt runs iff not skipped; the adjusted one only after no success and with a fallback bitrate; bitrate_reduced iff the adjusted attempt succeeded |
| LegacyMain.UnprobedVideoSingleAttempt | src/main.rs:264-306 | with the default probe there is one unadjusted attempt and no reduction |
| LegacyMain.Handler | src/main.rs:99-416 | the checks run in the source's order (URL, forward, file count, extractor status, size) with their private replies; group chats get no reply; conversion runs only for an accepted file; a private chat is told of a failed conversion, or warned of a reduced bitrate with the original and the fallback bitrate |
| LegacyMain.Dispatch | src/main.rs:76-89 | the counter is restored after an update, and the handler's position reply reflects the raised count |
| LegacyMain.SequentialUpdatesSeeEmptyQueue | src/main.rs:76-164 | updates handled one after another on a fresh counter are always told the queue is empty |

Some definitions carry no contract of their own; the rows above state what
they compute:
- `Commands.Sanitise` (`src/commands.rs:88-94`): `Commands.SanitiseEscapesEach`, `Commands.SanitiseAppend`, `Commands.SanitiseChar`.
- `Commands.DownloadRequest` (`src/commands.rs:197-257`): `Commands.DownloadCommands`.
- `Pipeline.Decide` (`src/worker.rs:117-200`): `Pipeline.HandleTaskInternal`, `Pipeline.WrongFileCountFails`, `Pipeline.TranscodeOnlyWithinLimits`, `Pipeline.OversizeFails`, `Pipeline.FallbackStillCappedAtMax`, `Pipeline.QualityGate`, `Pipeline.UnprobedFileIsNotCapped`, `Pipeline.ReductionIsBounded`.
- `Pipeline.BitrateTooLow` (`src/worker.rs:180-186`): `Pipeline.QualityGate`, `Pipeline.ZeroBitrateNeverRejected`.
- `Worker.Size` (`src/worker.rs:52-54`): `Worker.Reserve`, `Worker.Enqueue`, `Worker.Begin`, `Worker.Finish`, `Worker.AdmissionsCountOnce`, `Worker.SizeAsWritten`.
- `Tasks.Debug` (`src/task.rs:21-35`): `Tasks.DebugHidesHandles` and its converse `Tasks.DebugShowsFields`.
- `LegacyUtils.HostKey` (`src/utils.rs:70-92`): `LegacyUtils.HostKeySuffix`, `LegacyUtils.LastTwoLabels`, `LegacyUtils.TwoLabels`.
- `LegacyMain.SkipToFallback` (`src/main.rs:278-296`): `LegacyMain.SkipOnlyBelowOriginal`, `LegacyMain.NoSkipWithinBudget`, and `LegacyMain.ConvertWithFallback` for what a skip does.

## Left out

- `src/bot.rs` entirely: dispatcher construction and error-handler wiring.
- Subprocesses (yt-dlp and youtube-dl, ffmpeg, ffprobe, the thumbnail extractor): each is an input saying what it answered. The current revision's `utils::download` and `utils::ffprobe` are not part of this model. Building a `Probe` from ffprobe output (`src/utils.rs:152-192`) is left out because it is a foreign library.
- Telegram calls (`send_message`, `send_video`, `delete_message`) and `commands.rs::handle_answer`: these are network I/O. The older handler records only its messages (texts and the bitrate warning) and where it stopped; the video upload itself is not a recorded reply. The "original poster" caption, the reply-to choice and the message deletions are not modelled.
- Filesystem work: temporary directories, `read_dir`, file metadata. The file count and byte size are inputs. The `remove_file(..).unwrap()` calls in `src/main.rs:323` and `:332` panic when a failed conversion left no output file behind; this is not modelled.
- `random_string` is randomness: the output file name is an input.
- `linkify` and `Url::parse` are foreign libraries: the links of a message and their hosts are inputs. The current revision's URL finder that produces `URLsFound` is not part of this model; `Commands` takes it as a function.
- Reading environment variables: each variable is an `Option<string>` input. Non-Unicode values count as unset.
- Concurrency: each critical section is one method body. The tokio `select!`, the oneshot channel and the async mutexes are not modelled. The worker loop is a finite sequence of iterations. Interleavings of concurrent handlers in the older revision are not modelled: `LegacyMain.Dispatch` runs one update at a time.
- Floating-point texts: the percentage in the bitrate warnings (`src/commands.rs:317-325`, `src/main.rs:283-290`, `src/main.rs:401-415`) is not modelled. The warnings themselves are modelled with the two bitrates they carry: the caption in `Commands` and the reply in `LegacyMain.Handler`.
- Pipeline.MaxBitrate: idealises the `f64` computation as exact rational arithmetic; `f64` rounding near integer boundaries can differ by one.
- Pipeline.Cutoff: idealises `original · 0.85` in `f64` as exact; where the `f64` product falls just below an integer the source can be one lower.
- LegacyMain.FallbackBitrate: idealises the `f64` computation in the same way as `Pipeline.MaxBitrate`.
- LegacyMain.SkipToFallback: the ratio test is exact rational arithmetic. The zero-bitrate case follows `f64` (an infinite or NaN ratio never skips).
- Env.FallbackFilesize: does not model the `u64` overflow of `5 × MAX_FILESIZE` for limits above u64::MAX / 5.
- Worker.PushAsWritten: models the release build, where the `usize` decrement wraps. A debug build panics instead.
- LegacyMain.EntryThenExitRestores: holds only below u32::MAX, where the `as u32` cast wraps (see `LegacyMain.EntryWrapsAtMax`).
- Manager.TaskManager.Start: a second `start` would spawn a second loop on the same queue; the model has one loop.
- Ytdl.download and the other download helpers: subprocesses, as above.

## Findings

| source | as written | input that shows it | evidently intended | confidence | as-written member | corrected member |
|---|---|---|---|---|---|---|
| src/worker.rs:74 | The only caller reads `get_queue_size` (`src/commands.rs:241`) and calls `enqueue_task` (`src/commands.rs:303`) without a `tentative_enqueue`. So `push` decrements a `tentative` that is still 0, and the `usize` size sum (`src/worker.rs:52-54`) wraps as well. | The first request to a fresh bot (release build; a debug build panics): `tentative` goes from 0 to 2⁶⁴−1, and the size still reads 0 while that task is queued or in flight, so the next user is also told the queue is empty. Once the task is done the size reads 2⁶⁴−1. Later unreserved pushes are never counted. | Reserve with `tentative_enqueue`, report that position, then enqueue. The size grows by exactly one per task. | high; not executed | Worker.UnreservedPushUnderflows | Worker.AdmissionsCountOnce |
| src/worker.rs:92-93 | The loop's `pop` completes outside the state lock, and `is_busy` is set only afterwards. | Queue `[t]`, worker idle: a `get_queue_size` between the pop and the flag returns 0 while `t` is in flight. | Take the task and mark the worker busy in one critical section, so the size stays the same until the task completes. | low (the window is a few instructions); not executed | Worker.PopWindowUndercounts | Worker.InFlightCountedOnce |
