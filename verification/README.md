# Terabox-Drive bot core in Dafny

A verified Dafny model of the core of a Telegram download bot. The bot takes links from
Google Drive, Terabox and other sites out of users' messages. It queues one task per link for
each user and runs a consumer loop that downloads and uploads the tasks one by one. At the
end it sends a summary of the batch.

The model covers four parts of the bot:

- **`Queue`** (`queue_manager.dfy`): the per-user queue manager.
  - `Task` is a class whose status and file name change in place.
  - `QueueManager` is a class with the same five fields as the Python one: pending FIFO per
    user, history list per user, active-task slot, cancelled-user set and processing flag.
  - Every manager operation is a method with a `modifies` frame that keeps `Valid()`: every
    pending task of a user is in that user's history, and a history holds only its user's
    tasks.
  - A missing dictionary key reads as empty, `None` or `False`, as the `defaultdict`s do.
- **`LinkHandler`** (`link_handler.dfy`):
  - the message filter;
  - the part of `process_links` that turns a message into queued tasks and counts the daily
    usage;
  - the per-user consumer loop `process_queue`.

  What one task meets outside the bot is an input to the consumer loop, one `Step` per
  dequeued task. A `Step` holds the download/upload outcome and the `/cancel` button pressed
  while the task ran, if any.
- **`Helpers`** (`helpers.dfy`): extension and file-type classification, filename
  sanitising, Google Drive id extraction, the link classifiers, the URL scanner of
  `extract_links_from_text` and the summary headline.
- **`Downloder`** (`downloder.dfy`):
  - Terabox share-id extraction and URL normalisation;
  - the Content-Type table;
  - the magic-byte classifier over the first 32 bytes of a file;
  - the validation verdict;
  - the two extension fixes;
  - the unique-path loop;
  - the Terabox folder test.

  The network and file-system answers are parameters.

Two support modules hold the Python built-ins the code relies on:

- **`Text`** (`text.dfy`): ASCII `lower`, `strip`, `rfind`, substring tests, `os.path.splitext`
  and decimal formatting.
- **`Patterns`** (`patterns.dfy`): the regular expressions of the form
  `marker([A-Za-z0-9_-]+)` with `re.search` semantics, as hand-written scanners.

Regular expressions are modelled by scanners that find the leftmost match, as `re.search`
and `re.findall` do. `lower()` and `\s` are modelled on ASCII.

## Model

| member | source | states |
|---|---|---|
| Queue.Task.constructor | utils/queue_manager.py:10-22 | A new task has the given ids and the dataclass defaults: file name "Unknown", status queued, progress 0, no message id. |
| Queue.CountsAddUp | utils/queue_manager.py:167-177 | Each status is exactly one of completed, failed, cancelled and pending (queued, downloading, uploading), so the four counts add up to the length of the list. The "finished" count of `get_queue_position` is the sum of the first three. |
| Queue.PendingTasksMembers | utils/queue_manager.py:73-75 | A task is in the comprehension of `get_user_tasks` exactly when it is in the history and still queued, downloading or uploading. |
| Queue.CancelPendingIn | utils/queue_manager.py:120-122 | Every task of the list that was still pending is now cancelled. Every finished task keeps its status. |
| Queue.NoPendingTasks | utils/queue_manager.py:73-75 | A history with no pending task gives an empty `get_user_tasks`. |
| Queue.FirstWithId | utils/queue_manager.py:136-139 | The index `mark_completed` stops at is the first history entry with the id. There is none exactly when no entry carries the id. |
| Queue.FirstWithOwnId | utils/queue_manager.py:136-139 | With distinct ids, `mark_completed` on a task's own id reaches that task. |
| Queue.OfUserMembers | utils/queue_manager.py:44-50 | The tasks that a batch adds to a user are exactly the batch's tasks that carry that user's id. |
| Queue.QueueManager.constructor | utils/queue_manager.py:25-31 | A new manager has no queues, active tasks, histories, cancelled users or processing flags, and it satisfies the invariant. |
| Queue.QueueManager.AddTask | utils/queue_manager.py:33-42 | The task goes to the end of its owner's history and FIFO, and the answer is true. No other user's lists, no active slot, no cancel flag and no processing flag change. The invariant is kept. |
| Queue.QueueManager.AddMultipleTasks | utils/queue_manager.py:44-50 | Every user's history and FIFO grow by that user's tasks of the batch, in batch order. The returned count is the number of tasks added, which is the batch length. |
| Queue.QueueManager.GetNextTask | utils/queue_manager.py:52-63 | On an empty FIFO it returns nothing and changes nothing. Otherwise it returns the FIFO head, removes it from the FIFO and installs it in the active slot. The returned task is in the user's history and belongs to that user, so tasks come out in the order they were added. |
| Queue.QueueManager.Active | utils/queue_manager.py:69-71 | `get_current_task`: the user's active task, or nothing for a user without an entry in the active-task map. |
| Queue.QueueManager.SetCurrentTask | utils/queue_manager.py:65-67 | The active slot of the user holds the task, and nothing else changes. |
| Queue.QueueManager.GetUserTasks | utils/queue_manager.py:73-75 | The result holds exactly the history tasks that are queued, downloading or uploading. |
| Queue.QueueManager.GetQueueSize | utils/queue_manager.py:77-79 | The size is the number of tasks in the user's FIFO, so it is zero exactly when the FIFO is empty. |
| Queue.QueueManager.GetStats | utils/queue_manager.py:167-177 | total = completed + failed + cancelled + pending, and total is the history length. |
| Queue.QueueManager.GetTotalTasks | utils/queue_manager.py:81-83 | The number of tasks `get_user_tasks` lists is the pending count of `get_stats`. |
| Queue.QueueManager.GetQueuePosition | utils/queue_manager.py:85-90 | The first component counts the finished tasks of `get_stats` plus one, and the second is the stats total. So 1 ≤ position ≤ total + 1. |
| Queue.QueueManager.CancelCurrentTask | utils/queue_manager.py:92-98 | The answer is true exactly when a task is active. In that case the active task is now cancelled and the user joins the cancelled set. With no active task the set is unchanged. In both cases the active slot, FIFO, history and processing flag stay as they were. |
| Queue.QueueManager.CancelAllTasks | utils/queue_manager.py:100-124 | Afterwards the user is cancelled, the FIFO is empty and `get_user_tasks` is empty. The count is one for an occupied active slot (whatever its status) plus the number of tasks drained from the FIFO. The active task and the drained tasks are cancelled, other pending history tasks are cancelled, and finished ones keep their status. The active slot and history stay. |
| Queue.QueueManager.DrainCancelling | utils/queue_manager.py:111-117 | The drain loop cancels every task that was in the FIFO, empties the FIFO, touches no other history task, and counts the tasks it took. |
| Queue.QueueManager.IsCancelled | utils/queue_manager.py:126-128 | True exactly when the user is in the cancelled set. |
| Queue.QueueManager.ClearCancelled | utils/queue_manager.py:130-132 | The user is no longer cancelled, and nothing else changes. |
| Queue.QueueManager.MarkCompleted | utils/queue_manager.py:134-142 | The first history task with the id becomes completed or failed, even when it was cancelled. No other task changes. The active slot is freed only when it holds that id. Starting from a state where this already holds, it changes nothing, so a second identical call has no effect. |
| Queue.QueueManager.ClearUserTasks | utils/queue_manager.py:144-157 | Afterwards the history and FIFO are empty, there is no active task and the user is not cancelled. Other users and the processing flag are untouched. |
| Queue.QueueManager.IsProcessing | utils/queue_manager.py:159-161 | The user's processing flag, and false for a user whose flag was never set, as `get(user_id, False)` gives. |
| Queue.QueueManager.SetProcessing | utils/queue_manager.py:163-165 | The user's processing flag is the given value, and nothing else changes. |
| LinkHandler.LinkFilterIgnoresCase | handlers/link_handler.py:25-36 | The filter gives the same answer for a message and its lower-cased form. |
| LinkHandler.MessagesWithLinksPassFilter | handlers/link_handler.py:25-36 | Every message from which the scanner extracts a link passes the filter, so the handler sees every message it could act on. |
| LinkHandler.FilterMembers | handlers/link_handler.py:101-104 | The supported-link loop keeps exactly the links that one of the three tests accepts. |
| LinkHandler.Supported | handlers/link_handler.py:101-104 | A link is in the result exactly when it is among the message's links and is accepted by `is_gdrive_link`, `is_terabox_link` or `is_direct_link`. |
| LinkHandler.SelectSupported | handlers/link_handler.py:101-104 | The loop computes the supported links in message order. |
| LinkHandler.ExtractedLinksAreKept | handlers/link_handler.py:95-113 | Filtering the extracted links removes nothing, so the "no supported links" reply cannot follow a message with links. |
| LinkHandler.TopicOf | handlers/link_handler.py:63-66 | A task gets a topic only in a group and only for a set, non-zero thread id, and then it is that id. |
| LinkHandler.CreateTasks | handlers/link_handler.py:120-130 | One new task per link, in link order. Each task has the link, the user, the drawn id, the chat, topic and reply ids, status queued and file name "Unknown". |
| LinkHandler.CountUsage | handlers/link_handler.py:139-141 | Premium users are not counted. Otherwise the counter grows by min(added, remaining), or by nothing when that is negative. So the growth is at most the number added and at most what remains. |
| LinkHandler.ProcessLinks | handlers/link_handler.py:56-160 | It answers in check order: banned, then not subscribed (private chats only), then over the daily limit, then no links. "No supported links" and "add failed" are never the answer. Otherwise every extracted link becomes a queued task for the user, in link order, with the thread id as its topic only in groups. The tasks are appended to the user's history and FIFO, the reply counts them and gives the queue position, and usage grows by at most that count (not for premium users). A consumer loop is started exactly when none is running. When no task is added, nothing changes. |
| LinkHandler.AcceptLinks | handlers/link_handler.py:120-149 | For a non-empty list of supported links, the created tasks are appended to the user's history and FIFO, the reply counts them, and the usage and start decisions follow `process_links`. |
| LinkHandler.EnqueueLinks | handlers/link_handler.py:120-133 | The created tasks, one per link in link order, are appended to the end of the user's history and FIFO, and the count of added tasks is the number of links. |
| LinkHandler.OwnTasksOnly | handlers/link_handler.py:133-136 | Adding a message's tasks adds all of them to the sender's own lists. |
| LinkHandler.ReportsAreTyped | handlers/link_handler.py:309-320 | Every success that `process_single_task` reports carries a file type. |
| LinkHandler.ProcessSingleTask | handlers/link_handler.py:237-337 | The task is marked downloading, whatever its status was. It records the file name once the file is known and is marked uploading before the upload. It reports success, with the type of the file's extension, only when the upload succeeded. The directory exception leaves the task untouched and propagates. |
| LinkHandler.AwaitTask | handlers/link_handler.py:200 | A cancel pressed while a task runs sets the cancel flag, and "cancel all" also empties the FIFO. Neither frees the active slot. Finished tasks other than the running one keep their status. |
| LinkHandler.TallyTotalStep | handlers/link_handler.py:204-205 | Counting one more file of a type adds one to the sum of the `file_types` counts. |
| LinkHandler.ResultsUpTo | handlers/link_handler.py:185-209 | After k tasks that returned, `total` is k. |
| LinkHandler.ResultsAddUp | handlers/link_handler.py:185-209 | After every task, total = success + failed, and the `file_types` counts add up to `success`. |
| LinkHandler.RunTask | handlers/link_handler.py:200-209 | One task runs and `mark_completed` is called with its result. A task that returned ends completed or failed as it reported, even when it was cancelled meanwhile. The cancel flag is set exactly when a cancel was pressed, and only "cancel all" empties the FIFO. An exception skips `mark_completed`. Other users are untouched. |
| LinkHandler.EarlierNotLater | handlers/link_handler.py:181-183 | With distinct ids, a task taken from the FIFO is not among the tasks still waiting. |
| LinkHandler.RunNext | handlers/link_handler.py:181-209 | One loop iteration after a clear cancel flag. On an empty FIFO the loop ends with the counters unchanged. Otherwise the next task of the original FIFO is taken, `total` grows before it runs, and `success`, `failed` and `file_types` grow after it returns. |
| LinkHandler.RunDequeued | handlers/link_handler.py:185-209 | The counters after the dequeued task agree with the reports of every task so far. When it raised, only `total` counts it. |
| LinkHandler.ResultsAfterReport | handlers/link_handler.py:202-209 | The update of `results` after a task is one step of the reference count of reports. |
| LinkHandler.ProcessQueue | handlers/link_handler.py:162-235 | On every exit the processing flag is false and the user's history, FIFO, active slot and cancel flag are cleared. A cancel flag already set at the start means no task is taken. Tasks are taken in FIFO order. A cancel or an exception ends the batch after the task it hit, and without either the whole FIFO is processed. The summary is made from counters that agree with the reports, and no summary follows an exception. Every task that returned ends completed or failed as it reported. |
| LinkHandler.ConsumeQueue | handlers/link_handler.py:173-231 | The `while True` loop ends in `Consumed`. A set flag stops it before any task, a cancel or an exception stops it after the task it hit, and otherwise it takes the whole FIFO. Its counters cover every task, and the one that raised only in `total`. |
| LinkHandler.ConsumeStep | handlers/link_handler.py:176-209 | One iteration either keeps the loop state `Consuming` with a shorter FIFO, or ends it in `Consumed`. |
| LinkHandler.ConsumedOnCancel | handlers/link_handler.py:176-178 | Seeing the cancel flag at the loop head ends the loop without taking a task. |
| LinkHandler.ConsumedWhenEmpty | handlers/link_handler.py:181-183 | An empty FIFO after the whole batch ends the loop normally. |
| LinkHandler.ConsumedOnRaise | handlers/link_handler.py:226-231 | An exception out of a task ends the loop, and that task is counted only in `total`. |
| LinkHandler.ConsumingNext | handlers/link_handler.py:181-209 | A task that returned keeps the loop invariant and shortens the FIFO. |
| LinkHandler.FinishQueue | handlers/link_handler.py:233-235 | The `finally` block clears the processing flag and the user's queue state, and it leaves the tasks' final statuses alone. |
| Helpers.GetFileExtension | utils/helpers.py:47-55 | The result is "" or a lower-case dot-first string of at most six characters with no other dot, and then it is a suffix of the lower-cased name. It is non-empty exactly when the name has a dot within its last six characters. |
| Helpers.GetFileType | utils/helpers.py:57-81 | The empty extension is a document. Video is returned exactly for the video list and pdf exactly for ".pdf". A document is in none of the lists. |
| Helpers.GetFileTypeIgnoresCase | utils/helpers.py:62 | The type ignores the case of the extension. |
| Helpers.AudioExtensionsAreAudio | utils/helpers.py:65-71 | Every audio extension is classified audio. |
| Helpers.ImageExtensionsAreImages | utils/helpers.py:66-73 | Every image extension is classified image. |
| Helpers.ArchiveExtensionsAreArchives | utils/helpers.py:78-79 | Every archive extension is classified archive. |
| Helpers.ReplaceAll | utils/helpers.py:93-95 | Replacing each invalid character in turn puts '_' exactly where an invalid character was. |
| Helpers.ReplaceAllRemoves | utils/helpers.py:93-95 | After the replacements no invalid character is left. |
| Helpers.StripKeepsValid | utils/helpers.py:97 | Stripping cannot bring an invalid character back. |
| Helpers.Shorten | utils/helpers.py:99-101 | The cut keeps the extension and a prefix of the stem. The result is 200 characters when the extension fits, and the stem is cut from the end (Python's negative slice) otherwise. |
| Helpers.ShortenKeepsValid | utils/helpers.py:99-101 | The cut cannot bring an invalid character back. |
| Helpers.SanitizeFilename | utils/helpers.py:83-103 | The result is never empty and contains none of the invalid characters (angle brackets, colon, double quote, both slashes, the vertical bar, question mark, asterisk, NUL, LF, CR, TAB). An empty name or an empty cleaned name gives "downloaded_file". A cleaned name of at most 200 characters is returned as is. A longer one is cut to 200 characters keeping its extension and its leading characters when the extension fits. |
| Helpers.ExtractGdriveId | utils/helpers.py:105-118 | The result is the capture of the first of the four patterns that matches, and it is a non-empty `[A-Za-z0-9_-]` run. It is none exactly when none of the four matches. |
| Helpers.OpenIdPatternIsShadowed | utils/helpers.py:107-112 | The fourth pattern never decides: `id=` matches wherever `open?id=` does. |
| Helpers.IsDirectLink | utils/helpers.py:134-166 | Every http/https link, every Google Drive link and every Terabox link is supported. |
| Helpers.KnownHostsAreSupported | utils/helpers.py:14-45 | Every Google Drive and Terabox host is on the platform list. |
| Helpers.HostTestsIgnoreCase | utils/helpers.py:120-132 | The Google Drive and Terabox host tests ignore case. |
| Helpers.UrlBodyAt | utils/helpers.py:170 | The pattern matches at a position only after "https://" or "http://" followed by a URL character. |
| Helpers.LinkAt | utils/helpers.py:170-171 | A match runs from its scheme to the end of the URL characters that follow: a whole link that cannot be extended. |
| Helpers.LinkSpansValid | utils/helpers.py:170-171 | Every span the scan finds is a whole link after the scan start, and the spans are in order and do not overlap. |
| Helpers.StripNonEmptyKeepsLinks | utils/helpers.py:172 | The comprehension leaves a list of links unchanged. |
| Helpers.FindLinkSpansComplete | utils/helpers.py:170-171 | No match is skipped: every position where the pattern matches lies inside one of the spans the scan finds. |
| Helpers.ExtractLinksFromText | utils/helpers.py:168-172 | Every result starts with http:// or https://, is longer than its scheme and holds only URL characters. The results are the texts of the successive non-overlapping matches, in text order. Every position where the pattern matches lies inside one of those matches, so `findall` misses none. |
| Helpers.ExtractedLinksAreSupported | utils/helpers.py:134-172 | Every extracted link is supported and direct. |
| Helpers.GenerateSummary | utils/helpers.py:222-262 | "All completed" exactly when success = total > 0. "Some issues" exactly when 0 < success ≠ total. "All failed" exactly when there is no success. The file-type section appears exactly when `file_types` is non-empty. |
| Downloder.ExtractTeraboxSurl | utils/downloder.py:29-44 | The result is the capture of the first of the six patterns that matches, and it is a non-empty `[A-Za-z0-9_-]` run. It is none exactly when no pattern matches. |
| Downloder.SharingPatternsAreShadowed | utils/downloder.py:31-38 | The fifth and sixth patterns never decide: `[?&]surl=` matches wherever they do. |
| Downloder.SurlQueryShadows | utils/downloder.py:32-37 | A match of a `...?surl=` marker is a match of `[?&]surl=`. |
| Downloder.CleanSurl | utils/downloder.py:50 | An id of at most 20 characters is kept. A longer one loses exactly its leading '1's. |
| Downloder.NormalizeTeraboxUrl | utils/downloder.py:46-52 | With a share id, the result is the canonical share link followed by the cleaned id. Without one, the link is returned unchanged. |
| Downloder.NormalizedUrlKeepsSurl | utils/downloder.py:29-52 | Extracting the id from a normalised link gives back the cleaned id. |
| Downloder.NormalizeIsIdempotent | utils/downloder.py:46-52 | Normalising twice is normalising once (unless the id is all '1's). |
| Downloder.ShareUrlSurl | utils/downloder.py:29-44 | The share id of `https://www.terabox.com/s/1<id>` is `<id>`. |
| Downloder.BeforeParams | utils/downloder.py:72 | `split(';')[0]` is the prefix before the first ';'. |
| Downloder.GetExtensionFromContentType | utils/downloder.py:54-73 | A known media type gives its table entry, and anything else gives "". |
| Downloder.ContentTypeIgnoresParameters | utils/downloder.py:72 | Parameters after ';' do not change the answer. |
| Downloder.ContentTypeIgnoresPadding | utils/downloder.py:72 | Whitespace around the media type does not change the answer. |
| Downloder.ContentTypeIgnoresCase | utils/downloder.py:72 | The answer ignores case. |
| Downloder.ContentTypeGivesKnownExtension | utils/downloder.py:56-73 | The answer is "" or a short lower-case extension that the bot files under a type other than document. |
| Downloder.Take | utils/downloder.py:82-114 | Python's `h[:n]` is a prefix of length min(n, len(h)). |
| Downloder.LowerBytes | utils/downloder.py:118 | `bytes.lower()` lowers exactly the ASCII capitals. |
| Downloder.DetectFileType | utils/downloder.py:75-123 | The answer is one of the fifteen listed extensions or none. An `ftyp` tag in the first twelve bytes gives ".mp4" before any other test. |
| Downloder.AviDetection | utils/downloder.py:82-87 | ".avi" is reported exactly for a RIFF header with an AVI tag and no `ftyp` in the first twelve bytes. |
| Downloder.WavDetection | utils/downloder.py:82-97 | ".wav" is reported exactly for a RIFF header with a WAVE tag and no `ftyp` in the first twelve bytes. |
| Downloder.HtmlDetection | utils/downloder.py:117-119 | ".html" is reported exactly when the header looks like HTML and matches no file signature. So a header with an "ftyp" tag is never reported as HTML. |
| Downloder.ValidateDownload | utils/downloder.py:125-142 | The download is accepted exactly when the file exists, has at least 1000 bytes and is not classified as HTML, and exactly then the message is "OK". Each rejection carries its own message. |
| Downloder.Mp4DownloadsAreValid | utils/downloder.py:82-140 | A large enough file that starts like an MP4 is always accepted. |
| Downloder.FixMissingExtension | utils/downloder.py:184-188 | A name without an extension, or with one longer than five characters, takes the Content-Type's extension when the table knows it. Otherwise the name is unchanged. |
| Downloder.FixMissingExtensionIsIdempotent | utils/downloder.py:184-188 | For a name whose stem's last component is not made of dots only, applying the fix a second time changes nothing. |
| Downloder.FixMissingExtensionTwiceOnEmptyName | utils/downloder.py:184-188 | Without that condition the fix is not idempotent. For a Content-Type the table maps to an extension `e`, the empty name becomes `e` and then `e + e`, for example ".mp4.mp4". |
| Downloder.ExtensionAfterDetection | utils/downloder.py:217-227 | The path is renamed to stem + detected extension exactly when a non-HTML type was detected and the lower-cased extension differs. |
| Downloder.DetectionFixesExtension | utils/downloder.py:217-227 | For a path whose stem's last component is not made of dots only, after the rename the lower-cased extension of the path is the detected one. |
| Downloder.NumberedPathsDiffer | utils/downloder.py:196 | Different counters give different candidate paths. |
| Downloder.UniqueFilePath | utils/downloder.py:193-197 | The result does not exist. It is the path itself when that is free. Otherwise it is `base_N ext` for the smallest N ≥ 1 whose path does not exist. The loop ends for every finite set of existing paths. |
| Downloder.NumberedPathFits | utils/downloder.py:195-197 | An existing numbered path has a number below ten to the length of the longest existing path, which bounds the loop. |
| Downloder.FolderAnswer | utils/downloder.py:377-382 | The answer is the marked link "TERABOX_FOLDER:" + url exactly when the link is a folder: "filelist", or "path=" without "path=%2f", in the lower-cased link. |
| Downloder.FolderTestIgnoresCase | utils/downloder.py:377-378 | The folder test ignores case. |
| Downloder.RootPathIsNoFolder | utils/downloder.py:378 | A root-path link is not a folder unless it says "filelist", although it contains "path=". |
| Patterns.Search | utils/helpers.py:115 | `re.search` of `marker([A-Za-z0-9_-]+)`: it finds nothing exactly when no position matches. Otherwise it gives the greedy non-empty id run at the first match. |
| Patterns.FirstMatch | utils/helpers.py:114-118 | The result is none exactly when every pattern finds nothing, and otherwise it is an id run. |
| Patterns.SearchInOrder | utils/downloder.py:40-44 | The first-match loop returns the capture of the first pattern that matches. |
| Patterns.FirstMatchDecidedEarly | utils/downloder.py:40-43 | Patterns after the first one that matches are never consulted. |
| Text.SplitExt | utils/downloder.py:184 | `os.path.splitext`: stem + extension is the path, and the extension is empty or a dot followed by neither a dot nor '/'. |
| Text.SplitExtRule | utils/downloder.py:184 | Where `os.path.splitext` splits: a non-empty extension starts at the last '.', which lies in the last path component. The extension is empty exactly when every '.' of the last component has only dots before it in that component. |
| Text.SplitExtBareExtension | utils/downloder.py:184 | A name that is only a dot and an extension splits into itself and no extension. |
| Text.SplitExtAppend | utils/downloder.py:186-188 | Appending an extension to a proper stem splits back into that stem and extension. |
| Text.NatToStringInjective | utils/downloder.py:196 | Different counters print differently. |
| Text.LStrip | utils/downloder.py:50 | `lstrip` removes exactly the leading characters of the set. |
| Text.Strip | utils/helpers.py:97 | The result is a slice of the input, everything before and after it is in the stripped set, and the result begins and ends outside that set. So exactly the set's characters at both ends are removed. |
| Text.Lower | utils/helpers.py:123 | ASCII `lower()` keeps the length and lowers each character. |
| Text.LowerIsLower | utils/helpers.py:123 | Lowering gives lower-case text, and lowering twice is lowering once. |
| Text.StripLower | utils/downloder.py:72 | Stripping whitespace commutes with lowering. |

## Left out

- Network I/O is not part of this model. This covers the Terabox APIs, page scraping, the
  `requests`/`aiohttp` downloads and the Telegram calls, including status-message edits,
  pins and replies.
- utils/downloader.py (which the handler actually imports), utils/uploader.py,
  utils/thumbnail.py and handlers/cancel.py are not part of this model.
- File-system and database answers are parameters:
  - existence, size and header bytes of a file;
  - the set of existing paths;
  - ban, subscription, limit, premium and usage values.
- `read_txt_file`, `create_download_dir` and `cleanup` are not modelled. Only the exception
  of `create_download_dir` is kept, as the `DirFailed` outcome.
- `get_readable_file_size` is left out because it is float formatting.
- The decorative text of `generate_summary`, including emojis and per-type lines, is left out.
- Concurrency: each `QueueManager` method is one atomic step.
  - At most one `/cancel` lands while a task runs, after the task's own status updates.
  - Tasks added by another message while the consumer loop runs are not modelled.
  - The unused `locks` map is omitted.
  - The check-then-set gap between the processing test and `set_processing` is not modelled.
- `uuid4` ids are a parameter `newId`, and `created_at` is omitted.
- `urllib.parse.unquote` is a parameter of `SanitizeFilename`.
- The Content-Disposition regex and the network-provided file names are left out.
- Helpers.UrlPath simplifies `urlparse` in three ways.
  - `;params` are not split off the path.
  - Tab, CR and LF are not removed, and leading control characters and spaces are not stripped. So `"x.mp\t4"` is supported in the source and not in the model.
  - An unbalanced '[' or ']' in the network location does not raise `ValueError`. In the source, the bare `except` turns that error into a fall-through to the http test, so `"//[a/b.mp4"` is not supported there but is supported in the model. The handler passes only http/https links, which the http test accepts either way.
- `lower()` and `\s` are ASCII only.
- Queue.QueueManager.AddTask: the `except` path that returns `False` is not modelled, because appending to a list and to an unbounded `asyncio.Queue` cannot raise.
- Queue.QueueManager.GetNextTask: the `except` path is not modelled, because `get` on a non-empty queue cannot raise.
- Downloder.ValidateDownload: the `except` path that returns the exception text is not modelled, because the file-system answers are inputs.
- Downloder.ExtensionAfterDetection: a failing `os.rename`, which keeps the old path, is not modelled.
- LinkHandler.ProcessQueue: the statements about tasks' final statuses assume distinct task ids (uuid4), because `mark_completed` stops at the first task with the id.
- LinkHandler.ProcessLinks: the "add failed" reply cannot occur, since `add_task` cannot fail.
- LinkHandler.ProcessQueue: `taken` (the number of tasks the loop dequeued) is a ghost out-parameter of `ProcessQueue`, not a value the bot exposes.
- Downloder.FixMissingExtensionIsIdempotent holds only for names whose stem's last component is not made of dots only. The source's fix is not idempotent otherwise: `os.path.splitext(".mp4")` has no extension, so "" becomes ".mp4" and then ".mp4.mp4" (`FixMissingExtensionTwiceOnEmptyName`).
- Downloder.DetectionFixesExtension has the same condition on the path's stem. For the empty path, or one ending in '/', the rename appends ".mp4" (say) to an empty last component, and `splitext` of the result still has no extension.
- Downloder.NormalizeIsIdempotent and Downloder.CleanSurlIsIdempotent exclude share ids made only of '1's, which cleaning would empty.
