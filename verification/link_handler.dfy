/** The message handler of the bot (handlers/link_handler.py): the filter that selects
    messages with links, the part of `process_links` that turns the links of a message into
    queued tasks and counts them against the daily allowance, and the per-user consumer loop
    `process_queue`. Downloading and uploading are not modelled: what `process_single_task`
    gets back from the network is an input of the model (a `TaskOutcome` per task), and the
    `/cancel` buttons a user may press while a task runs are another input (a
    `CancelRequest` per task). */
module LinkHandler {
  import opened Text
  import opened Helpers
  import opened Queue

  // ---------------------------------------------------------------------------
  // Message filter
  // ---------------------------------------------------------------------------

  const FilterMarkers: seq<string> := ["drive.google.com", "terabox", "http://", "https://"]

  /** `link_filter`: a message without text is rejected; otherwise its lower-cased text must
      contain one of the markers. */
  predicate LinkFilter(text: Option<string>) {
    text.Some? && text.value != "" && ContainsAny(Lower(text.value), FilterMarkers)
  }

  /** The filter does not depend on the case of the message. */
  lemma LinkFilterIgnoresCase(text: string)
    ensures LinkFilter(Some(Lower(text))) == LinkFilter(Some(text))
  {
    LowerIsLower(text);
  }

  /** Every message in which the link scanner finds a link passes the filter, so no link the
      handler could use is lost to the filter. */
  lemma MessagesWithLinksPassFilter(text: string)
    requires ExtractLinksFromText(text) != []
    ensures LinkFilter(Some(text))
  {
    var scheme := SchemeOccurs(text);
    SchemesAreLower();
    ContainsLowered(text, scheme);
    assert scheme in FilterMarkers;
  }

  lemma SchemesAreLower()
    ensures Lower("http://") == "http://" && Lower("https://") == "https://"
  {
    LowerOfLower("http://");
    LowerOfLower("https://");
  }

  /** A found link puts its scheme into the text. */
  lemma SchemeOccurs(text: string) returns (scheme: string)
    requires ExtractLinksFromText(text) != []
    ensures scheme == "http://" || scheme == "https://"
    ensures Contains(text, scheme)
  {
    var spans := FindLinkSpans(text, 0);
    var link := ExtractLinksFromText(text)[0];
    var (a, b) := spans[0];
    assert link == text[a..b] && IsLink(link);
    scheme := if IsPrefix("http://", link) then "http://" else "https://";
    PrefixOfSlice(text, a, b, scheme);
    ContainsAt(text, scheme, a);
  }

  lemma PrefixOfSlice<T>(s: seq<T>, a: nat, b: nat, p: seq<T>)
    requires a <= b <= |s| && IsPrefix(p, s[a..b])
    ensures IsPrefix(p, s[a..])
  {
    assert s[a..][..|p|] == s[a..b][..|p|];
  }

  /** A lower-case piece of a text is a piece of the lower-cased text. */
  lemma ContainsLowered(s: string, sub: string)
    requires Lower(sub) == sub && Contains(s, sub)
    ensures Contains(Lower(s), sub)
  {
    var i := ContainsWitness(s, sub);
    LowerSlice(s, i, i + |sub|);
    assert Lower(s)[i..][..|sub|] == Lower(s)[i..i + |sub|];
    assert s[i..i + |sub|] == sub;
    ContainsAt(Lower(s), sub, i);
  }

  // ---------------------------------------------------------------------------
  // From links to tasks
  // ---------------------------------------------------------------------------

  /** `is_gdrive_link(link) or is_terabox_link(link) or is_direct_link(link)`. */
  predicate IsKept(link: string) {
    IsGdriveLink(link) || IsTeraboxLink(link) || IsDirectLink(link)
  }

  /** The elements of `xs` that `keep` accepts, in their order. */
  function Filter<T>(xs: seq<T>, keep: T -> bool): seq<T> {
    if xs == [] then []
    else
      var init, last := xs[..|xs| - 1], xs[|xs| - 1];
      Filter(init, keep) + (if keep(last) then [last] else [])
  }

  /** `Filter` keeps exactly the accepted elements. */
  lemma {:induction false} FilterMembers<T>(xs: seq<T>, keep: T -> bool, x: T)
    ensures x in Filter(xs, keep) <==> x in xs && keep(x)
  {
    if xs != [] {
      var init, last := xs[..|xs| - 1], xs[|xs| - 1];
      assert xs == init + [last];
      FilterMembers(init, keep, x);
    }
  }

  /** A filter that accepts every element keeps the whole sequence. */
  lemma {:induction false} FilterKeepsAll<T>(xs: seq<T>, keep: T -> bool)
    requires forall n :: 0 <= n < |xs| ==> keep(xs[n])
    ensures Filter(xs, keep) == xs
  {
    if xs != [] {
      var init, last := xs[..|xs| - 1], xs[|xs| - 1];
      assert forall n :: 0 <= n < |init| ==> keep(init[n]) by {
        forall n | 0 <= n < |init| ensures keep(init[n]) {
          assert init[n] == xs[n];
        }
      }
      FilterKeepsAll(init, keep);
      assert keep(last);
      assert xs == init + [last];
    }
  }

  /** The links `process_links` keeps, in message order. */
  function Supported(links: seq<string>): (r: seq<string>)
    ensures forall l :: l in r <==> l in links && IsKept(l)
  {
    forall l ensures l in Filter(links, IsKept) <==> l in links && IsKept(l) {
      FilterMembers(links, IsKept, l);
    }
    Filter(links, IsKept)
  }

  /** The `for link in links: if ...: supported_links.append(link)` loop. */
  method SelectSupported(links: seq<string>) returns (supported: seq<string>)
    ensures supported == Supported(links)
  {
    supported := [];
    for i := 0 to |links|
      invariant supported == Filter(links[..i], IsKept)
    {
      assert links[..i + 1][..i] == links[..i];
      var link := links[i];
      if IsKept(link) {
        supported := supported + [link];
      }
    }
    assert links[..|links|] == links;
  }

  /** Every link the scanner extracts is kept: the "no supported links" answer cannot follow
      a message in which links were found. */
  lemma {:induction false} ExtractedLinksAreKept(text: string)
    ensures Supported(ExtractLinksFromText(text)) == ExtractLinksFromText(text)
  {
    var links := ExtractLinksFromText(text);
    ExtractedLinksAreSupported(text);
    assert forall n :: 0 <= n < |links| ==> IsKept(links[n]);
    FilterKeepsAll(links, IsKept);
  }

  /** The `tasks` loop of `process_links`: one fresh queued task per link, in link order, with
      the message's chat, topic and message ids. `newId(i)` stands for the `uuid4` drawn for the
      `i`-th link. */
  method CreateTasks(links: seq<string>, userId: int, chatId: int, topicId: Option<int>,
                     messageId: int, newId: nat -> string) returns (tasks: seq<Task>)
    ensures |tasks| == |links|
    ensures forall i :: 0 <= i < |tasks| ==> fresh(tasks[i])
    ensures forall i :: 0 <= i < |tasks| ==>
      tasks[i].url == links[i] && tasks[i].userId == userId && tasks[i].taskId == newId(i) &&
      tasks[i].chatId == Some(chatId) && tasks[i].topicId == topicId &&
      tasks[i].replyToId == Some(messageId) && tasks[i].status == Queued &&
      tasks[i].filename == "Unknown"
  {
    tasks := [];
    for i := 0 to |links|
      invariant |tasks| == i
      invariant forall k :: 0 <= k < i ==> fresh(tasks[k])
      invariant forall k :: 0 <= k < i ==>
        tasks[k].url == links[k] && tasks[k].userId == userId && tasks[k].taskId == newId(k) &&
        tasks[k].chatId == Some(chatId) && tasks[k].topicId == topicId &&
        tasks[k].replyToId == Some(messageId) && tasks[k].status == Queued &&
        tasks[k].filename == "Unknown"
    {
      var task := new Task(newId(i), userId, links[i], Some(chatId), topicId, Some(messageId));
      tasks := tasks + [task];
    }
  }

  /** `for _ in range(min(added, remaining)): increment_usage(user_id)` for a user who is not
      premium: the counter grows by `min(added, remaining)`, or not at all when that is
      negative; premium users are not counted. */
  method CountUsage(usage: int, isPremium: bool, added: nat, remaining: int) returns (r: int)
    ensures isPremium ==> r == usage
    ensures !isPremium ==> r == usage + (if added <= remaining then added else if remaining < 0 then 0 else remaining)
    ensures usage <= r <= usage + added
    ensures remaining >= 0 ==> r <= usage + remaining
  {
    r := usage;
    if !isPremium {
      var times: nat := if added <= remaining then added else if remaining < 0 then 0 else remaining;
      for i := 0 to times
        invariant r == usage + i
      {
        r := r + 1;
      }
    }
  }

  /** How `process_links` answers a message. */
  datatype LinkReply =
    | Banned
    | MustJoinChannel
    | LimitReached
    | NoLinks
    | NoSupportedLinks
    | AddFailed
    | Added(count: nat, position: (nat, nat))

  /** The topic of the tasks: the message's thread id in a group, when it is set and not 0
      (Python drops a falsy id); none in a private chat. */
  function TopicOf(isGroup: bool, threadId: Option<int>): (r: Option<int>)
    ensures r.Some? <==> isGroup && threadId.Some? && threadId.value != 0
    ensures r.Some? ==> r == threadId
  {
    if isGroup && threadId.Some? && threadId.value != 0 then threadId else None
  }

  /** `process_links` from the ban check to the start of the consumer loop. The database
      answers (`banned`, `subscribed`, `canUse`, `remaining`, `isPremium`) and the usage
      counter are inputs; `startQueue` says whether a new `process_queue` is started. */
  method ProcessLinks(qm: QueueManager, text: string, userId: int, chatId: int, isGroup: bool,
                      threadId: Option<int>, messageId: int, newId: nat -> string,
                      banned: bool, subscribed: bool, canUse: bool, remaining: int,
                      isPremium: bool, usage: int)
    returns (reply: LinkReply, tasks: seq<Task>, newUsage: int, startQueue: bool)
    requires qm.Valid()
    modifies qm
    ensures qm.Valid()
    ensures banned ==> reply == Banned
    ensures !banned && !isGroup && !subscribed ==> reply == MustJoinChannel
    ensures !banned && (isGroup || subscribed) && !canUse ==> reply == LimitReached
    ensures !banned && (isGroup || subscribed) && canUse && ExtractLinksFromText(text) == [] ==>
      reply == NoLinks
    ensures reply != NoSupportedLinks && reply != AddFailed
    ensures !reply.Added? ==>
      tasks == [] && newUsage == usage && !startQueue &&
      qm.queues == old(qm.queues) && qm.userTasks == old(qm.userTasks)
    ensures reply.Added? ==> |tasks| == |ExtractLinksFromText(text)| == reply.count > 0
    ensures reply.Added? ==> forall i :: 0 <= i < |tasks| ==>
      fresh(tasks[i]) && tasks[i].url == ExtractLinksFromText(text)[i] && tasks[i].userId == userId &&
      tasks[i].status == Queued && tasks[i].taskId == newId(i) && tasks[i].topicId == TopicOf(isGroup, threadId)
    ensures reply.Added? ==> reply.position == qm.GetQueuePosition(userId)
    ensures reply.Added? ==>
      qm.History(userId) == old(qm.History(userId)) + tasks &&
      qm.Queue(userId) == old(qm.Queue(userId)) + tasks
    ensures reply.Added? ==> startQueue == !qm.IsProcessing(userId)
    ensures reply.Added? && isPremium ==> newUsage == usage
    ensures reply.Added? && !isPremium ==> usage <= newUsage <= usage + reply.count
    ensures qm.activeTasks == old(qm.activeTasks) && qm.cancelledUsers == old(qm.cancelledUsers)
    ensures qm.processing == old(qm.processing)
  {
    tasks, newUsage, startQueue := [], usage, false;
    if banned {
      return Banned, tasks, newUsage, startQueue;
    }
    if !isGroup && !subscribed {
      return MustJoinChannel, tasks, newUsage, startQueue;
    }
    if !canUse {
      return LimitReached, tasks, newUsage, startQueue;
    }
    var links := ExtractLinksFromText(text);
    if links == [] {
      return NoLinks, tasks, newUsage, startQueue;
    }
    var supported := SelectSupported(links);
    ExtractedLinksAreKept(text);
    assert supported == links;
    var topicId := TopicOf(isGroup, threadId);
    reply, tasks, newUsage, startQueue :=
      AcceptLinks(qm, supported, userId, chatId, topicId, messageId, newId, remaining, isPremium, usage);
  }

  /** The part of `process_links` after the supported links are known: the `tasks` loop,
      `add_multiple_tasks`, the usage count, the check for a running consumer and the reply. */
  method AcceptLinks(qm: QueueManager, links: seq<string>, userId: int, chatId: int,
                     topicId: Option<int>, messageId: int, newId: nat -> string,
                     remaining: int, isPremium: bool, usage: int)
    returns (reply: LinkReply, tasks: seq<Task>, newUsage: int, startQueue: bool)
    requires qm.Valid() && links != []
    modifies qm
    ensures qm.Valid()
    ensures reply.Added? && reply.count == |tasks| == |links|
    ensures forall i :: 0 <= i < |tasks| ==>
      fresh(tasks[i]) && tasks[i].url == links[i] && tasks[i].userId == userId &&
      tasks[i].status == Queued && tasks[i].taskId == newId(i) && tasks[i].topicId == topicId
    ensures qm.History(userId) == old(qm.History(userId)) + tasks
    ensures qm.Queue(userId) == old(qm.Queue(userId)) + tasks
    ensures startQueue == !qm.IsProcessing(userId)
    ensures reply.position == qm.GetQueuePosition(userId)
    ensures isPremium ==> newUsage == usage
    ensures !isPremium ==> usage <= newUsage <= usage + reply.count
    ensures qm.activeTasks == old(qm.activeTasks) && qm.cancelledUsers == old(qm.cancelledUsers)
    ensures qm.processing == old(qm.processing)
  {
    var added;
    tasks, added := EnqueueLinks(qm, links, userId, chatId, topicId, messageId, newId);
    newUsage := CountUsage(usage, isPremium, added, remaining);
    startQueue := !qm.IsProcessing(userId);
    reply := Added(added, qm.GetQueuePosition(userId));
  }

  /** The `tasks` loop and `add_multiple_tasks`: the new tasks end up, in link order, at the
      end of the user's history and FIFO. */
  method EnqueueLinks(qm: QueueManager, links: seq<string>, userId: int, chatId: int,
                      topicId: Option<int>, messageId: int, newId: nat -> string)
    returns (tasks: seq<Task>, added: nat)
    requires qm.Valid()
    modifies qm
    ensures qm.Valid()
    ensures added == |tasks| == |links|
    ensures forall i :: 0 <= i < |tasks| ==>
      fresh(tasks[i]) && tasks[i].url == links[i] && tasks[i].userId == userId &&
      tasks[i].status == Queued && tasks[i].taskId == newId(i) && tasks[i].topicId == topicId
    ensures qm.History(userId) == old(qm.History(userId)) + tasks
    ensures qm.Queue(userId) == old(qm.Queue(userId)) + tasks
    ensures qm.activeTasks == old(qm.activeTasks) && qm.cancelledUsers == old(qm.cancelledUsers)
    ensures qm.processing == old(qm.processing)
  {
    tasks := CreateTasks(links, userId, chatId, topicId, messageId, newId);
    added := qm.AddMultipleTasks(tasks);
    OwnTasksOnly(tasks, userId);
  }

  /** Tasks created for one user are all that user's tasks. */
  lemma {:induction false} OwnTasksOnly(tasks: seq<Task>, u: int)
    requires forall i :: 0 <= i < |tasks| ==> tasks[i].userId == u
    ensures OfUser(tasks, u) == tasks
  {
    if tasks != [] {
      var init := tasks[..|tasks| - 1];
      assert forall i :: 0 <= i < |init| ==> init[i] == tasks[i];
      OwnTasksOnly(init, u);
      assert tasks == init + [tasks[|tasks| - 1]];
    }
  }

  // ---------------------------------------------------------------------------
  // One task
  // ---------------------------------------------------------------------------

  /** What happens to one task outside the model. `DirFailed`: `create_download_dir`, which
      runs before the `try` of `process_single_task`, raises. `DownloadFailed`: the download
      reports an error, or an exception is caught before the file is known. `Rejected`: the
      file arrived (with this base name) but is larger than the user's limit. `Uploaded`: the
      upload was attempted and succeeded or not. */
  datatype TaskOutcome =
    | DirFailed
    | DownloadFailed
    | Rejected(filename: string)
    | Uploaded(filename: string, success: bool)

  /** A `/cancel` button pressed while the task runs. */
  datatype CancelRequest = NoRequest | CancelCurrent | CancelAll

  /** What the outside world does during the `i`-th task of the loop. */
  datatype Step = Step(outcome: TaskOutcome, cancel: CancelRequest)

  /** Whether `process_single_task` reports success for an outcome. */
  predicate Succeeded(outcome: TaskOutcome) {
    outcome.Uploaded? && outcome.success
  }

  /** The `(success, file_type)` pair `process_single_task` returns for an outcome. */
  function Reported(outcome: TaskOutcome): (bool, Option<FileType>) {
    if Succeeded(outcome) then (true, Some(GetFileType(GetFileExtension(outcome.filename))))
    else (false, None)
  }

  /** The reports of the tasks of a run, in order. */
  function Reports(oracle: nat -> Step): nat -> (bool, Option<FileType>) {
    (j: nat) => Reported(oracle(j).outcome)
  }

  /** A success always comes with a file type. */
  lemma ReportsAreTyped(oracle: nat -> Step, k: nat)
    ensures Typed(Reports(oracle), k)
  {
    forall j | 0 <= j < k && Reports(oracle)(j).0
      ensures Reports(oracle)(j).1.Some?
    {
      assert Reports(oracle)(j) == Reported(oracle(j).outcome);
    }
  }

  /** Every success among the first `k` reports names a file type. */
  predicate Typed(reports: nat -> (bool, Option<FileType>), k: nat) {
    forall j :: 0 <= j < k && reports(j).0 ==> reports(j).1.Some?
  }

  /** `process_single_task`: marks the task downloading, records the file name once the file
      is known, marks it uploading before the upload, and reports success with the file's
      type only when the upload succeeded. `raised` stands for the exception of
      `create_download_dir`, which leaves the task untouched. */
  method ProcessSingleTask(task: Task, outcome: TaskOutcome)
    returns (raised: bool, success: bool, fileType: Option<FileType>)
    modifies task
    ensures raised <==> outcome.DirFailed?
    ensures (success, fileType) == Reported(outcome)
    ensures raised ==> task.status == old(task.status) && task.filename == old(task.filename)
    ensures outcome.DownloadFailed? ==> task.status == Downloading && task.filename == old(task.filename)
    ensures outcome.Rejected? ==> task.status == Downloading && task.filename == outcome.filename
    ensures outcome.Uploaded? ==> task.status == Uploading && task.filename == outcome.filename
    ensures task.progress == old(task.progress)
  {
    if outcome.DirFailed? {
      return true, false, None;
    }
    raised := false;
    task.status := Downloading;
    match outcome
    case DownloadFailed =>
      success, fileType := false, None;
    case Rejected(name) =>
      task.filename := name;
      success, fileType := false, None;
    case Uploaded(name, ok) =>
      var extension := GetFileExtension(name);
      var kind := GetFileType(extension);
      task.filename := name;
      task.status := Uploading;
      if ok {
        success, fileType := true, Some(kind);
      } else {
        success, fileType := false, None;
      }
  }

  /** `await process_single_task(...)` while another handler may run `cancel_current_task` or
      `cancel_all_tasks` for the same user. The cancel, when there is one, lands after the
      task's own status updates; `mark_completed` overwrites the task's status afterwards in
      either order. */
  method AwaitTask(qm: QueueManager, u: int, task: Task, step: Step)
    returns (raised: bool, success: bool, fileType: Option<FileType>)
    requires qm.Valid()
    requires task in qm.History(u) && qm.Active(u) == Some(task)
    modifies qm, qm.History(u)
    ensures qm.Valid()
    ensures raised <==> step.outcome.DirFailed?
    ensures (success, fileType) == Reported(step.outcome)
    ensures qm.userTasks == old(qm.userTasks) && qm.activeTasks == old(qm.activeTasks)
    ensures qm.processing == old(qm.processing)
    ensures raised || step.cancel == NoRequest ==>
      qm.queues == old(qm.queues) && qm.cancelledUsers == old(qm.cancelledUsers)
    ensures !raised && step.cancel == CancelCurrent ==>
      qm.queues == old(qm.queues) && qm.cancelledUsers == old(qm.cancelledUsers) + {u}
    ensures !raised && step.cancel == CancelAll ==>
      qm.queues == old(qm.queues)[u := []] && qm.cancelledUsers == old(qm.cancelledUsers) + {u}
    ensures forall t ::
      (t in old(qm.History(u)) && t != task && t !in old(qm.Queue(u)) && IsFinished(old(t.status))) ==>
      t.status == old(t.status)
  {
    raised, success, fileType := ProcessSingleTask(task, step.outcome);
    if !raised {
      match step.cancel
      case NoRequest =>
      case CancelCurrent =>
        var cancelled := qm.CancelCurrentTask(u);
      case CancelAll =>
        var count := qm.CancelAllTasks(u);
    }
  }

  // ---------------------------------------------------------------------------
  // The consumer loop
  // ---------------------------------------------------------------------------

  /** Number of tasks of type `kind` in the `file_types` dictionary. */
  function Tally(m: map<FileType, nat>, kind: FileType): nat {
    if kind in m then m[kind] else 0
  }

  /** Sum of the `file_types` counts. */
  function TallyTotal(m: map<FileType, nat>): nat {
    Tally(m, Video) + Tally(m, Audio) + Tally(m, Image) + Tally(m, Pdf) + Tally(m, Apk) +
    Tally(m, Archive) + Tally(m, Document)
  }

  /** Counting one more file of a type adds one to the sum. */
  lemma TallyTotalStep(m: map<FileType, nat>, kind: FileType)
    ensures TallyTotal(m[kind := Tally(m, kind) + 1]) == TallyTotal(m) + 1
  {
    var m' := m[kind := Tally(m, kind) + 1];
    assert Tally(m', kind) == Tally(m, kind) + 1;
    assert forall other :: other != kind ==> Tally(m', other) == Tally(m, other);
  }

  /** The `results` update after a task that returned: `success` or `failed` grows by one,
      and a success with a known type is counted under that type. */
  function Record(r: Results, success: bool, fileType: Option<FileType>): Results {
    var fileTypes :=
      if success && fileType.Some? then r.fileTypes[fileType.value := Tally(r.fileTypes, fileType.value) + 1]
      else r.fileTypes;
    if success then r.(success := r.success + 1, fileTypes := fileTypes)
    else r.(failed := r.failed + 1)
  }

  /** The `results` after the first `k` tasks of a batch, none of which raised: `total` grows
      before each task runs, the rest after it returns. */
  function ResultsUpTo(reports: nat -> (bool, Option<FileType>), k: nat): (r: Results)
    ensures r.total == k
  {
    if k == 0 then Results(0, 0, 0, map[])
    else
      var r := ResultsUpTo(reports, k - 1);
      Record(r.(total := r.total + 1), reports(k - 1).0, reports(k - 1).1)
  }

  /** After every task the counters agree: each task is a success or a failure, and every
      success is counted under exactly one file type. */
  lemma {:induction false} ResultsAddUp(reports: nat -> (bool, Option<FileType>), k: nat)
    requires Typed(reports, k)
    ensures ResultsUpTo(reports, k).total == ResultsUpTo(reports, k).success + ResultsUpTo(reports, k).failed
    ensures TallyTotal(ResultsUpTo(reports, k).fileTypes) == ResultsUpTo(reports, k).success
  {
    if k > 0 {
      ResultsAddUp(reports, k - 1);
      var r := ResultsUpTo(reports, k - 1);
      if reports(k - 1).0 {
        TallyTotalStep(r.fileTypes, reports(k - 1).1.value);
      }
    }
  }

  /** One pass of the `process_queue` loop body after the task is dequeued: await the task,
      then `mark_completed` with its result unless it raised. The task ends completed or
      failed even when a cancel request landed while it ran; other finished tasks keep their
      status. */
  method RunTask(qm: QueueManager, u: int, task: Task, step: Step)
    returns (raised: bool, success: bool, fileType: Option<FileType>)
    requires qm.Valid() && DistinctIds(qm.History(u))
    requires task in qm.History(u) && qm.Active(u) == Some(task) && !qm.IsCancelled(u)
    modifies qm, qm.History(u)
    ensures qm.Valid()
    ensures raised <==> step.outcome.DirFailed?
    ensures (success, fileType) == Reported(step.outcome)
    ensures qm.userTasks == old(qm.userTasks) && qm.processing == old(qm.processing)
    ensures qm.queues - {u} == old(qm.queues) - {u}
    ensures qm.activeTasks - {u} == old(qm.activeTasks) - {u}
    ensures qm.cancelledUsers - {u} == old(qm.cancelledUsers) - {u}
    ensures qm.Queue(u) == old(qm.Queue(u)) || (qm.IsCancelled(u) && qm.Queue(u) == [])
    ensures raised ==> !qm.IsCancelled(u)
    ensures !raised ==> (qm.IsCancelled(u) <==> step.cancel != NoRequest)
    ensures !raised ==> task.status == FinalStatus(success)
    ensures forall t ::
      (t in old(qm.History(u)) && t != task && t !in old(qm.Queue(u)) && IsFinished(old(t.status))) ==>
      t.status == old(t.status)
  {
    ghost var h0 := qm.History(u);
    raised, success, fileType := AwaitTask(qm, u, task, step);
    if !raised {
      ghost var m :| 0 <= m < |h0| && h0[m] == task;
      FirstWithOwnId(h0, m);
      qm.MarkCompleted(u, task.taskId, success);
    }
  }

  /** A task that comes earlier in a FIFO with distinct ids is not in a later part of it. */
  lemma EarlierNotLater(q: seq<Task>, j: nat, n: nat)
    requires DistinctIds(q) && j < n <= |q|
    ensures q[j] !in q[n..]
  {
  }

  /** Every one of the first `n` tasks of the FIFO `q` whose run returned ended completed or
      failed as it reported. */
  ghost predicate EndedAsReported(q: seq<Task>, n: nat, oracle: nat -> Step)
    requires n <= |q|
    reads q
  {
    forall j :: 0 <= j < n && !oracle(j).outcome.DirFailed? ==>
      q[j].status == FinalStatus(Succeeded(oracle(j).outcome))
  }

  /** `EndedAsReported` of one more task. */
  lemma EndedAsReportedStep(q: seq<Task>, n: nat, oracle: nat -> Step)
    requires n < |q|
    requires forall j :: 0 <= j < n && !oracle(j).outcome.DirFailed? ==>
      q[j].status == FinalStatus(Succeeded(oracle(j).outcome))
    requires !oracle(n).outcome.DirFailed? ==> q[n].status == FinalStatus(Succeeded(oracle(n).outcome))
    ensures EndedAsReported(q, n + 1, oracle)
  {
  }

  /** The part of one `process_queue` iteration after the cancel flag was found clear:
      `get_next_task`, then (when there was one) the task and the `results` update. `done`
      reports an empty FIFO, `raised` an exception out of the task; `n` counts the tasks of
      the original FIFO `q0` taken so far. */
  method RunNext(qm: QueueManager, u: int, oracle: nat -> Step, results: Results,
                 ghost q0: seq<Task>, ghost n: nat)
    returns (done: bool, raised: bool, results': Results, ghost n': nat)
    requires qm.Valid() && DistinctIds(qm.History(u)) && DistinctIds(q0) && !qm.IsCancelled(u)
    requires n <= |q0| && qm.Queue(u) == q0[n..]
    requires results == ResultsUpTo(Reports(oracle), n)
    requires EndedAsReported(q0, n, oracle)
    modifies qm, qm.History(u)
    ensures qm.Valid()
    ensures qm.userTasks == old(qm.userTasks) && qm.processing == old(qm.processing)
    ensures qm.queues - {u} == old(qm.queues) - {u}
    ensures qm.activeTasks - {u} == old(qm.activeTasks) - {u}
    ensures qm.cancelledUsers - {u} == old(qm.cancelledUsers) - {u}
    ensures done ==> !raised && n == |q0| && n' == n && results' == results
    ensures !done ==> n < |q0| && n' == n + 1 && (raised <==> oracle(n).outcome.DirFailed?)
    ensures !done && raised ==> results' == ResultsUpTo(Reports(oracle), n).(total := n + 1)
    ensures !done && !raised ==> results' == ResultsUpTo(Reports(oracle), n + 1)
    ensures !done && !raised ==> qm.Queue(u) == q0[n + 1..] || (qm.IsCancelled(u) && qm.Queue(u) == [])
    ensures !done && !raised ==> (qm.IsCancelled(u) <==> oracle(n).cancel != NoRequest)
    ensures n' <= |q0| && EndedAsReported(q0, n', oracle)
  {
    results' := results;
    n' := n;
    raised := false;
    var next := qm.GetNextTask(u);
    if next.None? {
      return true, raised, results', n';
    }
    done := false;
    var task := next.value;
    var step := oracle(results.total);
    n' := n + 1;
    raised, results' := RunDequeued(qm, u, oracle, results, q0, n, task, step);
  }

  /** The counters after one more task that returned, reported as `(success, fileType)`. */
  lemma ResultsAfterReport(oracle: nat -> Step, n: nat, results: Results, success: bool,
                           fileType: Option<FileType>, counted: Results, results': Results)
    requires results == ResultsUpTo(Reports(oracle), n)
    requires (success, fileType) == Reported(oracle(n).outcome)
    requires counted == results.(total := results.total + 1)
    requires results' == Record(counted, success, fileType)
    ensures results' == ResultsUpTo(Reports(oracle), n + 1)
  {
    assert Reports(oracle)(n) == (success, fileType);
    ResultsUpToNext(Reports(oracle), n, results, counted, results');
  }

  /** `ResultsUpTo` one task further is one more `Record`. */
  lemma ResultsUpToNext(reports: nat -> (bool, Option<FileType>), n: nat, results: Results,
                        counted: Results, results': Results)
    requires results == ResultsUpTo(reports, n)
    requires counted == results.(total := results.total + 1)
    requires results' == Record(counted, reports(n).0, reports(n).1)
    ensures results' == ResultsUpTo(reports, n + 1)
  {
  }

  /** The task part of a `process_queue` iteration once `task`, the head of the FIFO, is
      taken: `total` is counted, the task runs and, unless it raised, `mark_completed` and the
      counters record its result. Tasks taken before keep the status they ended with. */
  method RunDequeued(qm: QueueManager, u: int, oracle: nat -> Step, results: Results,
                     ghost q0: seq<Task>, ghost n: nat, task: Task, step: Step)
    returns (raised: bool, results': Results)
    requires step == oracle(n) && results == ResultsUpTo(Reports(oracle), n)
    requires qm.Valid() && DistinctIds(qm.History(u)) && DistinctIds(q0) && !qm.IsCancelled(u)
    requires n < |q0| && task == q0[n] && qm.Queue(u) == q0[n + 1..]
    requires task in qm.History(u) && qm.Active(u) == Some(task)
    requires EndedAsReported(q0, n, oracle)
    modifies qm, qm.History(u)
    ensures qm.Valid()
    ensures qm.userTasks == old(qm.userTasks) && qm.processing == old(qm.processing)
    ensures qm.queues - {u} == old(qm.queues) - {u}
    ensures qm.activeTasks - {u} == old(qm.activeTasks) - {u}
    ensures qm.cancelledUsers - {u} == old(qm.cancelledUsers) - {u}
    ensures raised <==> step.outcome.DirFailed?
    ensures raised ==> results' == ResultsUpTo(Reports(oracle), n).(total := n + 1)
    ensures !raised ==> results' == ResultsUpTo(Reports(oracle), n + 1)
    ensures !raised ==> qm.Queue(u) == q0[n + 1..] || (qm.IsCancelled(u) && qm.Queue(u) == [])
    ensures !raised ==> (qm.IsCancelled(u) <==> step.cancel != NoRequest)
    ensures EndedAsReported(q0, n + 1, oracle)
  {
    var success, fileType;
    raised, success, fileType := RunTask(qm, u, task, step);
    results' := results.(total := results.total + 1);
    if !raised {
      ghost var counted := results';
      results' := Record(results', success, fileType);
      ResultsAfterReport(oracle, n, results, success, fileType, counted, results');
    }
    forall j | 0 <= j < n && !oracle(j).outcome.DirFailed?
      ensures q0[j].status == FinalStatus(Succeeded(oracle(j).outcome))
    {
      EarlierNotLater(q0, j, n + 1);
    }
    EndedAsReportedStep(q0, n, oracle);
  }

  /** Two maps that agree away from `k` agree once `k` is set. */
  lemma UpdateAgrees<K, V>(a: map<K, V>, b: map<K, V>, k: K, v: V)
    requires a - {k} == b - {k}
    ensures a[k := v] == b[k := v]
  {
    assert a[k := v] == (a - {k})[k := v];
    assert b[k := v] == (b - {k})[k := v];
  }

  /** `process_queue`: runs the user's tasks one by one until the cancel flag is seen, the
      FIFO is empty, or a task raises; then reports the summary (not after an exception) and
      in every case clears the processing flag and the user's queue state. `taken` counts the
      tasks dequeued, which are the first `taken` tasks of the FIFO. */
  method ProcessQueue(qm: QueueManager, u: int, oracle: nat -> Step)
    returns (results: Results, summary: Option<Summary>, ghost taken: nat)
    requires qm.Valid()
    requires DistinctIds(qm.History(u)) && DistinctIds(qm.Queue(u))
    modifies qm, qm.History(u)
    ensures qm.Valid()
    // the `finally` block, whatever the exit
    ensures !qm.IsProcessing(u) && qm.processing == old(qm.processing)[u := false]
    ensures qm.History(u) == [] && qm.Queue(u) == [] && qm.Active(u) == None && !qm.IsCancelled(u)
    ensures qm.userTasks == old(qm.userTasks)[u := []] && qm.queues == old(qm.queues)[u := []]
    ensures qm.activeTasks == old(qm.activeTasks) - {u}
    ensures qm.cancelledUsers == old(qm.cancelledUsers) - {u}
    // tasks come out in FIFO order, and a set cancel flag stops the batch before any task
    ensures taken <= |old(qm.Queue(u))|
    ensures old(qm.IsCancelled(u)) ==> taken == 0
    // a cancel request or an exception ends the batch after the task it hit
    ensures forall j :: 0 <= j < taken - 1 ==>
      oracle(j).cancel == NoRequest && !oracle(j).outcome.DirFailed?
    // without cancel requests and exceptions the whole FIFO is processed
    ensures !old(qm.IsCancelled(u)) && (forall j :: 0 <= j < taken ==>
      oracle(j).cancel == NoRequest && !oracle(j).outcome.DirFailed?) ==>
      taken == |old(qm.Queue(u))|
    // the counters and the summary
    ensures summary.Some? ==> results == ResultsUpTo(Reports(oracle), taken) && summary.value == GenerateSummary(results)
    ensures summary.None? <==> taken > 0 && oracle(taken - 1).outcome.DirFailed?
    ensures summary.None? ==> results == ResultsUpTo(Reports(oracle), taken - 1).(total := taken)
    // every task that returned ends completed or failed, even one cancelled while it ran
    ensures EndedAsReported(old(qm.Queue(u)), taken, oracle)
  {
    ghost var q0 := qm.Queue(u);
    qm.SetProcessing(u, true);
    var raised;
    results, raised, taken := ConsumeQueue(qm, u, oracle);
    if raised {
      summary := None;
    } else {
      summary := Some(GenerateSummary(results));
    }
    ghost var queues1, processing1 := qm.queues, qm.processing;
    FinishQueue(qm, u, q0, taken, oracle);
    UpdateAgrees(queues1, old(qm.queues), u, []);
    UpdateAgrees(processing1, old(qm.processing), u, false);
  }

  /** None of the first `n` tasks met a cancel request or raised. */
  ghost predicate Clean(oracle: nat -> Step, n: int) {
    forall j :: 0 <= j < n ==> oracle(j).cancel == NoRequest && !oracle(j).outcome.DirFailed?
  }

  /** The state of the `process_queue` loop after `taken` tasks of the FIFO `q0`, none of
      which raised: the rest of the FIFO waits (or a cancel emptied it), the counters match,
      and the cancel flag is set exactly when it was set before the loop and nothing was taken,
      or the last task met a cancel request. */
  ghost predicate Consuming(q0: seq<Task>, cancelled0: bool, oracle: nat -> Step,
                            reports: nat -> (bool, Option<FileType>), taken: nat,
                            results: Results, cancelled: bool, queue: seq<Task>)
    reads q0
  {
    taken <= |q0| && (cancelled0 ==> taken == 0) &&
    (queue == q0[taken..] || (cancelled && queue == [])) &&
    results == ResultsUpTo(reports, taken) &&
    (cancelled <==> (taken == 0 && cancelled0) || (taken > 0 && oracle(taken - 1).cancel != NoRequest)) &&
    Clean(oracle, taken - 1) && (taken > 0 ==> !oracle(taken - 1).outcome.DirFailed?) &&
    EndedAsReported(q0, taken, oracle)
  }

  /** What the `process_queue` loop leaves behind when it ends after `taken` tasks of the FIFO
      `q0`: a set cancel flag stops it before any task, a cancel request or an exception stops
      it after the task it hit, and otherwise the whole FIFO is processed; `raised` tells an
      exception, and the counters cover every task, the one that raised only in `total`. */
  ghost predicate Consumed(q0: seq<Task>, cancelled0: bool, oracle: nat -> Step,
                           reports: nat -> (bool, Option<FileType>), taken: nat,
                           raised: bool, results: Results)
    reads q0
  {
    taken <= |q0| && (cancelled0 ==> taken == 0) &&
    Clean(oracle, taken - 1) &&
    (!cancelled0 && Clean(oracle, taken) ==> taken == |q0|) &&
    (raised <==> taken > 0 && oracle(taken - 1).outcome.DirFailed?) &&
    (!raised ==> results == ResultsUpTo(reports, taken)) &&
    (raised ==> results == ResultsUpTo(reports, taken - 1).(total := taken)) &&
    EndedAsReported(q0, taken, oracle)
  }

  /** The `while True` loop of `process_queue`. */
  method ConsumeQueue(qm: QueueManager, u: int, oracle: nat -> Step)
    returns (results: Results, raised: bool, ghost taken: nat)
    requires qm.Valid()
    requires DistinctIds(qm.History(u)) && DistinctIds(qm.Queue(u))
    modifies qm, qm.History(u)
    ensures qm.Valid()
    ensures qm.userTasks == old(qm.userTasks) && qm.processing == old(qm.processing)
    ensures qm.queues - {u} == old(qm.queues) - {u}
    ensures qm.activeTasks - {u} == old(qm.activeTasks) - {u}
    ensures qm.cancelledUsers - {u} == old(qm.cancelledUsers) - {u}
    ensures Consumed(old(qm.Queue(u)), old(qm.IsCancelled(u)), oracle, Reports(oracle), taken, raised, results)
  {
    ghost var q0, cancelled0 := qm.Queue(u), qm.IsCancelled(u);
    results := Results(0, 0, 0, map[]);
    taken := 0;
    raised := false;
    var stop := false;
    while !stop
      invariant qm.Valid() && DistinctIds(q0)
      invariant qm.userTasks == old(qm.userTasks) && qm.processing == old(qm.processing)
      invariant qm.queues - {u} == old(qm.queues) - {u}
      invariant qm.activeTasks - {u} == old(qm.activeTasks) - {u}
      invariant qm.cancelledUsers - {u} == old(qm.cancelledUsers) - {u}
      invariant !stop ==> Consuming(q0, cancelled0, oracle, Reports(oracle), taken, results, qm.IsCancelled(u), qm.Queue(u))
      invariant stop ==> Consumed(q0, cancelled0, oracle, Reports(oracle), taken, raised, results)
      decreases if stop then 0 else 1 + |qm.Queue(u)|
    {
      stop, raised, results, taken := ConsumeStep(qm, u, oracle, q0, cancelled0, results, taken);
    }
  }

  /** One iteration of the `process_queue` loop: a set cancel flag is cleared and ends the
      loop; otherwise the next task runs, and the loop ends when there was none or it raised. */
  method ConsumeStep(qm: QueueManager, u: int, oracle: nat -> Step, ghost q0: seq<Task>,
                     ghost cancelled0: bool, results: Results, ghost taken: nat)
    returns (stop: bool, raised: bool, results': Results, ghost taken': nat)
    requires qm.Valid() && DistinctIds(qm.History(u)) && DistinctIds(q0)
    requires Consuming(q0, cancelled0, oracle, Reports(oracle), taken, results, qm.IsCancelled(u), qm.Queue(u))
    modifies qm, qm.History(u)
    ensures qm.Valid()
    ensures qm.userTasks == old(qm.userTasks) && qm.processing == old(qm.processing)
    ensures qm.queues - {u} == old(qm.queues) - {u}
    ensures qm.activeTasks - {u} == old(qm.activeTasks) - {u}
    ensures qm.cancelledUsers - {u} == old(qm.cancelledUsers) - {u}
    ensures !stop ==> Consuming(q0, cancelled0, oracle, Reports(oracle), taken', results', qm.IsCancelled(u), qm.Queue(u))
    ensures !stop ==> |qm.Queue(u)| < |old(qm.Queue(u))|
    ensures stop ==> Consumed(q0, cancelled0, oracle, Reports(oracle), taken', raised, results')
  {
    ghost var queue := qm.Queue(u);
    if qm.IsCancelled(u) {
      qm.ClearCancelled(u);
      ConsumedOnCancel(q0, cancelled0, oracle, Reports(oracle), taken, results, queue);
      return true, false, results, taken;
    }
    var done;
    done, raised, results', taken' := RunNext(qm, u, oracle, results, q0, taken);
    stop := done || raised;
    if done {
      ConsumedWhenEmpty(q0, cancelled0, oracle, Reports(oracle), taken, results, queue);
    } else if raised {
      ConsumedOnRaise(q0, cancelled0, oracle, Reports(oracle), taken, results, queue, results');
    } else {
      ConsumingNext(q0, cancelled0, oracle, Reports(oracle), taken, results, queue, results', qm.IsCancelled(u), qm.Queue(u));
    }
  }

  /** A set cancel flag ends the loop in a `Consumed` state. */
  lemma ConsumedOnCancel(q0: seq<Task>, cancelled0: bool, oracle: nat -> Step,
                         reports: nat -> (bool, Option<FileType>), taken: nat,
                         results: Results, queue: seq<Task>)
    requires Consuming(q0, cancelled0, oracle, reports, taken, results, true, queue)
    ensures Consumed(q0, cancelled0, oracle, reports, taken, false, results)
  {
  }

  /** An empty FIFO ends the loop in a `Consumed` state. */
  lemma ConsumedWhenEmpty(q0: seq<Task>, cancelled0: bool, oracle: nat -> Step,
                          reports: nat -> (bool, Option<FileType>), taken: nat,
                          results: Results, queue: seq<Task>)
    requires Consuming(q0, cancelled0, oracle, reports, taken, results, false, queue) && taken == |q0|
    ensures Consumed(q0, cancelled0, oracle, reports, taken, false, results)
  {
  }

  /** A task that raised ends the loop in a `Consumed` state. */
  lemma ConsumedOnRaise(q0: seq<Task>, cancelled0: bool, oracle: nat -> Step,
                        reports: nat -> (bool, Option<FileType>), n: nat,
                        results: Results, queue: seq<Task>, results': Results)
    requires Consuming(q0, cancelled0, oracle, reports, n, results, false, queue)
    requires n < |q0| && oracle(n).outcome.DirFailed?
    requires results' == ResultsUpTo(reports, n).(total := n + 1)
    requires EndedAsReported(q0, n + 1, oracle)
    ensures Consumed(q0, cancelled0, oracle, reports, n + 1, true, results')
  {
  }

  /** A task that returned keeps the loop in a `Consuming` state, with a shorter FIFO. */
  lemma ConsumingNext(q0: seq<Task>, cancelled0: bool, oracle: nat -> Step,
                      reports: nat -> (bool, Option<FileType>), n: nat,
                      results: Results, queue: seq<Task>,
                      results': Results, cancelled': bool, queue': seq<Task>)
    requires Consuming(q0, cancelled0, oracle, reports, n, results, false, queue)
    requires n < |q0| && !oracle(n).outcome.DirFailed?
    requires results' == ResultsUpTo(reports, n + 1)
    requires queue' == q0[n + 1..] || (cancelled' && queue' == [])
    requires cancelled' <==> oracle(n).cancel != NoRequest
    requires EndedAsReported(q0, n + 1, oracle)
    ensures Consuming(q0, cancelled0, oracle, reports, n + 1, results', cancelled', queue')
    ensures |queue'| < |queue|
  {
  }

  /** The `finally` block of `process_queue`: the processing flag is cleared, then the user's
      queue state; the tasks themselves are not touched. */
  method FinishQueue(qm: QueueManager, u: int, ghost q0: seq<Task>, ghost n: nat, ghost oracle: nat -> Step)
    requires qm.Valid() && n <= |q0| && EndedAsReported(q0, n, oracle)
    modifies qm
    ensures qm.Valid()
    ensures qm.processing == old(qm.processing)[u := false]
    ensures qm.userTasks == old(qm.userTasks)[u := []] && qm.queues == old(qm.queues)[u := []]
    ensures qm.activeTasks == old(qm.activeTasks) - {u}
    ensures qm.cancelledUsers == old(qm.cancelledUsers) - {u}
    ensures EndedAsReported(q0, n, oracle)
  {
    qm.SetProcessing(u, false);
    qm.ClearUserTasks(u);
  }
}
