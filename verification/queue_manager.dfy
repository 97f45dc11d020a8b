/** The bot's per-user task bookkeeping (utils/queue_manager.py). For every user the manager
    keeps a FIFO of pending tasks, the history of every task of the current batch, an optional
    active task, a "cancelled" flag and a "processing" flag. Python's `defaultdict` entries
    that are read before they are written are modelled by accessors that read a missing key
    as empty (no tasks, no flag). Every method is one atomic step: the `await`s of the source
    never yield inside these methods, because `asyncio.Queue` is unbounded. */
module Queue {
  import opened Text

  /** The six values of `Task.status`. */
  datatype Status = Queued | Downloading | Uploading | Completed | Failed | Cancelled

  /** `status in ["queued", "downloading", "uploading"]`: the task still has work to do. */
  predicate IsPending(s: Status) {
    s == Queued || s == Downloading || s == Uploading
  }

  /** `status in ["completed", "failed", "cancelled"]`. */
  predicate IsFinished(s: Status) {
    s == Completed || s == Failed || s == Cancelled
  }

  /** What `cancel_all_tasks` does to a history entry: pending ones become cancelled. */
  function CancelPending(s: Status): Status {
    if IsPending(s) then Cancelled else s
  }

  /** The status `mark_completed` writes. */
  function FinalStatus(success: bool): Status {
    if success then Completed else Failed
  }

  /** One download request. The identifiers never change after creation; the status, the
      file name and the progress are updated in place while the task sits in both the FIFO
      and the history. `created_at` is not modelled. */
  class Task {
    const taskId: string
    const userId: int
    const url: string
    var filename: string
    var status: Status
    var progress: int
    const messageId: Option<int>
    const chatId: Option<int>
    const topicId: Option<int>
    const replyToId: Option<int>

    /** `Task(task_id=..., user_id=..., url=..., chat_id=..., topic_id=..., reply_to_id=...)`
        with the dataclass defaults for the other fields. */
    constructor (taskId: string, userId: int, url: string,
                 chatId: Option<int>, topicId: Option<int>, replyToId: Option<int>)
      ensures this.taskId == taskId && this.userId == userId && this.url == url
      ensures this.chatId == chatId && this.topicId == topicId && this.replyToId == replyToId
      ensures filename == "Unknown" && status == Queued && progress == 0 && messageId == None
    {
      this.taskId := taskId;
      this.userId := userId;
      this.url := url;
      this.chatId := chatId;
      this.topicId := topicId;
      this.replyToId := replyToId;
      filename := "Unknown";
      status := Queued;
      progress := 0;
      messageId := None;
    }
  }

  // ---------------------------------------------------------------------------
  // Queries over a list of tasks
  // ---------------------------------------------------------------------------

  /** The statuses of a list of tasks, in order. */
  function StatusesOf(ts: seq<Task>): (r: seq<Status>)
    reads ts
    ensures |r| == |ts|
    ensures forall i :: 0 <= i < |ts| ==> r[i] == ts[i].status
  {
    if ts == [] then [] else [ts[0].status] + StatusesOf(ts[1..])
  }

  /** `sum(1 for s in ss if s == status)`. */
  function Count(ss: seq<Status>, status: Status): (n: nat)
    ensures n <= |ss|
  {
    if ss == [] then 0 else (if ss[0] == status then 1 else 0) + Count(ss[1..], status)
  }

  /** `sum(1 for s in ss if s in ["queued", "downloading", "uploading"])`. */
  function CountPending(ss: seq<Status>): (n: nat)
    ensures n <= |ss|
  {
    if ss == [] then 0 else (if IsPending(ss[0]) then 1 else 0) + CountPending(ss[1..])
  }

  /** `sum(1 for s in ss if s in ["completed", "failed", "cancelled"])`. */
  function CountFinished(ss: seq<Status>): (n: nat)
    ensures n <= |ss|
  {
    if ss == [] then 0 else (if IsFinished(ss[0]) then 1 else 0) + CountFinished(ss[1..])
  }

  /** Every status is pending or counted as completed, failed or cancelled. */
  lemma {:induction false} CountsAddUp(ss: seq<Status>)
    ensures Count(ss, Completed) + Count(ss, Failed) + Count(ss, Cancelled) + CountPending(ss) == |ss|
    ensures CountFinished(ss) == Count(ss, Completed) + Count(ss, Failed) + Count(ss, Cancelled)
  {
    if ss != [] {
      CountsAddUp(ss[1..]);
    }
  }

  /** `[t for t in ts if t.status in ["queued", "downloading", "uploading"]]`. */
  function PendingTasks(ts: seq<Task>): (r: seq<Task>)
    reads ts
    ensures |r| == CountPending(StatusesOf(ts))
  {
    if ts == [] then []
    else
      var rest := PendingTasks(ts[1..]);
      assert StatusesOf(ts)[1..] == StatusesOf(ts[1..]);
      if IsPending(ts[0].status) then [ts[0]] + rest else rest
  }

  /** `get_user_tasks` holds exactly the pending tasks of the list. */
  lemma {:induction false} PendingTasksMembers(ts: seq<Task>, t: Task)
    ensures t in PendingTasks(ts) <==> t in ts && IsPending(t.status)
  {
    if ts != [] {
      PendingTasksMembers(ts[1..], t);
      assert ts == [ts[0]] + ts[1..];
    }
  }

  /** `PendingTasksMembers` for every task at once. */
  lemma PendingTasksExactly(ts: seq<Task>)
    ensures forall t :: t in PendingTasks(ts) ==> t in ts && IsPending(t.status)
    ensures forall t :: t in ts && IsPending(t.status) ==> t in PendingTasks(ts)
  {
    forall t
      ensures t in PendingTasks(ts) <==> t in ts && IsPending(t.status)
    {
      PendingTasksMembers(ts, t);
    }
  }

  /** The `for task in user_tasks: if pending: task.status = "cancelled"` loop of
      `cancel_all_tasks`. */
  method CancelPendingIn(ts: seq<Task>)
    modifies ts
    ensures forall t :: t in ts ==> t.status == CancelPending(old(t.status))
  {
    for j := 0 to |ts|
      invariant forall t :: t in ts ==>
        t.status == (if t in ts[..j] then CancelPending(old(t.status)) else old(t.status))
    {
      if IsPending(ts[j].status) {
        ts[j].status := Cancelled;
      }
      assert ts[..j + 1] == ts[..j] + [ts[j]];
    }
    assert ts[..|ts|] == ts;
  }

  /** With no task pending, `get_user_tasks` is empty. */
  lemma {:induction false} NoPendingTasks(ts: seq<Task>)
    requires forall t :: t in ts ==> !IsPending(t.status)
    ensures PendingTasks(ts) == []
  {
    if ts != [] {
      assert ts[0] in ts;
      NoPendingTasks(ts[1..]);
    }
  }

  /** Index of the first task with the given id (the `for ... break` search). */
  function FirstWithId(ts: seq<Task>, id: string): (r: Option<nat>)
    ensures r.Some? ==> r.value < |ts| && ts[r.value].taskId == id
    ensures r.Some? ==> forall j :: 0 <= j < r.value ==> ts[j].taskId != id
    ensures r.None? <==> forall j :: 0 <= j < |ts| ==> ts[j].taskId != id
  {
    if ts == [] then None
    else if ts[0].taskId == id then Some(0)
    else
      match FirstWithId(ts[1..], id)
      case None => None
      case Some(k) => Some(k + 1)
  }

  /** No two tasks of the list share an id (ids are fresh UUIDs in the bot). */
  predicate DistinctIds(ts: seq<Task>) {
    forall i, j :: 0 <= i < j < |ts| ==> ts[i].taskId != ts[j].taskId
  }

  /** With distinct ids, searching for a task's id finds that task. */
  lemma FirstWithOwnId(ts: seq<Task>, m: nat)
    requires DistinctIds(ts) && m < |ts|
    ensures FirstWithId(ts, ts[m].taskId) == Some(m)
  {
  }

  /** The tasks of `ts` that belong to user `u`, in order. */
  function OfUser(ts: seq<Task>, u: int): seq<Task> {
    if ts == [] then []
    else
      var last := ts[|ts| - 1];
      var init := ts[..|ts| - 1];
      OfUser(init, u) + (if last.userId == u then [last] else [])
  }

  /** `OfUser` keeps exactly the tasks of `ts` that belong to `u`. */
  lemma {:induction false} OfUserMembers(ts: seq<Task>, u: int, t: Task)
    ensures t in OfUser(ts, u) <==> t in ts && t.userId == u
  {
    if ts != [] {
      var last, init := ts[|ts| - 1], ts[..|ts| - 1];
      assert ts == init + [last];
      OfUserMembers(init, u, t);
    }
  }

  lemma OfUserStep(ts: seq<Task>, i: nat)
    requires i < |ts|
    ensures forall u :: (OfUser(ts[..i + 1], u) ==
      OfUser(ts[..i], u) + (if ts[i].userId == u then [ts[i]] else []))
  {
    assert ts[..i + 1][..i] == ts[..i];
  }

  /** The entry of `m` at `u`, or the empty list. */
  function Lookup(m: map<int, seq<Task>>, u: int): seq<Task> {
    if u in m then m[u] else []
  }

  /** A list that held `before` and the user's first `i` tasks, and then got task `i` if it
      is the user's, holds `before` and the user's first `i + 1` tasks. */
  lemma GrowsByOfUser(before: seq<Task>, ts: seq<Task>, i: nat, u: int, mid: seq<Task>, after: seq<Task>)
    requires i < |ts|
    requires mid == before + OfUser(ts[..i], u)
    requires after == mid + (if ts[i].userId == u then [ts[i]] else [])
    ensures after == before + OfUser(ts[..i + 1], u)
  {
    OfUserStep(ts, i);
    AppendAssoc(before, OfUser(ts[..i], u), if ts[i].userId == u then [ts[i]] else []);
  }

  lemma AppendAssoc<T>(a: seq<T>, b: seq<T>, c: seq<T>)
    ensures a + b + c == a + (b + c)
  {
  }

  /** The dictionary returned by `get_stats`. */
  datatype Stats = Stats(total: nat, completed: nat, failed: nat, cancelled: nat, pending: nat)

  // ---------------------------------------------------------------------------
  // The manager
  // ---------------------------------------------------------------------------

  class QueueManager {
    var queues: map<int, seq<Task>>
    var activeTasks: map<int, Task>
    var userTasks: map<int, seq<Task>>
    var cancelledUsers: set<int>
    var processing: map<int, bool>

    constructor ()
      ensures queues == map[] && activeTasks == map[] && userTasks == map[]
      ensures cancelledUsers == {} && processing == map[]
      ensures Valid()
    {
      queues := map[];
      activeTasks := map[];
      userTasks := map[];
      cancelledUsers := {};
      processing := map[];
    }

    /** `self.queues[u]`: the user's pending FIFO, head first. */
    function Queue(u: int): seq<Task>
      reads this
    {
      if u in queues then queues[u] else []
    }

    /** `self.user_tasks[u]`: every task of the user's batch, in the order it was added. */
    function History(u: int): seq<Task>
      reads this
    {
      if u in userTasks then userTasks[u] else []
    }

    /** `get_current_task`: `self.active_tasks.get(u)`. */
    function Active(u: int): (r: Option<Task>)
      reads this
      ensures u !in activeTasks ==> r == None
      ensures u in activeTasks ==> r == Some(activeTasks[u])
    {
      if u in activeTasks then Some(activeTasks[u]) else None
    }

    /** The active task as a (possibly empty) set of objects, for frames. */
    function ActiveSet(u: int): set<Task>
      reads this
    {
      if u in activeTasks then {activeTasks[u]} else {}
    }

    /** `is_cancelled`. */
    function IsCancelled(u: int): (r: bool)
      reads this
      ensures r <==> u in cancelledUsers
    {
      u in cancelledUsers
    }

    /** `is_processing`: `self.processing.get(u, False)`. */
    function IsProcessing(u: int): (r: bool)
      reads this
      ensures u !in processing ==> !r
      ensures u in processing ==> r == processing[u]
    {
      u in processing && processing[u]
    }

    /** Every pending task of a user is also in that user's history, and a user's history
        holds only tasks created for that user. */
    ghost predicate Valid()
      reads this
    {
      (forall u, t :: u in queues && t in queues[u] ==> u in userTasks && t in userTasks[u]) &&
      (forall u, t :: u in userTasks && t in userTasks[u] ==> t.userId == u)
    }

    /** `add_task`: appended to the end of the owner's history and FIFO; nothing else changes.
        Appending to a list and to an unbounded `asyncio.Queue` cannot fail, so the answer
        is always `True`. */
    method AddTask(task: Task) returns (added: bool)
      requires Valid()
      modifies this
      ensures Valid()
      ensures added
      ensures forall v :: History(v) == old(History(v)) + (if v == task.userId then [task] else [])
      ensures forall v :: Queue(v) == old(Queue(v)) + (if v == task.userId then [task] else [])
      ensures activeTasks == old(activeTasks) && cancelledUsers == old(cancelledUsers)
      ensures processing == old(processing)
    {
      var u := task.userId;
      userTasks := userTasks[u := History(u) + [task]];
      queues := queues[u := Queue(u) + [task]];
      added := true;
    }

    /** `add_multiple_tasks`: adds the tasks one by one and counts the successful adds. Every
        user's history and FIFO grow by that user's tasks, in list order. */
    method AddMultipleTasks(tasks: seq<Task>) returns (count: nat)
      requires Valid()
      modifies this
      ensures Valid()
      ensures count == |tasks|
      ensures forall u :: History(u) == old(History(u)) + OfUser(tasks, u)
      ensures forall u :: Queue(u) == old(Queue(u)) + OfUser(tasks, u)
      ensures activeTasks == old(activeTasks) && cancelledUsers == old(cancelledUsers)
      ensures processing == old(processing)
    {
      ghost var histories, fifos := userTasks, queues;
      count := 0;
      for i := 0 to |tasks|
        invariant Valid()
        invariant count == i
        invariant forall u :: History(u) == Lookup(histories, u) + OfUser(tasks[..i], u)
        invariant forall u :: Queue(u) == Lookup(fifos, u) + OfUser(tasks[..i], u)
        invariant activeTasks == old(activeTasks) && cancelledUsers == old(cancelledUsers)
        invariant processing == old(processing)
      {
        var added := AddNext(tasks, i, histories, fifos);
        if added {
          count := count + 1;
        }
      }
      assert tasks[..|tasks|] == tasks;
    }

    /** One pass of the `add_multiple_tasks` loop: `add_task` of the task at `i`. */
    method AddNext(tasks: seq<Task>, i: nat, ghost histories: map<int, seq<Task>>,
                   ghost fifos: map<int, seq<Task>>) returns (added: bool)
      requires Valid() && i < |tasks|
      requires forall u :: History(u) == Lookup(histories, u) + OfUser(tasks[..i], u)
      requires forall u :: Queue(u) == Lookup(fifos, u) + OfUser(tasks[..i], u)
      modifies this
      ensures Valid() && added
      ensures forall u :: History(u) == Lookup(histories, u) + OfUser(tasks[..i + 1], u)
      ensures forall u :: Queue(u) == Lookup(fifos, u) + OfUser(tasks[..i + 1], u)
      ensures activeTasks == old(activeTasks) && cancelledUsers == old(cancelledUsers)
      ensures processing == old(processing)
    {
      added := AddTask(tasks[i]);
      forall v
        ensures History(v) == Lookup(histories, v) + OfUser(tasks[..i + 1], v)
        ensures Queue(v) == Lookup(fifos, v) + OfUser(tasks[..i + 1], v)
      {
        GrowsByOfUser(Lookup(histories, v), tasks, i, v, old(History(v)), History(v));
        GrowsByOfUser(Lookup(fifos, v), tasks, i, v, old(Queue(v)), Queue(v));
      }
    }

    /** `get_next_task`: `None` on an empty FIFO, with nothing changed; otherwise the head of
        the FIFO, which leaves the FIFO and becomes the user's active task. */
    method GetNextTask(u: int) returns (r: Option<Task>)
      requires Valid()
      modifies this
      ensures Valid()
      ensures old(Queue(u)) == [] ==> r == None && activeTasks == old(activeTasks) && queues == old(queues)
      ensures old(Queue(u)) != [] ==> r == Some(old(Queue(u))[0]) && Queue(u) == old(Queue(u))[1..]
      ensures old(Queue(u)) != [] ==> activeTasks == old(activeTasks)[u := old(Queue(u))[0]]
      ensures r.Some? ==> r.value in History(u) && r.value.userId == u
      ensures queues - {u} == old(queues) - {u}
      ensures userTasks == old(userTasks) && cancelledUsers == old(cancelledUsers)
      ensures processing == old(processing)
    {
      if Queue(u) == [] {
        return None;
      }
      var task := Queue(u)[0];
      assert u in queues && task in queues[u];
      assert forall t :: t in Queue(u)[1..] ==> t in Queue(u);
      queues := queues[u := Queue(u)[1..]];
      activeTasks := activeTasks[u := task];
      r := Some(task);
    }

    /** `set_current_task`: installs any task as the user's active task. */
    method SetCurrentTask(u: int, task: Task)
      requires Valid()
      modifies this
      ensures Valid()
      ensures Active(u) == Some(task)
      ensures activeTasks == old(activeTasks)[u := task]
      ensures queues == old(queues) && userTasks == old(userTasks)
      ensures cancelledUsers == old(cancelledUsers) && processing == old(processing)
    {
      activeTasks := activeTasks[u := task];
    }

    /** `get_user_tasks`: the user's history entries that still have work to do. */
    function GetUserTasks(u: int): (r: seq<Task>)
      reads this, History(u)
      ensures forall t :: t in r ==> t in History(u) && IsPending(t.status)
      ensures forall t :: t in History(u) && IsPending(t.status) ==> t in r
    {
      PendingTasksExactly(History(u));
      PendingTasks(History(u))
    }

    /** `get_queue_size`. */
    function GetQueueSize(u: int): (r: nat)
      reads this
      ensures r == |Queue(u)|
      ensures r == 0 <==> Queue(u) == []
    {
      |Queue(u)|
    }

    /** `get_stats`: the counts of the user's history by status; they add up to the total. */
    function GetStats(u: int): (r: Stats)
      reads this, History(u)
      ensures r.total == r.completed + r.failed + r.cancelled + r.pending
      ensures r.total == |History(u)|
    {
      var ss := StatusesOf(History(u));
      CountsAddUp(ss);
      Stats(|ss|, Count(ss, Completed), Count(ss, Failed), Count(ss, Cancelled), CountPending(ss))
    }

    /** `get_total_tasks`: how many tasks `get_user_tasks` lists, which is the pending count
        of `get_stats`. */
    function GetTotalTasks(u: int): (r: nat)
      reads this, History(u)
      ensures r == GetStats(u).pending
    {
      |GetUserTasks(u)|
    }

    /** `get_queue_position`: (number of finished history entries + 1, history length). The
        first component counts what `get_stats` calls completed, failed and cancelled. */
    function GetQueuePosition(u: int): (r: (nat, nat))
      reads this, History(u)
      ensures 1 <= r.0 <= r.1 + 1
      ensures r.1 == GetStats(u).total
      ensures r.0 == GetStats(u).completed + GetStats(u).failed + GetStats(u).cancelled + 1
    {
      var ss := StatusesOf(History(u));
      CountsAddUp(ss);
      (CountFinished(ss) + 1, |ss|)
    }

    /** `cancel_current_task`: with no active task, `False` and nothing changes; otherwise the
        active task is marked cancelled, the whole user is flagged as cancelled, and the
        active slot stays occupied. */
    method CancelCurrentTask(u: int) returns (r: bool)
      requires Valid()
      modifies this, ActiveSet(u)
      ensures Valid()
      ensures r <==> old(Active(u)).Some?
      ensures r ==> Active(u) == old(Active(u)) && Active(u).value.status == Cancelled
      ensures r ==> cancelledUsers == old(cancelledUsers) + {u}
      ensures !r ==> cancelledUsers == old(cancelledUsers)
      ensures activeTasks == old(activeTasks) && queues == old(queues) && userTasks == old(userTasks)
      ensures processing == old(processing)
    {
      if u in activeTasks {
        activeTasks[u].status := Cancelled;
        cancelledUsers := cancelledUsers + {u};
        return true;
      }
      return false;
    }

    /** `cancel_all_tasks`: flags the user as cancelled, marks the active task cancelled
        whatever its status, drains the FIFO marking every drained task cancelled, then marks
        every pending history entry cancelled. The count is the active task (if any) plus the
        number of drained tasks. The active slot stays occupied. */
    method CancelAllTasks(u: int) returns (count: nat)
      requires Valid()
      modifies this, History(u), ActiveSet(u)
      ensures Valid()
      ensures u in cancelledUsers && cancelledUsers == old(cancelledUsers) + {u}
      ensures Queue(u) == [] && queues == old(queues)[u := []]
      ensures count == (if old(Active(u)).Some? then 1 else 0) + |old(Queue(u))|
      ensures forall t :: t in old(History(u)) || t in old(ActiveSet(u)) ==>
        t.status == (if t in old(ActiveSet(u)) || t in old(Queue(u)) then Cancelled
                     else CancelPending(old(t.status)))
      ensures GetUserTasks(u) == []
      ensures activeTasks == old(activeTasks) && userTasks == old(userTasks)
      ensures processing == old(processing)
    {
      var hist := History(u);
      ghost var act, queued := ActiveSet(u), Queue(u);
      cancelledUsers := cancelledUsers + {u};
      count := 0;
      if u in activeTasks {
        activeTasks[u].status := Cancelled;
        count := count + 1;
      }
      var drained := DrainCancelling(u);
      count := count + drained;
      label queueDrained:
      CancelPendingIn(hist);
      forall t | t in hist || t in act
        ensures t.status == (if t in act || t in queued then Cancelled else CancelPending(old(t.status)))
      {
        if t in hist {
          assert t.status == CancelPending(old@queueDrained(t.status));
        }
      }
      assert forall t :: t in hist ==> !IsPending(t.status);
      NoPendingTasks(hist);
      assert History(u) == hist;
    }

    /** The `while not queue.empty(): queue.get_nowait().status = "cancelled"` loop of
        `cancel_all_tasks`: every drained task is marked cancelled. */
    method DrainCancelling(u: int) returns (drained: nat)
      requires Valid()
      modifies this, History(u)
      ensures Valid()
      ensures drained == |old(Queue(u))|
      ensures Queue(u) == [] && queues == old(queues)[u := []]
      ensures forall t :: t in old(Queue(u)) ==> t.status == Cancelled
      ensures forall t :: t in old(History(u)) && t !in old(Queue(u)) ==> t.status == old(t.status)
      ensures activeTasks == old(activeTasks) && userTasks == old(userTasks)
      ensures cancelledUsers == old(cancelledUsers) && processing == old(processing)
    {
      ghost var queued := Queue(u);
      assert forall t :: t in queued ==> t in History(u);
      drained := 0;
      queues := queues[u := Queue(u)];  // the `defaultdict` creates the entry on first access
      while Queue(u) != []
        invariant drained <= |queued| && Queue(u) == queued[drained..]
        invariant forall t :: t in queued ==> t in old(History(u))
        invariant queues == old(queues)[u := queued[drained..]]
        invariant forall t :: t in queued[..drained] ==> t.status == Cancelled
        invariant forall t :: t in old(History(u)) && t !in queued ==> t.status == old(t.status)
        invariant activeTasks == old(activeTasks) && userTasks == old(userTasks)
        invariant cancelledUsers == old(cancelledUsers) && processing == old(processing)
        decreases |Queue(u)|
      {
        assert queued[drained] in queued;
        CancelHead(u, queued, drained, old(queues));
        drained := drained + 1;
      }
      queues := queues[u := []];
      assert queued[..drained] == queued;
    }

    /** One pass of the drain loop: the head of the FIFO leaves it and is marked cancelled. */
    method CancelHead(u: int, ghost queued: seq<Task>, ghost drained: nat,
                      ghost queues0: map<int, seq<Task>>)
      requires drained < |queued| && Queue(u) == queued[drained..]
      requires queues == queues0[u := queued[drained..]]
      requires forall t :: t in queued[..drained] ==> t.status == Cancelled
      modifies this, queued[drained]
      ensures Queue(u) == queued[drained + 1..] && queues == queues0[u := queued[drained + 1..]]
      ensures forall t :: t in queued[..drained + 1] ==> t.status == Cancelled
      ensures activeTasks == old(activeTasks) && userTasks == old(userTasks)
      ensures cancelledUsers == old(cancelledUsers) && processing == old(processing)
    {
      var task := Queue(u)[0];
      assert task == queued[drained] && queued[..drained + 1] == queued[..drained] + [task];
      queues := queues[u := Queue(u)[1..]];
      task.status := Cancelled;
    }

    /** `clear_cancelled`. */
    method ClearCancelled(u: int)
      requires Valid()
      modifies this
      ensures Valid()
      ensures !IsCancelled(u) && cancelledUsers == old(cancelledUsers) - {u}
      ensures queues == old(queues) && activeTasks == old(activeTasks) && userTasks == old(userTasks)
      ensures processing == old(processing)
    {
      cancelledUsers := cancelledUsers - {u};
    }

    /** The state `mark_completed(u, id, success)` leaves behind: the first history entry with
        that id (if any) carries the outcome, and the active task does not have that id. */
    ghost predicate Marked(u: int, id: string, success: bool)
      reads this, History(u)
    {
      (match FirstWithId(History(u), id)
       case None => true
       case Some(k) => History(u)[k].status == FinalStatus(success)) &&
      !(u in activeTasks && activeTasks[u].taskId == id)
    }

    /** `mark_completed`: the first history entry with the id gets `completed` or `failed`,
        whatever its status was (a cancelled task included); the active slot is cleared only
        when it holds that id. Starting from a marked state it changes nothing, so a second
        identical call has no effect. */
    method MarkCompleted(u: int, id: string, success: bool)
      requires Valid()
      modifies this, History(u)
      ensures Valid()
      ensures Marked(u, id, success)
      ensures old(FirstWithId(History(u), id)).None? ==>
        forall t :: t in old(History(u)) ==> t.status == old(t.status)
      ensures old(FirstWithId(History(u), id)).Some? ==>
        var k := old(FirstWithId(History(u), id)).value;
        k < |old(History(u))| && old(History(u))[k].status == FinalStatus(success) &&
        forall t :: t in old(History(u)) && t != old(History(u))[k] ==> t.status == old(t.status)
      ensures old(Active(u)).Some? && old(Active(u)).value.taskId == id ==>
        activeTasks == old(activeTasks) - {u}
      ensures !(old(Active(u)).Some? && old(Active(u)).value.taskId == id) ==>
        activeTasks == old(activeTasks)
      ensures old(Marked(u, id, success)) ==>
        activeTasks == old(activeTasks) && forall t :: t in old(History(u)) ==> t.status == old(t.status)
      ensures queues == old(queues) && userTasks == old(userTasks)
      ensures cancelledUsers == old(cancelledUsers) && processing == old(processing)
    {
      var hist := History(u);
      var i := 0;
      while i < |hist| && hist[i].taskId != id
        invariant 0 <= i <= |hist|
        invariant forall j :: 0 <= j < i ==> hist[j].taskId != id
      {
        i := i + 1;
      }
      if i < |hist| {
        assert FirstWithId(hist, id) == Some(i);
        hist[i].status := FinalStatus(success);
      }
      if u in activeTasks && activeTasks[u].taskId == id {
        activeTasks := activeTasks - {u};
      }
    }

    /** `clear_user_tasks`: the history is emptied, the flag cleared, the FIFO drained and the
        active slot freed; the processing flag is left alone. */
    method ClearUserTasks(u: int)
      requires Valid()
      modifies this
      ensures Valid()
      ensures History(u) == [] && Queue(u) == [] && Active(u) == None && !IsCancelled(u)
      ensures userTasks == old(userTasks)[u := []] && queues == old(queues)[u := []]
      ensures activeTasks == old(activeTasks) - {u}
      ensures cancelledUsers == old(cancelledUsers) - {u}
      ensures processing == old(processing)
    {
      userTasks := userTasks[u := []];
      cancelledUsers := cancelledUsers - {u};
      queues := queues[u := Queue(u)];  // the `defaultdict` creates the entry on first access
      while Queue(u) != []
        invariant u in queues && queues == old(queues)[u := queues[u]]
        invariant userTasks == old(userTasks)[u := []]
        invariant cancelledUsers == old(cancelledUsers) - {u}
        invariant activeTasks == old(activeTasks) && processing == old(processing)
        decreases |Queue(u)|
      {
        queues := queues[u := Queue(u)[1..]];
      }
      if u in activeTasks {
        activeTasks := activeTasks - {u};
      }
    }

    /** `set_processing`. */
    method SetProcessing(u: int, status: bool)
      requires Valid()
      modifies this
      ensures Valid()
      ensures IsProcessing(u) == status && processing == old(processing)[u := status]
      ensures queues == old(queues) && activeTasks == old(activeTasks) && userTasks == old(userTasks)
      ensures cancelledUsers == old(cancelledUsers)
    {
      processing := processing[u := status];
    }
  }
}
