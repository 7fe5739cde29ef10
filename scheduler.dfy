/**
 * The hourly deadline-reminder sweep of service/ReminderScheduler.java.
 * The task list the repository's findAll returns and the sweep's clock reading
 * are parameters; sending a message is appending it to an outbox.
 */
module Scheduler {
  import opened Wrappers
  import opened Model

  const HourSeconds: int := 3600

  /** The look-ahead of the reminder window: 24 hours. */
  const WindowSeconds: int := 24 * HourSeconds

  /** The end of the window opened at `now` (now.plusHours(24)). */
  function WarningTime(now: int): int
  {
    now + WindowSeconds
  }

  /** A task is due for a reminder when its deadline lies strictly inside (now, now + 24h). */
  predicate Matches(t: Task, now: int)
  {
    t.deadline.Some? && t.deadline.value < WarningTime(now) && t.deadline.value > now
  }

  /**
   * A matching task without an assigned user: reading the recipient's address
   * throws, and the exception ends the sweep.
   */
  predicate Faults(t: Task, now: int)
  {
    Matches(t, now) && t.assignedUser.None?
  }

  predicate NoFaults(ts: seq<Task>, now: int)
  {
    forall i :: 0 <= i < |ts| ==> !Faults(ts[i], now)
  }

  /** One outgoing message. */
  datatype Email = Email(to: string, subject: string, body: string)

  /** A title as string concatenation renders it: a null title reads "null". */
  function TitleText(t: Task): string
  {
    if t.title.Some? then t.title.value else "null"
  }

  function DigitChar(d: nat): char
    requires d < 10
  {
    "0123456789"[d]
  }

  function Digits(n: nat): string
  {
    if n < 10 then [DigitChar(n)] else Digits(n / 10) + [DigitChar(n % 10)]
  }

  /** The decimal text of a timestamp. */
  function Timestamp(t: int): string
  {
    if t < 0 then "-" + Digits(-t) else Digits(t)
  }

  /** The reminder for a task that has a deadline and an assigned user. */
  function Reminder(t: Task): Email
    requires t.deadline.Some? && t.assignedUser.Some?
  {
    Email(t.assignedUser.value.email,
          "Deadline Reminder: " + TitleText(t),
          "Your task '" + TitleText(t) + "' is due soon at " + Timestamp(t.deadline.value))
  }

  /** The number of tasks in `ts` that are due for a reminder at `now`. */
  function MatchCount(ts: seq<Task>, now: int): (c: nat)
    ensures c <= |ts|
  {
    if ts == [] then 0 else (if Matches(ts[0], now) then 1 else 0) + MatchCount(ts[1..], now)
  }

  /** The reminders for `ts` at `now`, one per matching task, in list order. */
  function Reminders(ts: seq<Task>, now: int): (r: seq<Email>)
    requires NoFaults(ts, now)
    ensures |r| == MatchCount(ts, now)
  {
    if ts == [] then []
    else (if Matches(ts[0], now) then [Reminder(ts[0])] else []) + Reminders(ts[1..], now)
  }

  /**
   * How many tasks of `ts` the sweep gets through: all of them, or those before
   * the first faulting one.
   */
  function SweepReach(ts: seq<Task>, now: int): (k: nat)
    ensures k <= |ts|
    ensures forall i :: 0 <= i < k ==> !Faults(ts[i], now)
    ensures k < |ts| ==> Faults(ts[k], now)
  {
    if ts == [] then 0
    else if Faults(ts[0], now) then 0
    else 1 + SweepReach(ts[1..], now)
  }

  /**
   * One sweep over the task list at clock reading `now`. The window end is fixed
   * once, before the loop, so every task is judged against the same window; no
   * task is changed and nothing is kept for the next sweep.
   */
  method SendDeadlineReminders(tasks: seq<Task>, now: int) returns (outbox: seq<Email>, completed: bool)
    ensures completed <==> NoFaults(tasks, now)
    ensures outbox == Reminders(tasks[..SweepReach(tasks, now)], now)
    ensures |outbox| <= |tasks|
  {
    outbox := [];
    var warningTime := WarningTime(now);
    var i := 0;
    while i < |tasks|
      invariant 0 <= i <= |tasks|
      invariant NoFaults(tasks[..i], now)
      invariant outbox == Reminders(tasks[..i], now)
    {
      var task := tasks[i];
      if task.deadline.Some? && task.deadline.value < warningTime && task.deadline.value > now {
        if task.assignedUser.None? {
          completed := false;
          return;
        }
        outbox := outbox + [Email(task.assignedUser.value.email,
                                  "Deadline Reminder: " + TitleText(task),
                                  "Your task '" + TitleText(task) + "' is due soon at "
                                    + Timestamp(task.deadline.value))];
      }
      RemindersAppend(tasks[..i], [task], now);
      assert tasks[..i + 1] == tasks[..i] + [task];
      i := i + 1;
    }
    assert tasks[..i] == tasks;
    completed := true;
  }

  /** The reminders of a concatenation are the reminders of its parts, in order. */
  lemma {:induction false} RemindersAppend(a: seq<Task>, b: seq<Task>, now: int)
    requires NoFaults(a, now) && NoFaults(b, now)
    ensures NoFaults(a + b, now)
    ensures Reminders(a + b, now) == Reminders(a, now) + Reminders(b, now)
  {
    if a == [] {
      assert a + b == b;
    } else {
      assert (a + b)[1..] == a[1..] + b;
      RemindersAppend(a[1..], b, now);
    }
  }

  /** Match counts add up over a concatenation. */
  lemma {:induction false} MatchCountAppend(a: seq<Task>, b: seq<Task>, now: int)
    ensures MatchCount(a + b, now) == MatchCount(a, now) + MatchCount(b, now)
  {
    if a == [] {
      assert a + b == b;
    } else {
      assert (a + b)[1..] == a[1..] + b;
      MatchCountAppend(a[1..], b, now);
    }
  }

  /**
   * Every matching task gets its reminder, addressed to its assigned user's email,
   * at the position given by the number of matching tasks before it.
   */
  lemma {:induction false} ReminderAt(ts: seq<Task>, now: int, i: int)
    requires NoFaults(ts, now)
    requires 0 <= i < |ts| && Matches(ts[i], now)
    ensures MatchCount(ts[..i], now) < |Reminders(ts, now)|
    ensures Reminders(ts, now)[MatchCount(ts[..i], now)] == Reminder(ts[i])
    ensures Reminder(ts[i]).to == ts[i].assignedUser.value.email
    ensures Reminder(ts[i]).subject == "Deadline Reminder: " + TitleText(ts[i])
  {
    if i > 0 {
      assert NoFaults(ts[1..], now);
      ReminderAt(ts[1..], now, i - 1);
      assert ts[..i] == [ts[0]] + ts[1..][..i - 1];
      MatchCountAppend([ts[0]], ts[1..][..i - 1], now);
    }
  }

  /** Every reminder comes from a matching task, the one at its position in list order. */
  lemma {:induction false} ReminderSource(ts: seq<Task>, now: int, j: int) returns (i: nat)
    requires NoFaults(ts, now)
    requires 0 <= j < |Reminders(ts, now)|
    ensures i < |ts| && Matches(ts[i], now)
    ensures MatchCount(ts[..i], now) == j
    ensures Reminders(ts, now)[j] == Reminder(ts[i])
  {
    assert NoFaults(ts[1..], now);
    if Matches(ts[0], now) && j == 0 {
      i := 0;
    } else {
      var j' := if Matches(ts[0], now) then j - 1 else j;
      var i' := ReminderSource(ts[1..], now, j');
      i := i' + 1;
      assert ts[..i] == [ts[0]] + ts[1..][..i'];
      MatchCountAppend([ts[0]], ts[1..][..i'], now);
    }
  }

  /** Reminders keep list order: an earlier matching task gets an earlier position. */
  lemma ReminderOrder(ts: seq<Task>, now: int, i: int, k: int)
    requires 0 <= i < k <= |ts| && Matches(ts[i], now)
    ensures MatchCount(ts[..i], now) < MatchCount(ts[..k], now)
  {
    assert ts[..k] == ts[..i] + ts[i..k];
    MatchCountAppend(ts[..i], ts[i..k], now);
    assert ts[i..k] == [ts[i]] + ts[i + 1..k];
    MatchCountAppend([ts[i]], ts[i + 1..k], now);
  }

  /** The window is open at both ends: neither `now` nor `now + 24h` itself is inside. */
  lemma WindowBoundaries(t: Task, now: int)
    ensures Matches(t, now) <==> t.deadline.Some? && now < t.deadline.value < now + 24 * 3600
    ensures t.deadline == Some(now) ==> !Matches(t, now)
    ensures t.deadline == Some(now + 24 * 3600) ==> !Matches(t, now)
  {
  }

  /** A deadline that has passed is never in any later sweep's window. */
  lemma PastDeadlineNeverMatches(t: Task, now: int)
    requires t.deadline.Some? && t.deadline.value <= now
    ensures forall later :: later >= now ==> !Matches(t, later)
  {
  }

  /** A deadline 25 hours away is outside the window now and inside it two hours later. */
  lemma LateDeadlineMatchesLater(t: Task, now: int)
    requires t.deadline == Some(now + 25 * HourSeconds)
    ensures !Matches(t, now)
    ensures Matches(t, now + 2 * HourSeconds)
  {
  }

  /**
   * Sweeps keep no memory: a task whose deadline lies in the windows of two sweeps
   * is reminded in both.
   */
  lemma SweepsDoNotDeduplicate(ts: seq<Task>, i: int, now1: int, now2: int)
    requires NoFaults(ts, now1) && NoFaults(ts, now2)
    requires 0 <= i < |ts| && Matches(ts[i], now1) && Matches(ts[i], now2)
    ensures Reminder(ts[i]) in Reminders(ts, now1)
    ensures Reminder(ts[i]) in Reminders(ts, now2)
  {
    ReminderAt(ts, now1, i);
    ReminderAt(ts, now2, i);
  }

  /**
   * A deadline between one and 24 hours ahead is reminded now and again at the
   * next hourly sweep.
   */
  lemma HourlyResend(ts: seq<Task>, i: int, now: int)
    requires NoFaults(ts, now) && NoFaults(ts, now + HourSeconds)
    requires 0 <= i < |ts| && ts[i].deadline.Some?
    requires now + HourSeconds < ts[i].deadline.value < now + WindowSeconds
    ensures Reminder(ts[i]) in Reminders(ts, now)
    ensures Reminder(ts[i]) in Reminders(ts, now + HourSeconds)
  {
    SweepsDoNotDeduplicate(ts, i, now, now + HourSeconds);
  }

  /** Tasks that all have an assigned user never end a sweep early. */
  lemma AssignedTasksComplete(ts: seq<Task>, now: int)
    requires forall i :: 0 <= i < |ts| ==> ts[i].assignedUser.Some?
    ensures NoFaults(ts, now)
    ensures SweepReach(ts, now) == |ts|
  {
  }
}
