/**
 * The daily-reminder bot: an in-memory list of scheduled jobs that the
 * webhook appends to and the minute tick reads, and an outbox standing for
 * the messages handed to the messaging client.
 */
module ReminderBot {

  import opened Wrappers
  import opened Tokens
  import opened Commands

  /** One stored reminder; `time` is missing when the command had no second token. */
  datatype Job = Job(to: string, time: Option<string>, message: string)

  /** One message handed to the messaging client. */
  datatype Outgoing = Outgoing(to: string, body: string)

  /** The send a job produces when it is due. */
  function Delivery(job: Job): Outgoing
  {
    Outgoing(job.to, job.message)
  }

  /** A job is due at `now` when its time is exactly that string; a missing time never is. */
  predicate IsDue(job: Job, now: string)
  {
    job.time == Some(now)
  }

  /** The sends a tick at `now` makes while walking `jobs` front to back. */
  function Due(jobs: seq<Job>, now: string): (sent: seq<Outgoing>)
    ensures |sent| <= |jobs|
  {
    if jobs == [] then []
    else
      var n := |jobs| - 1;
      Due(jobs[..n], now) + (if IsDue(jobs[n], now) then [Delivery(jobs[n])] else [])
  }

  /** The positions of the due jobs, in increasing order: all of them and only them. */
  function MatchIndices(jobs: seq<Job>, now: string): (idx: seq<nat>)
    ensures forall k :: 0 <= k < |idx| ==> idx[k] < |jobs| && IsDue(jobs[idx[k]], now)
    ensures forall k, l :: 0 <= k < l < |idx| ==> idx[k] < idx[l]
    ensures forall i :: 0 <= i < |jobs| && IsDue(jobs[i], now) ==> i in idx
  {
    if jobs == [] then []
    else
      var n := |jobs| - 1;
      var prefix := jobs[..n];
      MatchIndices(prefix, now) + (if IsDue(jobs[n], now) then [n] else [])
  }

  /**
   * A tick sends exactly one message per due job, to that job's recipient
   * with that job's text, in the order the jobs are stored, and nothing else.
   */
  lemma {:induction false} DueIsMatchingJobs(jobs: seq<Job>, now: string)
    ensures |Due(jobs, now)| == |MatchIndices(jobs, now)|
    ensures forall k :: 0 <= k < |Due(jobs, now)| ==>
              Due(jobs, now)[k] == Delivery(jobs[MatchIndices(jobs, now)[k]])
  {
    if jobs != [] {
      var n := |jobs| - 1;
      DueIsMatchingJobs(jobs[..n], now);
      var idx := MatchIndices(jobs, now);
      var prev := MatchIndices(jobs[..n], now);
      forall k | 0 <= k < |prev|
        ensures jobs[..n][prev[k]] == jobs[idx[k]]
      {
        assert idx[k] == prev[k];
      }
    }
  }

  /** A tick sends nothing exactly when no stored job is due. */
  lemma {:induction false} NothingDueNothingSent(jobs: seq<Job>, now: string)
    ensures Due(jobs, now) == [] <==> forall j :: j in jobs ==> !IsDue(j, now)
  {
    if jobs != [] {
      var n := |jobs| - 1;
      NothingDueNothingSent(jobs[..n], now);
      assert jobs == jobs[..n] + [jobs[n]];
    }
  }

  /** Appending jobs appends their sends. */
  lemma {:induction false} DueAppend(a: seq<Job>, b: seq<Job>, now: string)
    ensures Due(a + b, now) == Due(a, now) + Due(b, now)
    decreases |b|
  {
    if b != [] {
      var n := |b| - 1;
      assert (a + b)[..|a| + n] == a + b[..n];
      DueAppend(a, b[..n], now);
    } else {
      assert a + b == a;
    }
  }

  /** The state the bot keeps between calls. */
  class Bot {
    var schedules: seq<Job>
    var outbox: seq<Outgoing>

    /** Every stored time and message came from a lower-cased body. */
    ghost predicate Valid()
      reads this
    {
      forall k :: 0 <= k < |schedules| ==>
        IsLower(schedules[k].message) &&
        (schedules[k].time.Some? ==> IsLower(schedules[k].time.value))
    }

    constructor ()
      ensures Valid()
      ensures schedules == [] && outbox == []
    {
      schedules := [];
      outbox := [];
    }

    /** Hands one message to the messaging client. */
    method SendMessage(to: string, text: string)
      modifies this`outbox
      ensures outbox == old(outbox) + [Outgoing(to, text)]
    {
      outbox := outbox + [Outgoing(to, text)];
    }

    /**
     * Handles one inbound message from `from`. A body starting with the
     * keyword appends one job and confirms it; any other body, a missing
     * one included, only gets the usage text back.
     */
    method Webhook(from: string, body: Option<string>)
      requires Valid()
      modifies this
      ensures Valid()
      ensures old(schedules) <= schedules
      ensures |outbox| == |old(outbox)| + 1 && old(outbox) <= outbox
      ensures outbox[|outbox| - 1].to == from
      ensures var text := Normalize(body);
              if StartsWith(text, Keyword) then
                var job := Job(from, ScheduleTime(text), ScheduleMessage(text));
                && schedules == old(schedules) + [job]
                && outbox == old(outbox) + [Outgoing(from, Confirmation(job.message, job.time))]
              else
                && schedules == old(schedules)
                && outbox == old(outbox) + [Outgoing(from, UsageReply)]
    {
      var text := Normalize(body);
      if StartsWith(text, Keyword) {
        var time := ScheduleTime(text);
        var message := ScheduleMessage(text);
        ExtractedLower(text);
        schedules := schedules + [Job(from, time, message)];
        SendMessage(from, Confirmation(message, time));
      } else {
        SendMessage(from, UsageReply);
      }
    }

    /** One run of the minute job at wall-clock time `now` ("HH:MM"). */
    method Tick(now: string)
      modifies this`outbox
      ensures schedules == old(schedules)
      ensures outbox == old(outbox) + Due(schedules, now)
    {
      var i := 0;
      while i < |schedules|
        invariant 0 <= i <= |schedules|
        invariant outbox == old(outbox) + Due(schedules[..i], now)
      {
        var job := schedules[i];
        assert schedules[..i + 1][..i] == schedules[..i];
        if IsDue(job, now) {
          SendMessage(job.to, job.message);
        }
        i := i + 1;
      }
      assert schedules[..i] == schedules;
    }
  }

  /**
   * From command to delivery: the job the webhook stores for the body
   * "schedule <t> <m>", typed in any case and with a space-free `t`, is sent
   * as the lower-cased `m` to the sender by a tick at the lower-cased `t`,
   * after every earlier due job.
   */
  lemma ScheduledCommandIsDelivered(jobs: seq<Job>, from: string, t: string, m: string)
    requires Space !in t
    ensures var text := Normalize(Some(Keyword + [Space] + t + [Space] + m));
            var job := Job(from, ScheduleTime(text), ScheduleMessage(text));
            && StartsWith(text, Keyword)
            && Due(jobs + [job], Lower(t)) == Due(jobs, Lower(t)) + [Outgoing(from, Lower(m))]
  {
    var body := Keyword + [Space] + t + [Space] + m;
    var lt, lm := Lower(t), Lower(m);
    assert Lower([Space]) == [Space];
    LowerKeepsLower(Keyword);
    LowerConcat(Keyword, [Space]);
    LowerConcat(Keyword + [Space], t);
    LowerConcat(Keyword + [Space] + t, [Space]);
    LowerConcat(Keyword + [Space] + t + [Space], m);
    assert Normalize(Some(body)) == Keyword + [Space] + lt + [Space] + lm;
    assert Space !in lt by {
      forall i | 0 <= i < |lt| ensures lt[i] != Space {
        assert t[i] != Space;
      }
    }
    WellFormedCommand(lt, lm);
    var job := Job(from, Some(lt), lm);
    assert (jobs + [job])[..|jobs|] == jobs;
  }
}
