/** `PostScheduler`: the thread that posts one fact every `interval` seconds,
    give or take a random `deviation`, retrying failed posts with a capped
    linear backoff.

    The clock, the random jitter of `random.triangular`, the successive facts
    the fact builder would generate and whether the publishing service accepts
    a post are all inputs here. The `sched.scheduler` queue is the sequence of
    `_post_fact` calls entered into it, with the time each is due. */
module Poster {
  import opened PyStr
  import opened TwitterEscape
  import opened FactStore

  const DefaultInterval: int := 3600 * 6
  const DefaultDeviation: int := 3600 * 2
  const DefaultRetryDelay: int := 30

  /** The longest escaped text the poster will publish. */
  const MaxPostLength: nat := 120

  /** The longest wait before a retry. */
  const MaxRetryDelay: int := 3600

  /** A call of `_post_fact` entered into the scheduler, due at `time`. */
  datatype Event = PostAt(time: int)

  /** How one run of `_post_fact` ended. */
  datatype Outcome =
    | Stopped                         // the scheduler is not running
    | TooEarly                        // the eligibility guard failed; rescheduled
    | NoFact                          // every candidate fact was too long
    | Failed(fact: string, delay: int) // publishing raised; retry after `delay`
    | Posted(fact: string)            // published and stored

  /** `random.triangular(-deviation, deviation)` returns a value between its two
      bounds, in whichever order they are given. */
  predicate InRange(x: int, a: int, b: int) {
    (a <= x <= b) || (b <= x <= a)
  }

  /** `next_post_timestamp()`: the last post's time, plus the interval, plus the jitter. */
  function NextPost(last: int, interval: int, deviation: int, jitter: int): (t: int)
    requires InRange(jitter, -deviation, deviation)
    ensures InRange(t, last + interval - deviation, last + interval + deviation)
  {
    last + interval + jitter
  }

  /** `_check_min_timestamp()`: it is later than the earliest time a post may go out.
      With a non-negative deviation, that is: some jitter `next_post_timestamp`
      may draw would already have made the post due before `now`. */
  function Eligible(now: int, last: int, interval: int, deviation: int): (ok: bool)
    ensures deviation >= 0 ==>
      (ok <==> exists jitter :: InRange(jitter, -deviation, deviation) && NextPost(last, interval, deviation, jitter) < now)
  {
    assert InRange(-deviation, -deviation, deviation);
    assert NextPost(last, interval, deviation, -deviation) == last + interval - deviation;
    now > last + interval - deviation
  }

  /** A post scheduled by `next_post_timestamp` passes the guard when it comes
      due, unless the jitter sits exactly at its lower bound. */
  lemma ScheduledPostEligible(last: int, interval: int, deviation: int, jitter: int)
    requires InRange(jitter, -deviation, deviation)
    ensures Eligible(NextPost(last, interval, deviation, jitter), last, interval, deviation)
      <==> jitter > -deviation
  {
  }

  /** The wait before the `failCount`-th retry: linear in the number of
      consecutive failures, never more than an hour. */
  function RetryDelay(retryDelay: int, failCount: nat): (d: int)
    ensures d <= MaxRetryDelay
    ensures retryDelay * failCount <= MaxRetryDelay ==> d == retryDelay * failCount
    ensures retryDelay * failCount >= MaxRetryDelay ==> d == MaxRetryDelay
  {
    if retryDelay * failCount <= MaxRetryDelay then retryDelay * failCount else MaxRetryDelay
  }

  /** With the default settings a post goes out between 4 and 8 hours after
      the last one, and retries wait 30 seconds per failure, up to an hour
      from the 120th consecutive failure on. */
  lemma DefaultSettings(last: int, jitter: int, failCount: nat)
    requires InRange(jitter, -DefaultDeviation, DefaultDeviation)
    ensures last + 4 * 3600 <= NextPost(last, DefaultInterval, DefaultDeviation, jitter) <= last + 8 * 3600
    ensures failCount < 120 ==> RetryDelay(DefaultRetryDelay, failCount) == 30 * failCount
    ensures failCount >= 120 ==> RetryDelay(DefaultRetryDelay, failCount) == MaxRetryDelay
  {
  }

  /** Each further failure waits at least as long as the one before. */
  lemma {:induction false} RetryDelayGrows(retryDelay: nat, failCount: nat, more: nat)
    requires failCount <= more
    ensures RetryDelay(retryDelay, failCount) <= RetryDelay(retryDelay, more)
  {
    MulMonotone(retryDelay, failCount, more);
  }

  lemma MulMonotone(a: nat, b: nat, c: nat)
    requires b <= c
    ensures a * b <= a * c
  {
  }

  /** `_new_fact()`: generate facts until one whose escaped text fits in a post.
      `candidates` are the facts the builder would return, in order; when none of
      them fits, the result is `None` (the source keeps generating). */
  method NewFact(cc: CharInfo, candidates: seq<string>) returns (r: Option<(string, string)>)
    ensures r.None? <==> forall i :: 0 <= i < |candidates| ==> |Escape(cc, candidates[i])| > MaxPostLength
    ensures r.Some? ==> exists i :: (0 <= i < |candidates| && candidates[i] == r.value.0
      && forall j :: 0 <= j < i ==> |Escape(cc, candidates[j])| > MaxPostLength)
    ensures r.Some? ==> r.value.1 == Escape(cc, r.value.0) && |r.value.1| <= MaxPostLength
  {
    var i := 0;
    while i < |candidates|
      invariant i <= |candidates|
      invariant forall j :: 0 <= j < i ==> |Escape(cc, candidates[j])| > MaxPostLength
    {
      var fact := candidates[i];
      var escaped := Escape(cc, fact);
      if |escaped| <= MaxPostLength {
        return Some((fact, escaped));
      }
      i := i + 1;
    }
    return None;
  }

  class PostScheduler {
    const interval: int
    const deviation: int
    const retryDelay: int
    const database: Database
    var running: bool
    var failCount: nat
    /** Every event entered into the scheduler since it was last stopped, in
        entry order; events that have already fired are not removed. */
    var queue: seq<Event>
    /** The texts handed to the publishing service, in order. */
    var sent: seq<string>

    ghost predicate Valid()
      reads this, database
    {
      database.Valid()
    }

    /** A scheduler over `database`, not yet started. */
    constructor (database: Database, interval: int, deviation: int, retryDelay: int)
      requires database.Valid()
      ensures Valid()
      ensures this.database == database && this.interval == interval
      ensures this.deviation == deviation && this.retryDelay == retryDelay
      ensures !running && failCount == 0 && queue == [] && sent == []
    {
      this.database := database;
      this.interval := interval;
      this.deviation := deviation;
      this.retryDelay := retryDelay;
      running := false;
      failCount := 0;
      queue := [];
      sent := [];
    }

    /** `next_post_timestamp()` with the given jitter. */
    function NextPostTimestamp(jitter: int): (t: int)
      reads this, database
      requires InRange(jitter, -deviation, deviation)
      ensures InRange(t, LastTimestamp(database.rows) + interval - deviation,
                         LastTimestamp(database.rows) + interval + deviation)
    {
      NextPost(LastTimestamp(database.rows), interval, deviation, jitter)
    }

    /** `_check_min_timestamp()` at time `now`: later than `interval -
        deviation` after every stored post (after time 0 when none is stored). */
    function CheckMinTimestamp(now: int): (ok: bool)
      reads this, database
      ensures database.rows == [] ==> (ok <==> now > interval - deviation)
      ensures database.rows != [] ==>
        (ok <==> forall k :: 0 <= k < |database.rows| ==> database.rows[k].timestamp + interval - deviation < now)
    {
      Eligible(now, LastTimestamp(database.rows), interval, deviation)
    }

    /** `_schedule_post()`: while running, enter a post at the next post time. */
    method SchedulePost(jitter: int)
      requires InRange(jitter, -deviation, deviation)
      modifies this`queue
      ensures queue == if running then old(queue) + [PostAt(NextPostTimestamp(jitter))] else old(queue)
    {
      if !running {
        return;
      }
      queue := queue + [PostAt(NextPostTimestamp(jitter))];
    }

    /** `run()`: start running and schedule the first post (the thread then
        blocks in the scheduler, which is not modelled). */
    method Run(jitter: int)
      requires InRange(jitter, -deviation, deviation)
      modifies this`running, this`queue
      ensures running
      ensures queue == old(queue) + [PostAt(NextPostTimestamp(jitter))]
    {
      running := true;
      SchedulePost(jitter);
    }

    /** `_post_fact()` at time `now`. `candidates` are the facts the builder
        would generate, `publishOk` says whether the publishing service accepts
        the post, `jitter` is the draw of `random.triangular` for rescheduling. */
    method PostFact(cc: CharInfo, now: int, candidates: seq<string>, publishOk: bool, jitter: int)
      returns (outcome: Outcome)
      requires Valid()
      requires InRange(jitter, -deviation, deviation)
      modifies this, database
      ensures Valid()
      // Nothing happens once stopped.
      ensures outcome.Stopped? <==> !old(running)
      ensures outcome.Stopped? ==> unchanged(this) && unchanged(database)
      // Too early: no fact, no publishing, no row; only a new post is entered.
      ensures outcome.TooEarly? <==>
        old(running) && !Eligible(now, old(LastTimestamp(database.rows)), interval, deviation)
      ensures outcome.TooEarly? ==>
        && unchanged(database) && sent == old(sent) && failCount == old(failCount)
        && queue == old(queue) + [PostAt(old(LastTimestamp(database.rows)) + interval + jitter)]
      // No candidate short enough: nothing changes.
      ensures outcome.NoFact? ==> (unchanged(this) && unchanged(database)
        && forall i :: 0 <= i < |candidates| ==> |Escape(cc, candidates[i])| > MaxPostLength)
      // A fact was chosen: its escaped text is what is sent, and it fits.
      ensures (outcome.Failed? || outcome.Posted?) ==>
        && old(running) && Eligible(now, old(LastTimestamp(database.rows)), interval, deviation)
        && outcome.fact in candidates
        && (exists i :: 0 <= i < |candidates| && candidates[i] == outcome.fact
              && forall j :: 0 <= j < i ==> |Escape(cc, candidates[j])| > MaxPostLength)
        && |Escape(cc, outcome.fact)| <= MaxPostLength
        && sent == old(sent) + [Escape(cc, outcome.fact)]
      // Publishing failed: one more failure, a capped retry, no row.
      ensures outcome.Failed? <==> old(running) && !publishOk && !outcome.TooEarly? && !outcome.NoFact?
      ensures outcome.Failed? ==>
        && failCount == old(failCount) + 1
        && outcome.delay == RetryDelay(retryDelay, failCount)
        && queue == old(queue) + [PostAt(now + outcome.delay)]
        && unchanged(database)
      // Published: the counter resets, the raw text is stored, the next post is entered.
      ensures outcome.Posted? ==>
        && publishOk
        && failCount == 0
        && database.rows == old(database.rows) + [Row(old(database.nextId), now, outcome.fact)]
        && database.nextId == old(database.nextId) + 1
        && queue == old(queue) + [PostAt(NextPostTimestamp(jitter))]
      ensures running == old(running)
    {
      if !running {
        return Stopped;
      }
      if !CheckMinTimestamp(now) {
        SchedulePost(jitter);
        return TooEarly;
      }
      var chosen := NewFact(cc, candidates);
      if chosen.None? {
        return NoFact;
      }
      var (factText, escapedFactText) := chosen.value;
      sent := sent + [escapedFactText];
      if !publishOk {
        failCount := failCount + 1;
        var delay := RetryDelay(retryDelay, failCount);
        queue := queue + [PostAt(now + delay)];
        return Failed(factText, delay);
      }
      failCount := 0;
      database.InsertFact(factText, now);
      SchedulePost(jitter);
      outcome := Posted(factText);
    }

    /** `stop()`: stop running and cancel every pending event. */
    method Stop()
      modifies this`running, this`queue
      ensures !running && queue == []
    {
      running := false;
      var pending := queue;
      for i := 0 to |pending|
        invariant !running && queue == pending[i..]
      {
        queue := queue[1..];
      }
    }
  }

  /** After a success the next post is due between `interval - deviation` and
      `interval + deviation` after the time of the post just stored. */
  lemma PostedThenScheduled(rows: seq<Row>, row: Row, interval: int, deviation: int, jitter: int)
    requires InRange(jitter, -deviation, deviation)
    requires forall k :: 0 <= k < |rows| ==> rows[k].timestamp <= row.timestamp
    ensures NextPost(LastTimestamp(rows + [row]), interval, deviation, jitter) - row.timestamp
      == interval + jitter
  {
    var all := rows + [row];
    assert all[..|all| - 1] == rows;
  }
}
