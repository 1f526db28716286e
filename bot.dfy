/**
 * The users, subscriptions and jobs of the bot: the three collections of
 * `bot_data` (`known_users`, `active_users`, `birthdays`), the job queue,
 * the per-user `admin_mode` flag, and the handlers that update them
 * (`start`, `stop`, `handle_message`, `send_weekly_update`,
 * `check_and_send_birthday`, `admin_button`, `admin_message_handler`).
 */
module Bot {
  import opened Wrappers
  import opened Calendar
  import opened PyText
  import opened DateEntry
  import opened Ages
  import opened Report
  import opened Jobs
  import opened Sets

  /** The three collections of `bot_data`. */
  datatype Collections = Collections(known: set<int>, active: set<int>, birthdays: map<int, Date>)

  /** User `v` has the same memberships and the same stored birthday in `a` and in `b`. */
  predicate Agree(a: Collections, b: Collections, v: int) {
    && (v in a.known <==> v in b.known)
    && (v in a.active <==> v in b.active)
    && (v in a.birthdays <==> v in b.birthdays)
    && (v in a.birthdays && v in b.birthdays ==> a.birthdays[v] == b.birthdays[v])
  }

  /** Every active user has a stored birthday: all the handlers keep this. */
  predicate ActiveHaveBirthdays(c: Collections) {
    c.active <= c.birthdays.Keys
  }

  // ---------------------------------------------------------------------
  // The transitions, on values

  /** `start` (bot.py lines 299-303): the user becomes known, and nothing else changes. */
  function AfterStart(c: Collections, uid: int): (r: Collections)
    ensures uid in r.known && r.active == c.active && r.birthdays == c.birthdays
    ensures forall v :: v != uid ==> Agree(c, r, v)
    ensures ActiveHaveBirthdays(c) ==> ActiveHaveBirthdays(r)
  {
    c.(known := c.known + {uid})
  }

  /**
   * `stop` (bot.py lines 314-335): a known user leaves all three
   * collections; for anyone else nothing changes.
   */
  function AfterStop(c: Collections, uid: int): (r: Collections)
    ensures uid in c.known ==> uid !in r.known && uid !in r.active && uid !in r.birthdays
    ensures uid !in c.known ==> r == c
    ensures forall v :: v != uid ==> Agree(c, r, v)
    ensures ActiveHaveBirthdays(c) ==> ActiveHaveBirthdays(r)
  {
    if uid in c.known then Collections(c.known - {uid}, c.active - {uid}, c.birthdays - {uid}) else c
  }

  /**
   * The collections after `handle_message` (bot.py lines 386-429): a menu
   * button changes nothing; any other text makes the user known; only an
   * accepted date stores the birthday and makes the user active.
   */
  function AfterEntry(c: Collections, uid: int, outcome: EntryOutcome): (r: Collections)
    ensures IsMenuOutcome(outcome) ==> r == c
    ensures !IsMenuOutcome(outcome) ==> uid in r.known
    ensures outcome.Accepted? ==> uid in r.active && uid in r.birthdays && r.birthdays[uid] == outcome.birth
    ensures !outcome.Accepted? ==> r.active == c.active && r.birthdays == c.birthdays
    ensures forall v :: v != uid ==> Agree(c, r, v)
    ensures ActiveHaveBirthdays(c) ==> ActiveHaveBirthdays(r)
  {
    if IsMenuOutcome(outcome) then c
    else if outcome.Accepted? then Collections(c.known + {uid}, c.active + {uid}, c.birthdays[uid := outcome.birth])
    else c.(known := c.known + {uid})
  }

  /**
   * A failed weekly send (bot.py lines 228-235): a known user is dropped
   * from the known and the active users, but the stored birthday stays.
   */
  function AfterWeeklyFailure(c: Collections, uid: int): (r: Collections)
    ensures uid in c.known ==> uid !in r.known && uid !in r.active
    ensures uid !in c.known ==> r == c
    ensures r.birthdays == c.birthdays
    ensures forall v :: v != uid ==> Agree(c, r, v)
    ensures ActiveHaveBirthdays(c) ==> ActiveHaveBirthdays(r)
  {
    if uid in c.known then c.(known := c.known - {uid}, active := c.active - {uid}) else c
  }

  /**
   * The broadcast (bot.py lines 513-542): every known user that could not
   * be reached is dropped from the known users, and from nothing else.
   */
  function AfterBroadcast(c: Collections, reachable: set<int>): (r: Collections)
    ensures r.known <= c.known
    ensures forall v :: v in c.known ==> (v in r.known <==> v in reachable)
    ensures r.active == c.active && r.birthdays == c.birthdays
    ensures ActiveHaveBirthdays(c) ==> ActiveHaveBirthdays(r)
  {
    c.(known := c.known * reachable)
  }

  /**
   * A user the broadcast could not reach is still active, with its
   * birthday, and `stop` then answers "not subscribed" and changes nothing:
   * the user's jobs keep running.
   */
  lemma StopIgnoresPrunedUser(c: Collections, uid: int, reachable: set<int>)
    requires uid in c.known && uid in c.active && uid in c.birthdays && uid !in reachable
    ensures var r := AfterBroadcast(c, reachable);
      && uid !in r.known && uid in r.active && uid in r.birthdays
      && AfterStop(r, uid) == r
  {
  }

  /** Every active user is known, unless a broadcast has dropped it: the broadcast alone breaks this. */
  lemma BroadcastLeavesActiveUnknown()
    ensures var c := Collections({7}, {7}, map[7 := Date(1990, 5, 10)]);
      && c.active <= c.known
      && !(AfterBroadcast(c, {}).active <= AfterBroadcast(c, {}).known)
  {
    var c := Collections({7}, {7}, map[7 := Date(1990, 5, 10)]);
    assert 7 in AfterBroadcast(c, {}).active;
  }

  /** The two counters of the broadcast add up to the number of known users before it. */
  lemma BroadcastCounts(users: set<int>, reachable: set<int>)
    ensures |users * reachable| + |users - reachable| == |users|
  {
    assert users == (users * reachable) + (users - reachable);
    assert (users * reachable) * (users - reachable) == {};
  }

  // ---------------------------------------------------------------------
  // The job callbacks and the admin replies

  /** What `send_weekly_update` sends: the whole days and weeks lived. */
  datatype WeeklyMessage = WeeklyMessage(days: int, weeks: int)

  /**
   * `check_and_send_birthday` (bot.py lines 244-268): the age announced
   * today, or nothing when the user has no stored birthday or today is not
   * the greeting day. The announced age is the completed age, one more for a
   * Feb-29 birthday greeted on Feb 28.
   */
  function Greeting(birthdays: map<int, Date>, uid: int, today: Date): (g: Option<int>)
    requires uid in birthdays ==> ValidDate(birthdays[uid])
    requires ValidDate(today)
    ensures g.Some? <==> uid in birthdays && IsGreetingDay(birthdays[uid], today)
    ensures g.Some? ==> g.value == AgeOn(birthdays[uid], today)
                                   + (if birthdays[uid].day == 29 && today.day == 28 then 1 else 0)
  {
    if uid !in birthdays || !IsGreetingDay(birthdays[uid], today) then None
    else
      GreetingAgeIsAge(birthdays[uid], today);
      Some(GreetingAge(birthdays[uid], today))
  }

  /** One line of `export_users.txt`. */
  function ExportLine(uid: int): string {
    DecimalString(uid) + "\n"
  }

  /** Each exported line reads back, with `int()`, as the user id it was written for. */
  lemma ExportLineParses(uid: int)
    ensures ParseInt(ExportLine(uid)) == Some(uid)
  {
    var s := DecimalString(uid);
    assert IsSpace('\n');
    StripTrailing(s, "\n");
    StripDecimal(uid);
    ParseDecimalRoundTrip(uid);
  }

  /** Different users give different lines. */
  lemma ExportLinesDistinct(a: int, b: int)
    requires ExportLine(a) == ExportLine(b)
    ensures a == b
  {
    ExportLineParses(a);
    ExportLineParses(b);
  }

  /** `lines` has one line per user of `users`, in some order, and no line twice. */
  ghost predicate IsExportOf(users: set<int>, lines: seq<string>) {
    && |lines| == |users|
    && (forall u :: u in users <==> ExportLine(u) in lines)
    && (forall i, j :: 0 <= i < j < |lines| ==> lines[i] != lines[j])
  }

  /** The loop of `admin_export`: one line per known user, in the set's iteration order. */
  method ExportLines(users: set<int>) returns (lines: seq<string>)
    ensures IsExportOf(users, lines)
  {
    lines := [];
    var rest := users;
    while rest != {}
      invariant rest <= users && |lines| + |rest| == |users|
      invariant forall u :: u in users <==> (u in rest || ExportLine(u) in lines)
      invariant forall u :: u in rest ==> ExportLine(u) !in lines
      invariant forall i, j :: 0 <= i < j < |lines| ==> lines[i] != lines[j]
      decreases |rest|
    {
      NonEmpty(rest);
      var uid :| uid in rest;
      forall u | u in rest - {uid}
        ensures ExportLine(u) != ExportLine(uid)
      {
        if ExportLine(u) == ExportLine(uid) {
          ExportLinesDistinct(u, uid);
        }
      }
      forall u | ExportLine(u) == ExportLine(uid)
        ensures u == uid
      {
        ExportLinesDistinct(u, uid);
      }
      lines := lines + [ExportLine(uid)];
      rest := rest - {uid};
    }
  }

  /**
   * The sending loop of `admin_message_handler` over a snapshot of the known
   * users: every user reached counts as a success, every other one as a
   * failure and is discarded.
   */
  method Deliver(users: set<int>, reachable: set<int>) returns (kept: set<int>, success: int, failed: int)
    ensures kept == users * reachable
    ensures success == |users * reachable| && failed == |users - reachable|
  {
    kept := users;
    success, failed := 0, 0;
    var rest := users;
    ghost var sent: set<int> := {};
    ghost var lost: set<int> := {};
    while rest != {}
      invariant rest <= users && sent == (users - rest) * reachable && lost == (users - rest) - reachable
      invariant kept == users - lost
      invariant success == |sent| && failed == |lost|
      decreases |rest|
    {
      NonEmpty(rest);
      var uid :| uid in rest;
      if uid in reachable {
        assert uid !in sent;
        sent := sent + {uid};
        success := success + 1;
      } else {
        assert uid !in lost;
        kept := kept - {uid};
        lost := lost + {uid};
        failed := failed + 1;
      }
      rest := rest - {uid};
    }
  }

  /** The replies of `admin_button`. */
  datatype AdminReply =
    | BroadcastPrompt
    | StatsReply(total: int, active: int, median: int)
    | ExportReply(lines: seq<string>)
    | NoReply

  // ---------------------------------------------------------------------
  // The bot

  class Bot {
    var knownUsers: set<int>
    var activeUsers: set<int>
    var birthdays: map<int, Date>
    /** The users whose `user_data['admin_mode']` is `'broadcast'`. */
    var broadcastArmed: set<int>
    /** `context.job_queue`, which may be absent. */
    const queue: JobQueue?
    /** `YOUR_USER_ID`. */
    const operatorId: int

    ghost predicate Valid()
      reads this, queue
    {
      && (queue != null ==> queue.Valid())
      && forall u :: u in birthdays ==> ValidDate(birthdays[u])
    }

    function State(): Collections
      reads this
    {
      Collections(knownUsers, activeUsers, birthdays)
    }

    /** The collections as `main` loads them, with or without a job queue, and no admin flag set. */
    constructor (known: set<int>, stored: map<int, Date>, active: set<int>, operator: int, withQueue: bool)
      requires forall u :: u in stored ==> ValidDate(stored[u])
      ensures Valid() && State() == Collections(known, active, stored)
      ensures broadcastArmed == {} && operatorId == operator
      ensures withQueue <==> queue != null
      ensures queue != null ==> fresh(queue) && queue.jobs == []
    {
      knownUsers, activeUsers, birthdays := known, active, stored;
      broadcastArmed := {};
      operatorId := operator;
      if withQueue {
        queue := new JobQueue();
      } else {
        queue := null;
      }
    }

    /** `start`. */
    method Start(uid: int)
      requires Valid()
      modifies this
      ensures Valid() && State() == AfterStart(old(State()), uid)
      ensures broadcastArmed == old(broadcastArmed)
    {
      knownUsers := knownUsers + {uid};
    }

    /** `stop`: for a known user, the collections forget it and both of its jobs are cancelled. */
    method Stop(uid: int) returns (wasSubscribed: bool)
      requires Valid()
      modifies this, queue
      ensures Valid() && wasSubscribed == (uid in old(knownUsers))
      ensures State() == AfterStop(old(State()), uid) && broadcastArmed == old(broadcastArmed)
      ensures queue != null ==> queue.nextId == old(queue.nextId)
      ensures queue != null ==> queue.jobs == if wasSubscribed then CancelUser(old(queue.jobs), uid) else old(queue.jobs)
    {
      wasSubscribed := uid in knownUsers;
      if !wasSubscribed {
        return;
      }
      knownUsers := knownUsers - {uid};
      activeUsers := activeUsers - {uid};
      birthdays := birthdays - {uid};
      if queue != null {
        CancelJobsNamed(queue, WeeklyName(uid));
        CancelJobsNamed(queue, BirthdayName(uid));
      }
    }

    /**
     * `handle_message` for a user's text: the outcome of the date entry,
     * the statistics report (for the statistics button, and after an
     * accepted date) and the time units (for the time-units button). An
     * accepted date replaces the user's weekly and birthday jobs.
     */
    method HandleMessage(uid: int, text: string, now: Moment)
      returns (outcome: EntryOutcome, stats: Option<Stats>, units: Option<TimeUnits>)
      requires Valid() && ValidMoment(now)
      modifies this, queue
      ensures Valid() && outcome == ClassifyEntry(text, now)
      ensures State() == AfterEntry(old(State()), uid, outcome) && broadcastArmed == old(broadcastArmed)
      ensures stats.Some? <==> outcome.Accepted? || (outcome == ShowStats && uid in birthdays)
      ensures stats.Some? ==> stats.value == StatsFor(birthdays[uid], BagMedian(AgeBag(activeUsers, birthdays, now.date)), now)
      ensures units == if outcome == ShowTimeUnits then TimeUnitsFor(uid, birthdays, now) else None
      ensures queue != null && !outcome.Accepted? ==> queue.jobs == old(queue.jobs) && queue.nextId == old(queue.nextId)
      ensures queue != null && outcome.Accepted? ==>
        && queue.nextId == old(queue.nextId) + 2
        && queue.jobs == ScheduleUser(old(queue.jobs), old(queue.nextId), uid, outcome.birth)
    {
      outcome := ClassifyEntry(text, now);
      stats, units := None, None;
      if outcome == ShowTimeUnits {
        units := TimeUnitsFor(uid, birthdays, now);
      } else if outcome == ShowStats {
        stats := GenerateReport(uid, birthdays, activeUsers, now);
      }
      RecordEntry(uid, outcome);
      if outcome.Accepted? {
        stats := GenerateReport(uid, birthdays, activeUsers, now);
      }
    }

    /** The updates of `handle_message` once the outcome is known. */
    method RecordEntry(uid: int, outcome: EntryOutcome)
      requires Valid() && (outcome.Accepted? ==> ValidDate(outcome.birth))
      modifies this, queue
      ensures Valid() && State() == AfterEntry(old(State()), uid, outcome) && broadcastArmed == old(broadcastArmed)
      ensures queue != null && !outcome.Accepted? ==> queue.jobs == old(queue.jobs) && queue.nextId == old(queue.nextId)
      ensures queue != null && outcome.Accepted? ==>
        && queue.nextId == old(queue.nextId) + 2
        && queue.jobs == ScheduleUser(old(queue.jobs), old(queue.nextId), uid, outcome.birth)
    {
      if outcome.Accepted? {
        StoreBirthday(uid, outcome.birth);
      } else if !IsMenuOutcome(outcome) {
        knownUsers := knownUsers + {uid};
      }
    }

    /** The accepted-date branch of `handle_message`: store the date and replace both of the user's jobs. */
    method StoreBirthday(uid: int, birth: Date)
      requires Valid() && ValidDate(birth)
      modifies this, queue
      ensures Valid() && broadcastArmed == old(broadcastArmed)
      ensures State() == Collections(old(knownUsers) + {uid}, old(activeUsers) + {uid}, old(birthdays)[uid := birth])
      ensures queue != null ==>
        && queue.nextId == old(queue.nextId) + 2
        && queue.jobs == ScheduleUser(old(queue.jobs), old(queue.nextId), uid, birth)
    {
      knownUsers := knownUsers + {uid};
      birthdays := birthdays[uid := birth];
      activeUsers := activeUsers + {uid};
      ScheduleWeeklyUpdate(queue, uid, birth);
      ScheduleBirthdayGreeting(queue, uid);
    }

    /**
     * `send_weekly_update`: nothing for a user without a stored birthday;
     * otherwise the days and weeks lived, and a failed delivery drops a
     * known user from the known and active users. The jobs are not touched.
     */
    method WeeklyUpdate(uid: int, now: Moment, delivered: bool) returns (message: Option<WeeklyMessage>)
      requires Valid() && ValidMoment(now)
      modifies this
      ensures Valid() && broadcastArmed == old(broadcastArmed)
      ensures message.None? <==> uid !in old(birthdays)
      ensures message.Some? ==> message.value == WeeklyMessage(DaysLived(old(birthdays)[uid], now), WeeksLived(old(birthdays)[uid], now))
      ensures State() == if message.Some? && !delivered then AfterWeeklyFailure(old(State()), uid) else old(State())
    {
      if uid !in birthdays {
        return None;
      }
      var birth := birthdays[uid];
      var days := DaysLived(birth, now);
      var weeks := days / 7;
      message := Some(WeeklyMessage(days, weeks));
      if !delivered && uid in knownUsers {
        knownUsers := knownUsers - {uid};
        activeUsers := activeUsers - {uid};
      }
    }

    /**
     * `admin_button`, for whoever pressed the button (there is no check of
     * the operator id): the broadcast button sets the presser's flag, the
     * statistics button counts the users and gives the median age, the
     * export button gives one line per known user.
     */
    method AdminButton(uid: int, data: string, now: Moment) returns (reply: AdminReply)
      requires Valid()
      modifies this
      ensures Valid() && State() == old(State())
      ensures broadcastArmed == if data == "admin_broadcast" then old(broadcastArmed) + {uid} else old(broadcastArmed)
      ensures data == "admin_broadcast" ==> reply == BroadcastPrompt
      ensures data == "admin_stats" ==>
        reply == StatsReply(|knownUsers|, |activeUsers|, BagMedian(AgeBag(activeUsers, birthdays, now.date)))
      ensures data == "admin_export" ==> reply.ExportReply? && IsExportOf(knownUsers, reply.lines)
      ensures data != "admin_broadcast" && data != "admin_stats" && data != "admin_export" ==> reply == NoReply
    {
      if data == "admin_broadcast" {
        broadcastArmed := broadcastArmed + {uid};
        reply := BroadcastPrompt;
      } else if data == "admin_stats" {
        var median := MedianAge(activeUsers, birthdays, now.date);
        reply := StatsReply(|knownUsers|, |activeUsers|, median);
      } else if data == "admin_export" {
        var lines := ExportLines(knownUsers);
        reply := ExportReply(lines);
      } else {
        reply := NoReply;
      }
    }

    /**
     * `admin_message_handler`: only the operator with the broadcast flag set
     * is served; the flag is cleared, the message goes to every known user,
     * and the unreachable ones are dropped from the known users.
     */
    method AdminMessage(uid: int, reachable: set<int>) returns (handled: bool, success: int, failed: int)
      requires Valid()
      modifies this
      ensures Valid() && handled == (uid == operatorId && uid in old(broadcastArmed))
      ensures !handled ==> State() == old(State()) && broadcastArmed == old(broadcastArmed) && success == 0 && failed == 0
      ensures handled ==> broadcastArmed == old(broadcastArmed) - {uid}
      ensures handled ==> State() == AfterBroadcast(old(State()), reachable)
      ensures handled ==> success == |old(knownUsers) * reachable| && failed == |old(knownUsers) - reachable|
      ensures handled ==> success + failed == |old(knownUsers)|
    {
      handled := uid == operatorId && uid in broadcastArmed;
      if !handled {
        return false, 0, 0;
      }
      broadcastArmed := broadcastArmed - {uid};
      var kept;
      kept, success, failed := Deliver(knownUsers, reachable);
      BroadcastCounts(knownUsers, reachable);
      knownUsers := kept;
    }
  }
}
