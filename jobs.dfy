/**
 * The job registry of the bot: a queue of named daily jobs, the names
 * `weekly_<uid>` and `birthday_<uid>`, and the cancel-then-register
 * pattern of `schedule_weekly_update` / `schedule_birthday_greeting`
 * (bot.py lines 271-294). Removal of a job takes effect at once.
 */
module Jobs {
  import opened Wrappers
  import opened Calendar
  import opened PyText

  /** The callback a job runs. */
  datatype Callback = SendWeeklyUpdate | CheckAndSendBirthday

  /**
   * A job as `run_daily` registers it: a distinct `id` stands for the job
   * object's identity; `days` is the tuple of weekdays passed, `None` for
   * the library default of every day; `minuteOfDay` is the time of day.
   */
  datatype Job = Job(id: nat, name: string, callback: Callback, userId: int, minuteOfDay: int, days: Option<int>)

  /** `datetime.strptime("08:00", ...)` and `"09:00"` as minutes after midnight. */
  const BirthdayMinute: int := 8 * 60
  const WeeklyMinute: int := 9 * 60

  function WeeklyName(uid: int): string {
    "weekly_" + DecimalString(uid)
  }

  function BirthdayName(uid: int): string {
    "birthday_" + DecimalString(uid)
  }

  lemma DropPrefix(p: string, s: string, t: string)
    requires p + s == p + t
    ensures s == t
  {
    assert s == (p + s)[|p|..];
    assert t == (p + t)[|p|..];
  }

  /** Different users get different job names, and weekly and birthday names never clash. */
  lemma JobNamesDistinct(a: int, b: int)
    ensures WeeklyName(a) == WeeklyName(b) <==> a == b
    ensures BirthdayName(a) == BirthdayName(b) <==> a == b
    ensures WeeklyName(a) != BirthdayName(b)
  {
    if WeeklyName(a) == WeeklyName(b) {
      DropPrefix("weekly_", DecimalString(a), DecimalString(b));
      DecimalStringInjective(a, b);
    }
    if BirthdayName(a) == BirthdayName(b) {
      DropPrefix("birthday_", DecimalString(a), DecimalString(b));
      DecimalStringInjective(a, b);
    }
    assert WeeklyName(a)[0] == 'w' && BirthdayName(b)[0] == 'b';
  }

  // ---------------------------------------------------------------------
  // Sequences of jobs

  /** Job ids grow strictly along the queue, so no job occurs twice. */
  predicate IdsIncreasing(js: seq<Job>) {
    forall i, j :: 0 <= i < j < |js| ==> js[i].id < js[j].id
  }

  predicate IdsBelow(js: seq<Job>, bound: nat) {
    forall i :: 0 <= i < |js| ==> js[i].id < bound
  }

  predicate IdsAbove(js: seq<Job>, bound: nat) {
    forall i :: 0 <= i < |js| ==> bound < js[i].id
  }

  lemma IncreasingTail(js: seq<Job>)
    requires js != [] && IdsIncreasing(js)
    ensures IdsIncreasing(js[1..]) && IdsAbove(js[1..], js[0].id)
  {
    forall i, j | 0 <= i < j < |js| - 1
      ensures js[1..][i].id < js[1..][j].id
    {
      assert js[1..][i] == js[i + 1] && js[1..][j] == js[j + 1];
    }
  }

  lemma IncreasingCons(h: Job, t: seq<Job>)
    requires IdsIncreasing(t) && IdsAbove(t, h.id)
    ensures IdsIncreasing([h] + t)
  {
    var r := [h] + t;
    forall i, j | 0 <= i < j < |r|
      ensures r[i].id < r[j].id
    {
      if i > 0 {
        assert r[i] == t[i - 1];
      }
      assert r[j] == t[j - 1];
    }
  }

  /** `get_jobs_by_name(name)`: the jobs of that name, in queue order. */
  function JobsNamed(js: seq<Job>, name: string): (r: seq<Job>)
    ensures |r| <= |js|
  {
    if js == [] then []
    else (if js[0].name == name then [js[0]] else []) + JobsNamed(js[1..], name)
  }

  /** The jobs found are exactly the queued jobs of that name. */
  lemma {:induction false} JobsNamedMembers(js: seq<Job>, name: string)
    ensures forall j :: j in JobsNamed(js, name) <==> j in js && j.name == name
  {
    if js != [] {
      JobsNamedMembers(js[1..], name);
      assert js == [js[0]] + js[1..];
    }
  }

  /** The queue without the jobs of one name. */
  function WithoutName(js: seq<Job>, name: string): (r: seq<Job>)
    ensures |r| <= |js|
    ensures forall i :: 0 <= i < |r| ==> r[i].name != name && r[i] in js
  {
    if js == [] then []
    else (if js[0].name == name then [] else [js[0]]) + WithoutName(js[1..], name)
  }

  /** The queue without the jobs whose ids were removed. */
  function WithoutIds(js: seq<Job>, ids: set<nat>): (r: seq<Job>)
    ensures |r| <= |js|
    ensures forall i :: 0 <= i < |r| ==> r[i].id !in ids && r[i] in js
    ensures forall j :: j in js && j.id !in ids ==> j in r
  {
    if js == [] then []
    else (if js[0].id in ids then [] else [js[0]]) + WithoutIds(js[1..], ids)
  }

  function IdsOf(js: seq<Job>): set<nat> {
    set j | j in js :: j.id
  }

  lemma IdsOfEmpty()
    ensures IdsOf([]) == {}
  {
  }

  lemma IdsOfAppend(js: seq<Job>, j: Job)
    ensures IdsOf(js + [j]) == IdsOf(js) + {j.id}
  {
    forall x | x in IdsOf(js + [j]) ensures x in IdsOf(js) + {j.id} {
      var k :| k in js + [j] && k.id == x;
      if k != j {
        assert k in js;
      }
    }
  }

  lemma JobsNamedCons(h: Job, t: seq<Job>, name: string)
    ensures JobsNamed([h] + t, name) == (if h.name == name then [h] else []) + JobsNamed(t, name)
  {
    assert ([h] + t)[1..] == t;
  }

  lemma WithoutNameCons(h: Job, t: seq<Job>, name: string)
    ensures WithoutName([h] + t, name) == (if h.name == name then [] else [h]) + WithoutName(t, name)
  {
    assert ([h] + t)[1..] == t;
  }

  lemma WithoutIdsCons(h: Job, t: seq<Job>, ids: set<nat>)
    ensures WithoutIds([h] + t, ids) == (if h.id in ids then [] else [h]) + WithoutIds(t, ids)
  {
    assert ([h] + t)[1..] == t;
  }

  lemma {:induction false} WithoutNoIds(js: seq<Job>)
    ensures WithoutIds(js, {}) == js
  {
    if js != [] {
      WithoutNoIds(js[1..]);
      assert js == [js[0]] + js[1..];
    }
  }

  lemma {:induction false} WithoutIdsKeepsOrder(js: seq<Job>, ids: set<nat>)
    requires IdsIncreasing(js)
    ensures IdsIncreasing(WithoutIds(js, ids))
    ensures forall b :: IdsBelow(js, b) ==> IdsBelow(WithoutIds(js, ids), b)
  {
    if js != [] {
      IncreasingTail(js);
      WithoutIdsKeepsOrder(js[1..], ids);
      var rest := WithoutIds(js[1..], ids);
      assert IdsAbove(rest, js[0].id) by {
        forall i | 0 <= i < |rest| ensures js[0].id < rest[i].id {
          assert rest[i] in js[1..];
        }
      }
      if js[0].id !in ids {
        IncreasingCons(js[0], rest);
      }
      forall b | IdsBelow(js, b) ensures IdsBelow(WithoutIds(js, ids), b) {
        assert IdsBelow(js[1..], b) by {
          forall i | 0 <= i < |js| - 1 ensures js[1..][i].id < b {
            assert js[1..][i] == js[i + 1];
          }
        }
      }
    }
  }

  /** Removing by a set of ids that picks out exactly the jobs of one name is removing that name. */
  lemma {:induction false} WithoutIdsAsName(js: seq<Job>, ids: set<nat>, name: string)
    requires forall i :: 0 <= i < |js| ==> (js[i].id in ids <==> js[i].name == name)
    ensures WithoutIds(js, ids) == WithoutName(js, name)
  {
    if js != [] {
      WithoutIdsAsName(js[1..], ids, name);
    }
  }

  /** With distinct ids, the ids of the jobs of one name pick out exactly those jobs. */
  lemma NamedIds(js: seq<Job>, name: string)
    requires IdsIncreasing(js)
    ensures forall i :: 0 <= i < |js| ==> (js[i].id in IdsOf(JobsNamed(js, name)) <==> js[i].name == name)
  {
    var named := JobsNamed(js, name);
    JobsNamedMembers(js, name);
    forall i | 0 <= i < |js|
      ensures js[i].id in IdsOf(named) <==> js[i].name == name
    {
      if js[i].name == name {
        assert js[i] in named;
      }
      if js[i].id in IdsOf(named) {
        var j :| j in named && j.id == js[i].id;
        var k :| 0 <= k < |js| && js[k] == j;
        assert k == i;
      }
    }
  }

  /** Removing the ids of all jobs of one name removes exactly the jobs of that name. */
  lemma RemoveNamedByIds(js: seq<Job>, name: string)
    requires IdsIncreasing(js)
    ensures WithoutIds(js, IdsOf(JobsNamed(js, name))) == WithoutName(js, name)
  {
    NamedIds(js, name);
    WithoutIdsAsName(js, IdsOf(JobsNamed(js, name)), name);
  }

  lemma {:induction false} WithoutOneMore(js: seq<Job>, ids: set<nat>, x: nat)
    ensures WithoutIds(WithoutIds(js, ids), {x}) == WithoutIds(js, ids + {x})
  {
    if js != [] {
      var h, t := js[0], js[1..];
      WithoutOneMore(t, ids, x);
      var rest := WithoutIds(t, ids);
      if h.id in ids {
        assert WithoutIds(js, ids) == rest;
      } else {
        assert WithoutIds(js, ids) == [h] + rest;
        WithoutIdsCons(h, rest, {x});
      }
    }
  }

  /** Removing the jobs of one name leaves the jobs of every other name as they were. */
  lemma {:induction false} OtherNamesKept(js: seq<Job>, name: string, other: string)
    requires other != name
    ensures JobsNamed(WithoutName(js, name), other) == JobsNamed(js, other)
  {
    if js != [] {
      var rest := WithoutName(js[1..], name);
      OtherNamesKept(js[1..], name, other);
      if js[0].name == name {
        assert WithoutName(js, name) == rest;
      } else {
        assert WithoutName(js, name) == [js[0]] + rest;
        JobsNamedCons(js[0], rest, other);
      }
    }
  }

  lemma {:induction false} NoneLeftNamed(js: seq<Job>, name: string)
    ensures JobsNamed(WithoutName(js, name), name) == []
  {
    if js != [] {
      var rest := WithoutName(js[1..], name);
      NoneLeftNamed(js[1..], name);
      if js[0].name == name {
        assert WithoutName(js, name) == rest;
      } else {
        assert WithoutName(js, name) == [js[0]] + rest;
        JobsNamedCons(js[0], rest, name);
      }
    }
  }

  lemma {:induction false} JobsNamedAppend(js: seq<Job>, j: Job, name: string)
    ensures JobsNamed(js + [j], name) == JobsNamed(js, name) + (if j.name == name then [j] else [])
  {
    var last := if j.name == name then [j] else [];
    if js == [] {
      JobsNamedCons(j, [], name);
      assert js + [j] == [j] + [];
    } else {
      var t := js[1..];
      var first := if js[0].name == name then [js[0]] else [];
      assert js + [j] == [js[0]] + (t + [j]);
      assert js == [js[0]] + t;
      JobsNamedCons(js[0], t + [j], name);
      JobsNamedCons(js[0], t, name);
      JobsNamedAppend(t, j, name);
      assert first + (JobsNamed(t, name) + last) == (first + JobsNamed(t, name)) + last;
    }
  }

  // ---------------------------------------------------------------------
  // The queue

  class JobQueue {
    var jobs: seq<Job>
    var nextId: nat

    ghost predicate Valid()
      reads this
    {
      IdsIncreasing(jobs) && IdsBelow(jobs, nextId)
    }

    /** An empty queue, as the application starts with. */
    constructor()
      ensures Valid() && jobs == [] && nextId == 0
    {
      jobs := [];
      nextId := 0;
    }

    /** `run_daily`: the new job is appended, with an id no other job has. */
    method RunDaily(callback: Callback, minuteOfDay: int, days: Option<int>, userId: int, name: string) returns (job: Job)
      requires Valid()
      modifies this
      ensures Valid()
      ensures job == Job(old(nextId), name, callback, userId, minuteOfDay, days)
      ensures jobs == old(jobs) + [job] && nextId == old(nextId) + 1
    {
      job := Job(nextId, name, callback, userId, minuteOfDay, days);
      jobs := jobs + [job];
      nextId := nextId + 1;
    }

    /** `job.schedule_removal()`, taken as immediate. */
    method ScheduleRemoval(job: Job)
      requires Valid()
      modifies this
      ensures Valid()
      ensures jobs == WithoutIds(old(jobs), {job.id}) && nextId == old(nextId)
    {
      WithoutIdsKeepsOrder(jobs, {job.id});
      jobs := WithoutIds(jobs, {job.id});
    }
  }

  lemma RemoveStep(start: seq<Job>, found: seq<Job>, k: int)
    requires 0 <= k < |found|
    ensures WithoutIds(WithoutIds(start, IdsOf(found[..k])), {found[k].id}) == WithoutIds(start, IdsOf(found[..k + 1]))
  {
    WithoutOneMore(start, IdsOf(found[..k]), found[k].id);
    assert found[..k + 1] == found[..k] + [found[k]];
    IdsOfAppend(found[..k], found[k]);
  }

  /** `for job in jobs: job.schedule_removal()`. */
  method RemoveAll(q: JobQueue, found: seq<Job>)
    requires q.Valid()
    modifies q
    ensures q.Valid()
    ensures q.jobs == WithoutIds(old(q.jobs), IdsOf(found)) && q.nextId == old(q.nextId)
  {
    ghost var start := q.jobs;
    var k := 0;
    IdsOfEmpty();
    WithoutNoIds(start);
    assert found[..0] == [];
    while k < |found|
      invariant 0 <= k <= |found|
      invariant q.Valid() && q.nextId == old(q.nextId)
      invariant q.jobs == WithoutIds(start, IdsOf(found[..k]))
    {
      q.ScheduleRemoval(found[k]);
      RemoveStep(start, found, k);
      k := k + 1;
    }
    assert found[..k] == found;
  }

  /** `for job in job_queue.get_jobs_by_name(name): job.schedule_removal()`. */
  method CancelJobsNamed(q: JobQueue, name: string)
    requires q.Valid()
    modifies q
    ensures q.Valid()
    ensures q.jobs == WithoutName(old(q.jobs), name) && q.nextId == old(q.nextId)
  {
    var found := JobsNamed(q.jobs, name);
    RemoveNamedByIds(q.jobs, name);
    RemoveAll(q, found);
  }

  /**
   * The registration shared by both schedulers: after it exactly one job
   * carries the name, it is the new one, and the jobs of every other name
   * are those there were.
   */
  method ReplaceNamedJob(q: JobQueue, name: string, callback: Callback, minuteOfDay: int, days: Option<int>, uid: int)
      returns (job: Job)
    requires q.Valid()
    modifies q
    ensures q.Valid()
    ensures job == Job(old(q.nextId), name, callback, uid, minuteOfDay, days)
    ensures q.jobs == WithoutName(old(q.jobs), name) + [job] && q.nextId == old(q.nextId) + 1
    ensures JobsNamed(q.jobs, name) == [job]
    ensures forall other :: other != name ==> JobsNamed(q.jobs, other) == JobsNamed(old(q.jobs), other)
  {
    CancelJobsNamed(q, name);
    job := q.RunDaily(callback, minuteOfDay, days, uid, name);
    ReplacedName(old(q.jobs), name, job);
  }

  /** `schedule_weekly_update`: a `None` queue is left alone. */
  method ScheduleWeeklyUpdate(q: JobQueue?, uid: int, birth: Date)
    requires ValidDate(birth) && (q != null ==> q.Valid())
    modifies q
    ensures q != null ==> q.Valid()
    ensures q != null ==> q.jobs == WithoutName(old(q.jobs), WeeklyName(uid)) + [WeeklyJob(old(q.nextId), uid, birth)]
    ensures q != null ==> q.nextId == old(q.nextId) + 1
  {
    if q == null {
      return;
    }
    var _ := ReplaceNamedJob(q, WeeklyName(uid), SendWeeklyUpdate, WeeklyMinute, Some(Weekday(birth)), uid);
  }

  /** `schedule_birthday_greeting`: a `None` queue is left alone. */
  method ScheduleBirthdayGreeting(q: JobQueue?, uid: int)
    requires q != null ==> q.Valid()
    modifies q
    ensures q != null ==> q.Valid()
    ensures q != null ==> q.jobs == WithoutName(old(q.jobs), BirthdayName(uid)) + [BirthdayJob(old(q.nextId), uid)]
    ensures q != null ==> q.nextId == old(q.nextId) + 1
  {
    if q == null {
      return;
    }
    var _ := ReplaceNamedJob(q, BirthdayName(uid), CheckAndSendBirthday, BirthdayMinute, None, uid);
  }

  /** Registering after removing the jobs of a name leaves exactly the new job under that name and others untouched. */
  lemma ReplacedName(js: seq<Job>, name: string, job: Job)
    requires job.name == name
    ensures JobsNamed(WithoutName(js, name) + [job], name) == [job]
    ensures forall other :: other != name ==> JobsNamed(WithoutName(js, name) + [job], other) == JobsNamed(js, other)
  {
    JobsNamedAppend(WithoutName(js, name), job, name);
    NoneLeftNamed(js, name);
    forall other | other != name
      ensures JobsNamed(WithoutName(js, name) + [job], other) == JobsNamed(js, other)
    {
      JobsNamedAppend(WithoutName(js, name), job, other);
      OtherNamesKept(js, name, other);
    }
  }

  /** The queue after `stop` for a known user: both of the user's names cancelled. */
  function CancelUser(js: seq<Job>, uid: int): seq<Job> {
    WithoutName(WithoutName(js, WeeklyName(uid)), BirthdayName(uid))
  }

  /** The weekly job an accepted date registers: 09:00, with the birth date's `weekday()` as its one `days` entry. */
  function WeeklyJob(id: nat, uid: int, birth: Date): Job
    requires ValidDate(birth)
  {
    Job(id, WeeklyName(uid), SendWeeklyUpdate, uid, WeeklyMinute, Some(Weekday(birth)))
  }

  /** The birthday job an accepted date registers: 08:00 every day. */
  function BirthdayJob(id: nat, uid: int): Job {
    Job(id, BirthdayName(uid), CheckAndSendBirthday, uid, BirthdayMinute, None)
  }

  /** The queue after an accepted date: the weekly job replaced, then the birthday job. */
  function ScheduleUser(js: seq<Job>, next: nat, uid: int, birth: Date): seq<Job>
    requires ValidDate(birth)
  {
    WithoutName(WithoutName(js, WeeklyName(uid)) + [WeeklyJob(next, uid, birth)], BirthdayName(uid))
    + [BirthdayJob(next + 1, uid)]
  }

  /** After `stop`: no job of the user is left, and the jobs of every other name are those there were. */
  lemma CancelledBoth(js: seq<Job>, uid: int)
    ensures JobsNamed(CancelUser(js, uid), WeeklyName(uid)) == []
    ensures JobsNamed(CancelUser(js, uid), BirthdayName(uid)) == []
    ensures forall other :: other != WeeklyName(uid) && other != BirthdayName(uid) ==>
              JobsNamed(CancelUser(js, uid), other) == JobsNamed(js, other)
  {
    var w, b := WeeklyName(uid), BirthdayName(uid);
    JobNamesDistinct(uid, uid);
    var mid := WithoutName(js, w);
    NoneLeftNamed(js, w);
    NoneLeftNamed(mid, b);
    OtherNamesKept(mid, b, w);
    forall other | other != w && other != b
      ensures JobsNamed(WithoutName(mid, b), other) == JobsNamed(js, other)
    {
      OtherNamesKept(mid, b, other);
      OtherNamesKept(js, w, other);
    }
  }

  /** After an accepted date: exactly one weekly and one birthday job for the user, other names untouched. */
  lemma ScheduledBoth(js: seq<Job>, next: nat, uid: int, birth: Date)
    requires ValidDate(birth)
    ensures JobsNamed(ScheduleUser(js, next, uid, birth), WeeklyName(uid)) == [WeeklyJob(next, uid, birth)]
    ensures JobsNamed(ScheduleUser(js, next, uid, birth), BirthdayName(uid)) == [BirthdayJob(next + 1, uid)]
    ensures forall other :: other != WeeklyName(uid) && other != BirthdayName(uid) ==>
              JobsNamed(ScheduleUser(js, next, uid, birth), other) == JobsNamed(js, other)
  {
    var w, b := WeeklyName(uid), BirthdayName(uid);
    JobNamesDistinct(uid, uid);
    var mid := WithoutName(js, w) + [WeeklyJob(next, uid, birth)];
    ReplacedName(js, w, WeeklyJob(next, uid, birth));
    ReplacedName(mid, b, BirthdayJob(next + 1, uid));
  }
}
