/** The alarm service: alarms on a circular doubly linked list, and the tick that walks it.

    Callbacks are not part of the service: a callback returns an arbitrary 32-bit value, may start
    alarms that are not on the list, and may take off the list any alarm, its own included, but the one
    that the walk has remembered as its next.  Ghost fields record the list's contents, the unbounded
    tick count and every callback made.
 */
module AlarmService {
  import opened AlarmTiming
  import opened AlarmList
  import opened AlarmWalk

  const ENOTSUP := 134
  const EINVAL := 22

  /** What happens to the service: a tick, or main code starts or stops another alarm. */
  datatype Event = Tick | Other

  class Service {
    const list: Alarm
    var nticks: nat
    var tickRate: nat
    // Alarms that are not on the list and that callbacks may start.
    var pool: seq<Alarm>
    ghost var alarms: seq<Alarm>
    ghost var known: set<Alarm>
    ghost var now: nat
    ghost var log: seq<Firing>

    ghost predicate Valid()
      reads this`alarms, this`known, this`pool, this`nticks, this`now, known
    {
      && list in known && (forall a :: a in alarms ==> a in known) && (forall a :: a in pool ==> a in known)
      && Ring([list] + alarms)
      && Distinct(pool) && (forall a :: a in pool ==> a !in [list] + alarms)
      && nticks == now % WRAP
      && (forall a :: a in alarms ==> InRange(a.Timing()))
      && Loose()
    }

    /** An alarm that was taken off the list is linked to itself. */
    ghost predicate Loose()
      reads this`alarms, this`known, this`pool, known
    {
      forall a :: a in known && a !in [list] + alarms && a !in pool ==> a.next == a == a.previous
    }

    constructor (tickRate: nat, pool: seq<Alarm>)
      requires Distinct(pool)
      ensures Valid() && alarms == [] && this.pool == pool && now == 0 && log == []
      ensures this.tickRate == tickRate && fresh(list) && fresh(known - Members(pool))
    {
      list := new Alarm();
      nticks := 0;
      this.tickRate := tickRate;
      this.pool := pool;
      alarms, now, log := [], 0, [];
      new;
      known := {list} + Members(pool);
    }

    // ---------- The list ----------

    lemma NextOf(at: nat)
      requires Valid() && at < |alarms|
      ensures alarms[at].next == if at + 1 < |alarms| then alarms[at + 1] else list
    {
      Neighbours([list] + alarms, at + 1);
    }

    lemma Apart(a: Alarm)
      requires Valid()
      ensures list !in alarms && Distinct(alarms)
      ensures a in alarms ==> a !in pool && a in known
    {
      hide Ring;
      RingDistinct(list, alarms);
    }

    /** Within n steps along the list, x comes to its head. */
    ghost predicate Reaches(x: Alarm, n: nat)
      requires Valid() && x in known && x !in pool
      reads this`alarms, this`known, this`pool, this`nticks, this`now, known
    {
      x == list || (n > 0 && (Follows(x); Reaches(x.next, n - 1)))
    }

    lemma Follows(x: Alarm)
      requires Valid() && x in known && x !in pool
      ensures x.next in known && x.next !in pool
      ensures x !in [list] + alarms ==> x.next == x
    {
      hide Ring;
      if x in [list] + alarms {
        var i :| 0 <= i < |[list] + alarms| && ([list] + alarms)[i] == x;
        Neighbours([list] + alarms, i);
      }
    }

    /** A walk that has gone on to x comes to an end exactly if x is on the list: an alarm that was
        taken off leads to itself for ever. */
    lemma WalkEnds(x: Alarm)
      requires Valid() && x in known && x !in pool
      ensures (exists n: nat :: Reaches(x, n)) <==> x in [list] + alarms
    {
      hide Valid;
      if x in [list] + alarms {
        if x == list {
          assert Reaches(x, 0);
        } else {
          var i :| 0 <= i < |alarms| && alarms[i] == x;
          FromTheList(i);
        }
      } else {
        forall n: nat
          ensures !Reaches(x, n)
        {
          Stranded(x, n);
        }
      }
    }

    lemma {:induction false} FromTheList(i: nat)
      requires Valid() && i < |alarms|
      ensures alarms[i] in known && alarms[i] !in pool && Reaches(alarms[i], |alarms| - i)
      decreases |alarms| - i
    {
      hide Ring;
      Apart(alarms[i]);
      NextOf(i);
      if i + 1 < |alarms| {
        FromTheList(i + 1);
      }
    }

    lemma {:induction false} Stranded(x: Alarm, n: nat)
      requires Valid() && x in known && x !in pool && x !in [list] + alarms
      ensures !Reaches(x, n)
      decreases n
    {
      hide Ring;
      Follows(x);
      if n > 0 {
        Stranded(x, n - 1);
      }
    }

    /** What one alarm put on the list, or taken off it, has to leave as it was. */
    twostate predicate Relinked(alarm: Alarm)
      reads this`alarms, this`known, this`pool, this`nticks, this`now, known
    {
      && pool == old(pool) && nticks == old(nticks) && now == old(now)
      && (known == old(known) + {alarm} || known == old(known))
      && (forall a :: a in alarms ==> a == alarm || a in old(alarms))
      && (forall a :: a in old(alarms) ==> a == alarm || a in alarms)
      && (forall a :: a in old(known) && a != alarm ==> a.Timing() == old(a.Timing()))
      && (forall a :: a in old(known) && a != alarm && a !in [list] + old(alarms) ==>
            a.next == old(a.next) && a.previous == old(a.previous))
    }

    twostate lemma StaysValid(alarm: Alarm)
      requires old(Valid()) && Relinked(alarm) && Ring([list] + alarms) && alarm != list && alarm !in pool
      requires if alarm in alarms then InRange(alarm.Timing()) && alarm in known else alarm.next == alarm == alarm.previous
      ensures Valid()
    {
      hide Ring;
    }

    /** An alarm put first on the list, before n. */
    twostate lemma Linked(alarm: Alarm, new n: Alarm)
      requires old(Valid()) && pool == old(pool) && nticks == old(nticks) && now == old(now)
      requires known == old(known) + {alarm} && alarms == [alarm] + old(alarms)
      requires Ring([list] + alarms) && alarm != list && alarm !in pool && InRange(alarm.Timing())
      requires n in [list] + old(alarms)
      requires forall a :: a in old(known) && a != alarm && a != n && a != list ==> a.next == old(a.next) && a.previous == old(a.previous)
      requires forall a :: a in old(known) && a != alarm ==> a.Timing() == old(a.Timing())
      ensures Valid()
    {
      hide Ring;
      StaysValid(alarm);
    }

    method SetAlarm(alarm: Alarm, n: nat)
      requires n < WRAP && nticks < WRAP
      modifies alarm`time, alarm`rollover
      ensures alarm.Timing() == Started(n, nticks)
    {
      var current := nticks;
      alarm.time := (n + current + 1) % WRAP;
      alarm.rollover := alarm.time < current;
    }

    lemma Facts()
      requires Valid()
      ensures list in known && nticks == now % WRAP && Ring([list] + alarms) && list !in alarms && Distinct(alarms)
      ensures forall a :: a in alarms ==> a in known && a !in pool
      ensures list !in pool
    {
      hide Ring;
      RingDistinct(list, alarms);
      assert list in [list] + alarms;
    }

    /** Registers an alarm that is not on the list. */
    method Start(alarm: Alarm?, n: nat) returns (rc: int)
      requires Valid() && n < WRAP
      requires alarm != null ==> alarm !in [list] + alarms && alarm !in pool
      modifies this`alarms, this`known, known, alarm
      ensures Valid() && pool == old(pool)
      ensures rc == if tickRate == 0 then -ENOTSUP else if alarm == null then -EINVAL else 0
      ensures rc != 0 ==> alarms == old(alarms) && known == old(known)
      ensures rc == 0 ==> alarms == [alarm] + old(alarms) && known == old(known) + {alarm}
      ensures rc == 0 ==> alarm.Timing() == Started(n, nticks)
      ensures forall a :: a in old(known) && a != alarm ==> a.Timing() == old(a.Timing())
    {
      hide Ring, Valid, Started, Distinct;
      Facts();
      if tickRate != 0 {
        if alarm != null {
          SetAlarm(alarm, n);
          Neighbours([list] + alarms, 0);
          ghost var n' := list.next;
          Insert(list, alarm, [list] + alarms);
          assert [list, alarm] + ([list] + alarms)[1..] == [list] + ([alarm] + alarms);
          alarms := [alarm] + alarms;
          known := known + {alarm};
          Linked(alarm, n');
          return 0;
        } else {
          return -EINVAL;
        }
      } else {
        return -ENOTSUP;
      }
    }

    /** Takes an alarm off the list; for one that was taken off before, nothing happens.  Returns
        where it was, or the length of the list. */
    method Stop(alarm: Alarm) returns (ghost k: nat)
      requires Valid()
      requires alarm in alarms || (alarm !in [list] + alarms && alarm !in pool && Ring([alarm]))
      modifies this`alarms, known, alarm
      ensures Valid() && Ring([alarm])
      ensures alarm !in old(alarms) ==> k == |old(alarms)| && alarms == old(alarms)
      ensures alarm in old(alarms) ==> k < |old(alarms)| && old(alarms)[k] == alarm
      ensures alarm in old(alarms) ==> alarms == old(alarms)[..k] + old(alarms)[k + 1..]
      ensures alarms == Without(old(alarms), {alarm})
      ensures forall a :: a in known ==> a.Timing() == old(a.Timing())
    {
      hide Ring, Without, Distinct, Valid;
      ghost var s, i;
      Facts();
      if alarm in alarms {
        k :| k < |alarms| && alarms[k] == alarm;
        s, i := [list] + alarms, k + 1;
        assert s[..k + 1] + s[k + 2..] == [list] + (alarms[..k] + alarms[k + 1..]);
        WithoutOne(alarms, k);
        OnlyThere(alarms, k);
      } else {
        k, s, i := |alarms|, [alarm], 0;
        WithoutAgree(alarms, {alarm}, {});
        WithoutNone(alarms);
      }
      Neighbours(s, i);
      ghost var n, p := alarm.next, alarm.previous;
      assert n == alarm || n in [list] + alarms;
      assert p == alarm || p in [list] + alarms;
      Remove(alarm, s, i);
      if k < |alarms| { alarms := alarms[..k] + alarms[k + 1..]; }
      Single(alarm);
      Unlinked(alarm, n, p);
    }

    /** An alarm off the list whose neighbours n and p were relinked. */
    twostate lemma Unlinked(alarm: Alarm, new n: Alarm, new p: Alarm)
      requires old(Valid()) && pool == old(pool) && nticks == old(nticks) && now == old(now) && known == old(known)
      requires Ring([list] + alarms) && alarm != list && alarm !in pool && alarm !in alarms
      requires alarm.next == alarm == alarm.previous
      requires forall a :: a in alarms ==> a in old(alarms)
      requires forall a :: a in old(alarms) ==> a == alarm || a in alarms
      requires n == alarm || n in [list] + old(alarms)
      requires p == alarm || p in [list] + old(alarms)
      requires forall a :: a in known && a != alarm && a != n && a != p ==> a.next == old(a.next) && a.previous == old(a.previous)
      requires forall a :: a in known ==> a.Timing() == old(a.Timing())
      ensures Valid()
    {
      hide Ring;
      StaysValid(alarm);
    }

    lemma Single(alarm: Alarm)
      requires Ring([alarm])
      ensures alarm.next == alarm == alarm.previous
    {
      assert [alarm][0].next == [alarm][0];
    }

    /** Any entry of the list, or its head. */
    method Pick() returns (x: Alarm)
      requires Valid()
      ensures x in [list] + alarms
    {
      hide Ring;
      x := list;
      var steps :| 0 <= steps;
      while steps > 0
        invariant x in [list] + alarms
      {
        ghost var i :| 0 <= i < |[list] + alarms| && ([list] + alarms)[i] == x;
        Neighbours([list] + alarms, i);
        x := x.next;
        steps := steps - 1;
      }
    }

    // ---------- Callbacks ----------

    /** What a callback has done so far to a list `was`, with the alarms `idle` to start. */
    ghost predicate MidCallback(was: seq<Alarm>, idle: seq<Alarm>, started: seq<Alarm>, stops: set<Alarm>)
      reads this`alarms, this`known, this`pool, this`nticks, this`now, known
    {
      && Valid() && alarms == Without(started + was, stops)
      && stops <= Members(started + was)
      && (forall a :: a in started ==> a in idle && a !in pool && a in known && InRange(a.Timing()) && FireTick(a.Timing(), now) > now)
      && (forall a :: a in pool ==> a in idle && a !in was)
    }

    /** A callback: it starts idle alarms and stops alarms but for `next`, and returns how long to wait
        for the next call. */
    method Callback(alarm: Alarm, next: Alarm) returns (period: nat, ghost started: seq<Alarm>, ghost stops: set<Alarm>)
      requires Valid()
      modifies this`alarms, this`known, this`pool, this`log, known
      ensures MidCallback(old(alarms), old(pool), started, stops)
      ensures known == old(known) && period < WRAP && next !in stops
      ensures log == old(log) + [Firing(now, alarm, period, stops)]
      ensures forall a :: a in known && a !in started ==> a.Timing() == old(a.Timing())
    {
      started, stops := [], {};
      AtOnce();
      hide MidCallback, Valid;
      var more :| 0 <= more;
      while more > 0
        invariant MidCallback(old(alarms), old(pool), started, stops)
        invariant known == old(known) && next !in stops && log == old(log)
        invariant forall a :: a in known && a !in started ==> a.Timing() == old(a.Timing())
      {
        started, stops := CallbackStep(next, old(alarms), old(pool), started, stops);
        more := more - 1;
      }
      var asked :| 0 <= asked < WRAP;
      period := asked;
      log := log + [Firing(now, alarm, period, stops)];
    }

    lemma AtOnce()
      requires Valid()
      ensures MidCallback(alarms, pool, [], {})
    {
      hide Ring;
      assert [] + alarms == alarms;
      WithoutNone(alarms);
    }

    /** A callback starts an alarm, or stops one, or tries to without a clock or an alarm to start. */
    method CallbackStep(next: Alarm, ghost was: seq<Alarm>, ghost idle: seq<Alarm>, ghost started: seq<Alarm>, ghost stops: set<Alarm>)
      returns (ghost started': seq<Alarm>, ghost stops': set<Alarm>)
      requires MidCallback(was, idle, started, stops) && next !in stops
      modifies this`alarms, this`known, this`pool, known
      ensures MidCallback(was, idle, started', stops')
      ensures known == old(known) && next !in stops'
      ensures forall a :: a in started ==> a in started'
      ensures forall a :: a in known && a !in started' ==> a.Timing() == old(a.Timing())
    {
      hide Ring, Distinct, FireTick, Without;
      started', stops' := started, stops;
      ghost var mid := alarms;
      if * {
        if pool != [] && tickRate != 0 {
          StartIdle();
          started' := [alarms[0]] + started;
          AfterCall([alarms[0]], [], started + was, stops, {});
          WithoutNone(alarms);
          assert ([alarms[0]] + []) + (started + was) == started' + was && [] + (started + was) == started + was;
          assert stops + {} == stops;
        }
      } else {
        ghost var stopped := StopAny(next);
        stops' := stops + stopped;
        WithoutMore(started + was, stops, stopped);
        forall a | a in stopped
          ensures a in started + was
        {
          WithoutMembers(started + was, stops, a);
        }
      }
    }

    /** A callback starts the next idle alarm, with any delay. */
    method StartIdle()
      requires Valid() && pool != [] && tickRate != 0
      modifies this`alarms, this`known, this`pool, known
      ensures Valid() && known == old(known)
      ensures pool == old(pool)[1..] && alarms == [old(pool)[0]] + old(alarms)
      ensures alarms[0] !in pool && alarms[0] in known
      ensures InRange(alarms[0].Timing()) && FireTick(alarms[0].Timing(), now) > now
      ensures forall a :: a in known && a != alarms[0] ==> a.Timing() == old(a.Timing())
    {
      hide Ring, Valid, FireTick, Started;
      var n :| 0 <= n < WRAP;
      ghost var was := known;
      var idle := TakeIdle();
      var rc := Start(idle, n);
      assert known == was;
      StartedLater(n);
    }

    lemma StartedLater(n: nat)
      requires n < WRAP && Valid()
      ensures FireTick(Started(n, nticks), now) > now && InRange(Started(n, nticks))
    {
      hide Ring;
    }

    /** Takes the first idle alarm out of the stock. */
    method TakeIdle() returns (idle: Alarm)
      requires Valid() && pool != []
      modifies this`pool, this`known
      ensures Valid() && idle == old(pool)[0] && pool == old(pool)[1..] && known == old(known) - {idle}
      ensures idle in old(known) && idle !in pool && idle !in [list] + alarms
    {
      hide Ring;
      idle := pool[0];
      pool, known := pool[1..], known - {idle};
      assert forall a :: a in pool ==> a in old(pool);
      assert idle in old(pool) && idle != list && idle !in pool;
    }

    /** A callback takes an alarm of the list off it, but not `next`. */
    method StopAny(next: Alarm) returns (ghost stopped: set<Alarm>)
      requires Valid()
      modifies this`alarms, known
      ensures Valid() && next !in stopped && stopped <= Members(old(alarms))
      ensures alarms == Without(old(alarms), stopped)
      ensures forall a :: a in known ==> a.Timing() == old(a.Timing())
    {
      hide Ring, Without;
      stopped := {};
      WithoutNone(alarms);
      var x := Pick();
      if x != list && x != next {
        ghost var k := Stop(x);
        stopped := {x};
      }
    }

    /** What the tick does at one alarm; `next` is the one it goes on to. */
    method Visit(alarm: Alarm, next: Alarm)
      returns (ghost called: bool, ghost period: nat, ghost started: seq<Alarm>, ghost stops: set<Alarm>)
      requires Valid() && alarm in alarms && alarm != next
      modifies this`alarms, this`known, this`pool, this`log, known
      ensures Valid() && known == old(known) && period < WRAP
      ensures called <==> GoesOff(old(alarm.Timing()), nticks)
      ensures !called ==> period == 0 && started == [] && stops == {} && alarms == old(alarms) && pool == old(pool)
      ensures log == old(log) + if called then [Firing(now, alarm, period, stops)] else []
      ensures alarm.Timing() == Ticked(old(alarm.Timing()), nticks, period)
      ensures called ==> alarms == Without(started + old(alarms), stops + if period == 0 then {alarm} else {})
      ensures next !in stops && stops <= Members(started + old(alarms))
      ensures StartedNow(started, old(pool)) && forall a :: a in pool ==> a in old(pool)
      ensures forall a :: a in known && a != alarm && a !in started ==> a.Timing() == old(a.Timing())
    {
      hide Ring, FireTick, Without;
      called, period, started, stops := false, 0, [], {};
      if alarm.rollover && nticks == 0 {
        alarm.rollover := false;
      }
      if alarm.time <= nticks && !alarm.rollover {
        called := true;
        period, started, stops := Fire(alarm, next);
      }
    }

    /** Alarms that were idle and have been started, to go off later. */
    ghost predicate StartedNow(started: seq<Alarm>, idle: seq<Alarm>)
      reads this`now, this`pool, this`known, known
    {
      forall a :: a in started ==> a in known && a in idle && a !in pool && InRange(a.Timing()) && FireTick(a.Timing(), now) > now
    }

    /** Calls an expired alarm back, and drops or re-arms it. */
    method Fire(alarm: Alarm, next: Alarm) returns (ghost period: nat, ghost started: seq<Alarm>, ghost stops: set<Alarm>)
      requires Valid() && alarm in alarms && alarm != next && Expired(alarm.Timing(), nticks)
      modifies this`alarms, this`known, this`pool, this`log, known
      ensures Valid() && known == old(known) && period < WRAP
      ensures log == old(log) + [Firing(now, alarm, period, stops)]
      ensures alarm.Timing() == if period == 0 then old(alarm.Timing()) else Rearmed(old(alarm.Timing()), nticks, period)
      ensures alarms == Without(started + old(alarms), stops + if period == 0 then {alarm} else {})
      ensures next !in stops && stops <= Members(started + old(alarms))
      ensures StartedNow(started, old(pool)) && forall a :: a in pool ==> a in old(pool)
      ensures forall a :: a in known && a != alarm && a !in started ==> a.Timing() == old(a.Timing())
    {
      hide Ring, FireTick, Without, Valid, Rearmed;
      Apart(alarm);
      Ranged(alarm);
      var nextCallback;
      nextCallback, started, stops := Callback(alarm, next);
      period := nextCallback;
      if nextCallback == 0 {
        SelfLinked(alarm);
        WithoutMore(started + old(alarms), stops, {alarm});
        ghost var k := Stop(alarm);
      } else {
        assert stops + {} == stops;
        Rearm(alarm, nextCallback);
      }
    }

    method Rearm(alarm: Alarm, period: nat)
      requires Valid() && InRange(alarm.Timing()) && period < WRAP
      modifies alarm`time, alarm`rollover
      ensures Valid()
      ensures alarm.Timing() == Rearmed(old(alarm.Timing()), nticks, period)
    {
      hide Ring;
      alarm.time := (alarm.time + period) % WRAP;
      if alarm.time < nticks {
        alarm.rollover := true;
      }
    }

    lemma Ranged(a: Alarm)
      requires Valid() && a in alarms
      ensures InRange(a.Timing()) && nticks < WRAP && a != list
    {
      hide Ring;
      assert list in [list] + alarms;
      Apart(a);
    }

    lemma SelfLinked(a: Alarm)
      requires Valid() && a in known && a !in pool && a != list
      ensures a in alarms || (a !in [list] + alarms && Ring([a]))
    {
    }

    // ---------- The tick ----------

    ghost function Timings(): (t: map<Alarm, Setting>)
      reads this`alarms, alarms
    {
      map a | a in alarms :: a.Timing()
    }

    /** The walk `w` of one tick has dealt with the first k alarms. */
    ghost predicate Walked(w: Walk, k: nat)
      reads this`alarms, this`known, this`pool, this`nticks, this`now, known
    {
      && Valid() && w.Tallied(k, now)
      && alarms == Without(w.started + w.all, w.Gone())
      && w.Gone() <= Members(w.started + w.all)
      && (forall a :: a in w.all ==> a in known) && (forall a :: a in w.idle ==> a in known)
      && (forall i :: 0 <= i < |w.all| ==> w.all[i].Timing() == w.TimingOf(k, i, nticks))
      && StartedNow(w.started, w.idle)
      && (forall a :: a in pool ==> a in w.idle)
      && (forall a :: a in w.idle ==> a !in w.all)
    }

    /** The same of a service with the given list, idle alarms and timings, before all[k] is visited. */
    ghost predicate Visiting(w: Walk, k: nat, prev: map<Alarm, Setting>, idle: seq<Alarm>, was: seq<Alarm>)
      reads this`now, this`nticks
    {
      && w.Tallied(k, now) && k < |w.all| && w.all[k] !in w.skipped && nticks == now % WRAP
      && was == Without(w.started + w.all, w.Gone())
      && w.Gone() <= Members(w.started + w.all)
      && (forall a :: a in w.all ==> a in prev) && (forall a :: a in w.idle ==> a in prev)
      && (forall i :: 0 <= i < |w.all| ==> prev[w.all[i]] == w.TimingOf(k, i, nticks))
      && (forall a :: a in w.started ==> a in w.idle && a !in idle && InRange(prev[a]) && FireTick(prev[a], now) > now)
      && (forall a :: a in idle ==> a in w.idle)
      && (forall a :: a in w.idle ==> a !in w.all)
    }

    lemma BeforeVisit(w: Walk, k: nat)
      requires Walked(w, k) && k < |w.all| && w.all[k] !in w.Gone()
      ensures Valid() && Visiting(w, k, map a | a in known :: a.Timing(), pool, alarms) && w.all[k] in known
      ensures w.all[k] !in w.results && w.all[k].Timing() == w.timing[w.all[k]]
    {
      hide Ring, FireTick, Without;
      w.NotYet(k, now);
    }

    /** The list after a visit. */
    lemma VisitedList(w: Walk, w': Walk, k: nat, prev: map<Alarm, Setting>, idle: seq<Alarm>, was: seq<Alarm>,
                      call: Firing, more: seq<Alarm>)
      requires Visiting(w, k, prev, idle, was)
      requires w' == w.Calling(k, call, more) && call.alarm == w.all[k]
      requires call.stops <= Members(more + was) && forall a :: a in more ==> a in idle
      requires alarms == Without(more + was, call.stops + if call.period == 0 then {call.alarm} else {})
      ensures alarms == Without(w'.started + w'.all, w'.Gone()) && w'.Gone() <= Members(w'.started + w'.all)
    {
      hide Without, FireTick;
      var gone := call.stops + if call.period == 0 then {call.alarm} else {};
      w.NotYet(k, now);
      w.CallingGone(k, call, more);
      AfterCall(more, w.started, w.all, w.Gone(), gone);
      forall a | a in call.stops
        ensures a in w'.started + w'.all
      {
        WithoutMembers(w.started + w.all, w.Gone(), a);
      }
    }

    /** The alarms started by then. */
    lemma VisitedStarted(w: Walk, k: nat, prev: map<Alarm, Setting>, idle: seq<Alarm>, was: seq<Alarm>, more: seq<Alarm>)
      requires Visiting(w, k, prev, idle, was) && StartedNow(more, idle)
      requires (forall a :: a in prev ==> a in known) && forall a :: a in pool ==> a in idle
      requires forall a :: a in prev && a != w.all[k] && a !in more ==> a.Timing() == prev[a]
      ensures StartedNow(more + w.started, w.idle)
    {
      hide Without, FireTick;
    }

    /** The service after a visit with a call. */
    lemma VisitedCall(w: Walk, w': Walk, k: nat, prev: map<Alarm, Setting>, idle: seq<Alarm>, was: seq<Alarm>,
                      call: Firing, more: seq<Alarm>)
      requires Valid() && Visiting(w, k, prev, idle, was)
      requires w' == w.Calling(k, call, more) && call.alarm == w.all[k] && call.tick == now && call.period < WRAP
      requires call.stops <= Members(more + was) && GoesOff(w.timing[w.all[k]], nticks)
      requires alarms == Without(more + was, call.stops + if call.period == 0 then {call.alarm} else {})
      requires (forall a :: a in prev ==> a in known) && StartedNow(more, idle)
      requires forall a :: a in pool ==> a in idle
      requires w.all[k].Timing() == Ticked(w.timing[w.all[k]], nticks, call.period)
      requires forall a :: a in prev && a != w.all[k] && a !in more ==> a.Timing() == prev[a]
      ensures Walked(w', k + 1)
    {
      hide Without, FireTick, Ring, GoesOff, Ticked, Valid;
      w.CallOn(k, now, call, more);
      VisitedList(w, w', k, prev, idle, was, call, more);
      VisitedStarted(w, k, prev, idle, was, more);
      hide StartedNow;
      forall i | 0 <= i < |w'.all|
        ensures w'.all[i].Timing() == w'.TimingOf(k + 1, i, nticks)
      {
        w.TimingAfterCall(k, now, call, more, i, nticks);
      }
    }

    /** The service after a visit without one. */
    lemma VisitedOnly(w: Walk, k: nat, prev: map<Alarm, Setting>)
      requires Valid() && Visiting(w, k, prev, pool, alarms) && !GoesOff(w.timing[w.all[k]], nticks)
      requires forall a :: a in prev ==> a in known
      requires w.all[k].Timing() == Ticked(w.timing[w.all[k]], nticks, 0)
      requires forall a :: a in prev && a != w.all[k] ==> a.Timing() == prev[a]
      ensures Walked(w, k + 1)
    {
      hide Without, FireTick, Ring, GoesOff, Ticked, Valid;
      w.PassOn(k, now);
      forall i | 0 <= i < |w.all|
        ensures w.all[i].Timing() == w.TimingOf(k + 1, i, nticks)
      {
        w.TimingAfterPass(k, now, i, nticks);
      }
    }

    /** Reads the entry that the walk goes on to. */
    method NextOn(alarm: Alarm, ghost w: Walk, ghost k: nat) returns (next: Alarm)
      requires Walked(w, k) && k < |w.all| && w.all[k] == alarm && alarm !in w.Gone()
      ensures next == NextIn(w.all, k + 1, w.Gone(), list) && next != alarm && alarm in alarms
    {
      hide Ring, FireTick, Without, NextIn, Valid, StartedNow, Distinct;
      ghost var at := |Without(w.started + w.all[..k], w.Gone())|;
      Standing(w.started, w.all, k, w.Gone(), list);
      NextOf(at);
      Facts();
      next := alarm.next;
      assert at + 1 < |alarms| ==> alarms[at] != alarms[at + 1] by { OnlyThere(alarms, at); }
    }

    /** One round of the walk. */
    method WalkOn(alarm: Alarm, ghost w: Walk, ghost k: nat) returns (next: Alarm, ghost w': Walk, ghost call: seq<Firing>)
      requires Walked(w, k) && k < |w.all| && w.all[k] == alarm && alarm !in w.Gone()
      modifies this`alarms, this`known, this`pool, this`log, known
      ensures Walked(w', k + 1) && known == old(known)
      ensures w'.all == w.all && w'.timing == w.timing && w'.idle == w.idle
      ensures w'.fired == w.fired + call && log == old(log) + call
      ensures next == NextIn(w.all, k + 1, w'.Gone(), list)
    {
      hide Ring, FireTick, Without, Valid, StartedNow, Walked, Visiting, GoesOff, Ticked, NextIn;
      next := NextOn(alarm, w, k);
      ghost var prev, idle, was := map a | a in known :: a.Timing(), pool, alarms;
      BeforeVisit(w, k);
      ghost var called, period, more, stops := Visit(alarm, next);
      if called {
        ghost var made := Firing(now, alarm, period, stops);
        call, w' := [made], w.Calling(k, made, more);
        VisitedCall(w, w', k, prev, idle, was, made, more);
        NextAfterCall(w, k, made, more);
      } else {
        call, w' := [], w;
        VisitedOnly(w, k, prev);
      }
    }

    lemma NextAfterCall(w: Walk, k: nat, call: Firing, more: seq<Alarm>)
      requires k < |w.all| && call.alarm !in w.results
      requires NextIn(w.all, k + 1, w.Gone(), list) !in call.stops && NextIn(w.all, k + 1, w.Gone(), list) != call.alarm
      ensures NextIn(w.all, k + 1, w.Calling(k, call, more).Gone(), list) == NextIn(w.all, k + 1, w.Gone(), list)
    {
      w.CallingGone(k, call, more);
      NextStays(w.all, k + 1, w.Gone(), call.stops + if call.period == 0 then {call.alarm} else {}, list);
    }

    /** An alarm that a callback took off before its turn is not visited. */
    lemma SkipOne(w: Walk, k: nat)
      requires Walked(w, k) && k < |w.all| && w.all[k] in w.Gone()
      ensures Walked(w, k + 1)
    {
      hide Ring, FireTick, Without, Valid, StartedNow, Ticked;
      w.NotYet(k, now);
      w.PassOver(k, now);
    }

    /** Where the walk stands when it has come to x. */
    lemma {:induction false} SkipTo(w: Walk, k: nat, x: Alarm) returns (j: nat)
      requires Walked(w, k) && k <= |w.all| && list !in w.all && x == NextIn(w.all, k, w.Gone(), list)
      ensures k <= j <= |w.all| && Walked(w, j)
      ensures if x == list then j == |w.all| else j < |w.all| && w.all[j] == x && x !in w.Gone()
      decreases |w.all| - k
    {
      hide Walked;
      if k < |w.all| && w.all[k] in w.Gone() {
        SkipOne(w, k);
        j := SkipTo(w, k + 1, x);
      } else {
        j := k;
      }
    }

    lemma NothingWalked()
      requires Valid() && 0 < now
      ensures Walked(Begun(alarms, Timings(), pool), 0) && Begun(alarms, Timings(), pool).Gone() == {}
    {
      hide Ring, FireTick, Without;
      Facts();
      BegunTallied(alarms, Timings(), pool, now);
      assert [] + alarms == alarms;
      WithoutNone(alarms);
    }

    /** Advances the tick counter, and finds the first alarm to visit. */
    method BeginTick() returns (alarm: Alarm)
      requires Valid()
      modifies this`nticks, this`now
      ensures now == old(now) + 1 && list !in alarms && Timings() == old(Timings())
      ensures Walked(Begun(alarms, Timings(), pool), 0)
      ensures alarm == NextIn(alarms, 0, Begun(alarms, Timings(), pool).Gone(), list)
    {
      hide Ring, FireTick, Walked;
      Facts();
      Neighbours([list] + alarms, 0);
      alarm := list.next;
      nticks := (nticks + 1) % WRAP;
      now := now + 1;
      NothingWalked();
    }

    /** One tick of the system clock.  It visits the alarms that were on the list once each, in list
        order, but for those that a callback took off before their turn; it calls back exactly those
        whose time has come; it drops those whose callback returned 0 and re-arms the others; alarms
        started meanwhile are left for later ticks. */
    method Tick() returns (ghost w: Walk)
      requires Valid()
      modifies this`nticks, this`now, this`alarms, this`known, this`pool, this`log, known
      ensures Valid() && known == old(known) && now == old(now) + 1 && log == old(log) + w.fired
      ensures w.all == old(alarms) && w.timing == old(Timings()) && w.idle == old(pool)
      ensures Walked(w, |w.all|)
    {
      hide Walked, Valid, NextIn;
      w := Begun(alarms, Timings(), pool);
      var alarm := BeginTick();
      ghost var k := 0;
      while alarm != list
        invariant k <= |w.all| && Walked(w, k) && alarm == NextIn(w.all, k, w.Gone(), list)
        invariant w.all == old(alarms) && w.timing == old(Timings()) && w.idle == old(pool)
        invariant known == old(known) && now == old(now) + 1 && log == old(log) + w.fired
        decreases |w.all| - k
      {
        k := SkipTo(w, k, alarm);
        ghost var call;
        alarm, w, call := WalkOn(alarm, w, k);
        k := k + 1;
      }
      k := SkipTo(w, k, alarm);
      WalkedIsValid(w, k);
    }

    lemma WalkedIsValid(w: Walk, k: nat)
      requires Walked(w, k)
      ensures Valid()
    {
    }

    /** What a whole tick did to one alarm of the list, in terms of the unbounded clock. */
    lemma TickOutcome(w: Walk, p: nat)
      requires Walked(w, |w.all|) && p < |w.all|
      ensures alarms == Without(w.started + w.all, w.Gone())
      ensures var a := w.all[p];
              && (a in w.skipped <==> w.StoppedInTime(p))
              && (a in w.results <==> a !in w.skipped && FireTick(w.timing[a], now - 1) == now)
              && (a in w.skipped ==> a in w.Gone())
              && InRange(a.Timing())
              && (a !in w.results && a !in w.skipped ==> FireTick(a.Timing(), now) == FireTick(w.timing[a], now - 1))
              && (Punctual(w.timing[a], now - 1) && a in w.results && w.results[a] != 0 ==>
                    FireTick(a.Timing(), now) == now + w.results[a])
              && (Punctual(w.timing[a], now - 1) && a !in w.skipped && (a in w.results ==> w.results[a] != 0) ==>
                    Punctual(a.Timing(), now))
    {
      hide Ring, FireTick, Punctual, Without, Due, Valid, StartedNow, GoesOff, Ticked;
      Facts();
      var a := w.all[p];
      assert w.all[..|w.all|] == w.all;
      w.CalledWere(|w.all|, now, a);
      TickedFiresOnTime(w.timing[a], now - 1, if a in w.results then w.results[a] else 0);
    }

    // ---------- Whole runs ----------

    /** The alarm `a`, first due at `first`, has had these calls: it is off the list for good after one
        that returned 0, or once a callback has taken it off (`halted`); and else it is on the list with
        its deadline at the tick it is next due. */
    ghost predicate Scheduled(a: Alarm, first: nat, calls: seq<Firing>, halted: bool)
      reads this`alarms, this`known, this`pool, this`nticks, this`now, known
    {
      && Valid() && OnTime(calls, first) && a in known
      && if halted || Stopped(calls) then a !in alarms && a !in pool
         else a in alarms && Punctual(a.Timing(), now) && FireTick(a.Timing(), now) == NextDue(calls, first)
    }

    /** Where one tick leaves one alarm, on the list or off it, and what calls it made. */
    lemma WhereTickLeaves(w: Walk, a: Alarm)
      requires Walked(w, |w.all|) && a !in w.idle
      ensures a !in w.results ==> CallsTo(w.fired, a) == []
      ensures a in w.results ==> a in w.all && |CallsTo(w.fired, a)| == 1
      ensures a in w.results ==> CallsTo(w.fired, a)[0].tick == now && CallsTo(w.fired, a)[0].period == w.results[a]
      ensures a in alarms <==> a in w.all && a !in w.Gone()
      ensures a !in pool
    {
      hide Ring, FireTick, Without, Valid, CallsTo, CallsOf;
      assert w.all[..|w.all|] == w.all;
      w.CalledWere(|w.all|, now, a);
      DueDistinct(w.all, w.timing, now - 1, w.skipped);
      CalledOnce(w.fired, Due(w.all, w.timing, now - 1, w.skipped), w.results, now, a);
      WithoutMembers(w.started + w.all, w.Gone(), a);
    }

    /** An alarm that was on schedule before a tick is so after it. */
    lemma StaysOnSchedule(w: Walk, a: Alarm, first: nat, calls: seq<Firing>, halted: bool)
      requires Walked(w, |w.all|) && OnTime(calls, first) && a in known && a !in w.idle
      requires if halted || Stopped(calls) then a !in w.all
               else a in w.all && Punctual(w.timing[a], now - 1) && FireTick(w.timing[a], now - 1) == NextDue(calls, first)
      ensures Scheduled(a, first, calls + CallsTo(w.fired, a), halted || a in Stops(w.fired))
    {
      WhereTickLeaves(w, a);
      WalkedIsValid(w, |w.all|);
      if a in w.all {
        var p :| 0 <= p < |w.all| && w.all[p] == a;
        TickOutcome(w, p);
      }
      var more := CallsTo(w.fired, a);
      hide Walked, Valid, Punctual, FireTick, OnTime, NextDue, Stopped, CallsTo, Stops;
      if a in w.results {
        OnTimeNext(calls, first, more[0]);
        assert more == [more[0]];
      } else {
        assert calls + more == calls;
      }
    }

    /** One tick keeps an alarm on schedule. */
    method TickOnSchedule(ghost a: Alarm, ghost first: nat, ghost calls: seq<Firing>, ghost halted: bool)
      returns (ghost more: seq<Firing>, ghost halts: bool)
      requires Scheduled(a, first, calls, halted)
      modifies this`nticks, this`now, this`alarms, this`known, this`pool, this`log, known
      ensures known == old(known) && now == old(now) + 1 && old(log) <= log
      ensures more == CallsTo(log[|old(log)|..], a) && (halts <==> a in Stops(log[|old(log)|..]))
      ensures Scheduled(a, first, calls + more, halted || halts)
    {
      hide Walked, Valid, Punctual, FireTick, OnTime, NextDue, Stopped, CallsTo, Stops;
      Apart(a);
      ghost var w := Tick();
      more, halts := CallsTo(w.fired, a), a in Stops(w.fired);
      assert log[|old(log)|..] == w.fired;
      StaysOnSchedule(w, a, first, calls, halted);
    }

    /** Another alarm is started, or taken off the list, by main code. */
    method OtherOnSchedule(a: Alarm, ghost first: nat, ghost calls: seq<Firing>, ghost halted: bool)
      requires Scheduled(a, first, calls, halted)
      modifies this`alarms, this`known, known
      ensures known >= old(known) && fresh(known - old(known))
      ensures Scheduled(a, first, calls, halted)
    {
      hide Ring, FireTick, Punctual, OnTime, NextDue, Stopped, Without;
      Facts();
      if * {
        var x := new Alarm();
        var n :| 0 <= n < WRAP;
        var rc := Start(x, n);
      } else {
        var x := Pick();
        if x != list && x != a {
          ghost var k := Stop(x);
          WithoutMembers(old(alarms), {x}, a);
        }
      }
    }

    /** The ticks among the first n events. */
    static function TicksIn(events: seq<Event>, n: nat): nat
      requires n <= |events|
    {
      if n == 0 then 0 else TicksIn(events, n - 1) + if events[n - 1].Tick? then 1 else 0
    }

    /** Any number of ticks of the system clock, and of starts and stops of other alarms by main code in
        between: an alarm that is on time is called at its deadline and then at each call plus the
        period that one returned, and misses none for as long as no callback takes it off. */
    method Run(events: seq<Event>, a: Alarm, ghost first: nat) returns (ghost calls: seq<Firing>, ghost halted: bool)
      requires Valid() && a in alarms && Punctual(a.Timing(), now) && FireTick(a.Timing(), now) == first
      modifies this`nticks, this`now, this`alarms, this`known, this`pool, this`log, known
      ensures now == old(now) + TicksIn(events, |events|)
      ensures |log| >= |old(log)| && calls == CallsTo(log[|old(log)|..], a)
      ensures halted <==> a in Stops(log[|old(log)|..])
      ensures Scheduled(a, first, calls, halted)
      ensures Valid() && (halted || Stopped(calls) || NextDue(calls, first) > now)
    {
      hide Valid, Punctual, FireTick, Scheduled, CallsTo, Stopped, NextDue, Stops;
      ghost var before := log;
      calls, halted := [], false;
      AtFirst(a);
      for i := 0 to |events|
        invariant now == old(now) + TicksIn(events, i)
        invariant known >= old(known) && fresh(known - old(known)) && |log| >= |before|
        invariant calls == CallsTo(log[|before|..], a) && (halted <==> a in Stops(log[|before|..]))
        invariant Scheduled(a, first, calls, halted)
      {
        if events[i].Tick? {
          ghost var mid := log;
          ghost var more, halts := TickOnSchedule(a, first, calls, halted);
          CallsToSpan(|before|, mid, log, a);
          calls, halted := calls + more, halted || halts;
        } else {
          OtherOnSchedule(a, first, calls, halted);
        }
      }
      NoneMissed(a, first, calls, halted);
    }

    lemma AtFirst(a: Alarm)
      requires Valid() && a in alarms && Punctual(a.Timing(), now)
      ensures Scheduled(a, FireTick(a.Timing(), now), [], false) && CallsTo(log[|log|..], a) == [] && Stops(log[|log|..]) == {}
    {
      hide Ring, FireTick;
      Apart(a);
    }

    lemma NoneMissed(a: Alarm, first: nat, calls: seq<Firing>, halted: bool)
      requires Scheduled(a, first, calls, halted)
      ensures Valid() && (halted || Stopped(calls) || NextDue(calls, first) > now)
    {
      hide Ring;
    }
  }

  /** A tick that is stranded: the alarm first called takes off the one that the walk has remembered,
      and from there no number of steps leads back to the head of the list. */
  method StrandedTick() returns (s: Service, next: Alarm)
    ensures fresh(s) && s.Valid() && next in s.known && next !in s.pool && next !in s.alarms && next != s.list
    ensures forall n: nat :: !s.Reaches(next, n)
  {
    hide Ring, Without, Service.Valid, Service.Reaches, Started;
    s := new Service(1000, []);
    var second := new Alarm();
    var rc := s.Start(second, 0);
    var first := new Alarm();
    rc := s.Start(first, 0);
    s.NextOf(0);
    s.Facts();
    // The walk is at the first alarm and has read where to go on; now the callback takes that one off.
    next := first.next;
    ghost var k := s.Stop(next);
    WithoutMembers([first, second], {second}, second);
    s.WalkEnds(next);
  }
}
