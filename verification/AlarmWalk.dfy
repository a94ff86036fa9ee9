/** The bookkeeping of one tick's walk over the alarms, and of the calls made over many ticks. */
module AlarmWalk {
  import opened AlarmTiming
  import opened AlarmList

  /** A callback made at a tick, what it returned, and the alarms that it took off the list. */
  datatype Firing = Firing(tick: nat, alarm: Alarm, period: nat, stops: set<Alarm>)

  ghost function Members(s: seq<Alarm>): set<Alarm> { set a | a in s }

  /** All alarms that some call took off the list. */
  ghost function Stops(log: seq<Firing>): set<Alarm> {
    if log == [] then {} else Stops(log[..|log| - 1]) + log[|log| - 1].stops
  }

  lemma {:induction false} StopsBoth(log: seq<Firing>, more: seq<Firing>)
    ensures Stops(log + more) == Stops(log) + Stops(more)
  {
    if more == [] {
      assert log + more == log;
    } else {
      assert (log + more)[..|log + more| - 1] == log + more[..|more| - 1];
      StopsBoth(log, more[..|more| - 1]);
    }
  }

  lemma SingleStops(call: Firing)
    ensures Stops([call]) == call.stops
  {
    assert [call][..0] == [];
  }

  lemma {:induction false} StoppedBySome(log: seq<Firing>, a: Alarm)
    ensures a in Stops(log) <==> exists i :: 0 <= i < |log| && a in log[i].stops
  {
    if log != [] {
      StoppedBySome(log[..|log| - 1], a);
    }
  }

  /** The alarms of `s` that a tick after `now` sets off, in list order, but for those skipped. */
  ghost function Due(s: seq<Alarm>, timing: map<Alarm, Setting>, now: nat, skipped: set<Alarm>): seq<Alarm>
    requires forall a :: a in s ==> a in timing && InRange(timing[a])
  {
    if s == [] then []
    else
      var rest, a := s[..|s| - 1], s[|s| - 1];
      Due(rest, timing, now, skipped) + if FireTick(timing[a], now) == now + 1 && a !in skipped then [a] else []
  }

  lemma {:induction false} DueMembers(s: seq<Alarm>, timing: map<Alarm, Setting>, now: nat, skipped: set<Alarm>, a: Alarm)
    requires forall b :: b in s ==> b in timing && InRange(timing[b])
    ensures a in Due(s, timing, now, skipped) <==> a in s && FireTick(timing[a], now) == now + 1 && a !in skipped
  {
    if s != [] {
      DueMembers(s[..|s| - 1], timing, now, skipped, a);
    }
  }

  lemma {:induction false} DueDistinct(s: seq<Alarm>, timing: map<Alarm, Setting>, now: nat, skipped: set<Alarm>)
    requires Distinct(s) && forall b :: b in s ==> b in timing && InRange(timing[b])
    ensures Distinct(Due(s, timing, now, skipped))
  {
    if s != [] {
      DueDistinct(s[..|s| - 1], timing, now, skipped);
      DueMembers(s[..|s| - 1], timing, now, skipped, s[|s| - 1]);
    }
  }

  lemma {:induction false} DueAgree(s: seq<Alarm>, timing: map<Alarm, Setting>, now: nat, skipped: set<Alarm>, others: set<Alarm>)
    requires forall b :: b in s ==> b in timing && InRange(timing[b])
    requires forall b :: b in s ==> (b in skipped <==> b in others)
    ensures Due(s, timing, now, skipped) == Due(s, timing, now, others)
  {
    if s != [] {
      DueAgree(s[..|s| - 1], timing, now, skipped, others);
    }
  }

  /** The calls of one tick: one for each of `called` in order, with the result it gave. */
  ghost predicate CallsOf(fired: seq<Firing>, called: seq<Alarm>, results: map<Alarm, nat>, tick: nat) {
    && |fired| == |called| && results.Keys == Members(called)
    && forall i :: 0 <= i < |called| ==>
         fired[i].tick == tick && fired[i].alarm == called[i] && fired[i].period == results[called[i]]
  }

  lemma OneMoreCall(fired: seq<Firing>, called: seq<Alarm>, results: map<Alarm, nat>, call: Firing)
    requires CallsOf(fired, called, results, call.tick) && call.alarm !in called
    ensures CallsOf(fired + [call], called + [call.alarm], results[call.alarm := call.period], call.tick)
  {
  }

  /** Everything about a walk so far: the alarms on the list at its start and their timing, the alarms
      idle then, the calls made and their results, the alarms started meanwhile, and those taken off by
      a callback before it was their turn. */
  datatype Walk = Walk(all: seq<Alarm>, timing: map<Alarm, Setting>, idle: seq<Alarm>,
                       fired: seq<Firing>, results: map<Alarm, nat>, started: seq<Alarm>, skipped: set<Alarm>)
  {
    /** Taken off by a callback, or by returning 0. */
    ghost function Gone(): set<Alarm> {
      Stops(fired) + set a | a in results && results[a] == 0
    }

    /** A callback of an alarm before all[p] took it off. */
    ghost predicate StoppedInTime(p: nat)
      requires p < |all|
    {
      exists i :: 0 <= i < |fired| && fired[i].alarm in all[..p] && all[p] in fired[i].stops
    }

    /** The walk in the tick that made it `now` has dealt with the first k alarms. */
    ghost predicate Tallied(k: nat, now: nat) {
      && 0 < now && k <= |all| && Distinct(all)
      && (forall a :: a in all ==> a in timing && InRange(timing[a]))
      && CallsOf(fired, Due(all[..k], timing, now - 1, skipped), results, now)
      && (forall a :: a in results ==> results[a] < WRAP)
      && skipped <= Stops(fired)
      && forall p :: 0 <= p < |all| ==> (all[p] in skipped <==> StoppedInTime(p))
    }

    /** What the timing of all[i] is by then. */
    ghost function TimingOf(k: nat, i: nat, nticks: nat): Setting
      requires i < |all| && all[i] in timing && InRange(timing[all[i]]) && nticks < WRAP
      requires forall a :: a in results ==> results[a] < WRAP
    {
      if i >= k || all[i] in skipped then timing[all[i]]
      else Ticked(timing[all[i]], nticks, if all[i] in results then results[all[i]] else 0)
    }

    lemma CalledWere(k: nat, now: nat, a: Alarm)
      requires Tallied(k, now)
      ensures a in results <==> a in all[..k] && FireTick(timing[a], now - 1) == now && a !in skipped
      ensures forall i :: 0 <= i < |fired| ==> fired[i].alarm in all[..k]
    {
      hide FireTick, Due;
      DueMembers(all[..k], timing, now - 1, skipped, a);
      forall i | 0 <= i < |fired|
        ensures fired[i].alarm in all[..k]
      {
        DueMembers(all[..k], timing, now - 1, skipped, fired[i].alarm);
      }
    }

    lemma NotYet(k: nat, now: nat)
      requires Tallied(k, now) && k < |all|
      ensures all[k] !in all[..k] && all[k] !in results
      ensures all[k] in Gone() <==> all[k] in skipped
    {
      hide FireTick, Due, CallsOf;
      CalledWere(k, now, all[k]);
      StoppedBySome(fired, all[k]);
    }

    /** An alarm taken off before its turn is passed over. */
    lemma PassOver(k: nat, now: nat)
      requires Tallied(k, now) && k < |all| && all[k] in skipped
      ensures Tallied(k + 1, now)
    {
      assert all[..k + 1][..k] == all[..k];
    }

    /** An alarm that is not due is not called. */
    lemma PassOn(k: nat, now: nat)
      requires Tallied(k, now) && k < |all| && !GoesOff(timing[all[k]], now % WRAP)
      ensures Tallied(k + 1, now)
    {
      assert all[..k + 1][..k] == all[..k];
      TickKeepsFireTick(timing[all[k]], now - 1);
    }

    /** The walk with one more call, at all[k]. */
    ghost function Calling(k: nat, call: Firing, more: seq<Alarm>): Walk
      requires k < |all|
    {
      Walk(all, timing, idle, fired + [call], results[call.alarm := call.period], more + started,
           skipped + (call.stops * Members(all[k + 1..])))
    }

    lemma CallingGone(k: nat, call: Firing, more: seq<Alarm>)
      requires k < |all| && call.alarm !in results
      ensures Calling(k, call, more).Gone() == Gone() + (call.stops + if call.period == 0 then {call.alarm} else {})
    {
      StopsBoth(fired, [call]);
      SingleStops(call);
    }

    lemma CallOn(k: nat, now: nat, call: Firing, more: seq<Alarm>)
      requires Tallied(k, now) && k < |all| && all[k] !in skipped && GoesOff(timing[all[k]], now % WRAP)
      requires call.tick == now && call.alarm == all[k] && call.period < WRAP
      ensures Calling(k, call, more).Tallied(k + 1, now)
    {
      hide FireTick, GoesOff, CallsOf, Stops, StoppedInTime, Due;
      var w := Calling(k, call, more);
      CallDue(k, now, call, more);
      OneMoreCall(fired, Due(all[..k], timing, now - 1, skipped), results, call);
      CallSkips(k, call, more);
      StopsBoth(fired, [call]);
      SingleStops(call);
      CallsAreShort(k, now);
    }

    lemma CallsAreShort(k: nat, now: nat)
      requires Tallied(k, now)
      ensures forall a :: a in results ==> results[a] < WRAP
    {
    }

    lemma CallDue(k: nat, now: nat, call: Firing, more: seq<Alarm>)
      requires Tallied(k, now) && k < |all| && all[k] !in skipped && GoesOff(timing[all[k]], now % WRAP)
      requires call.alarm == all[k]
      ensures Due(all[..k + 1], timing, now - 1, Calling(k, call, more).skipped)
           == Due(all[..k], timing, now - 1, skipped) + [all[k]]
      ensures all[k] !in Due(all[..k], timing, now - 1, skipped)
    {
      hide FireTick, CallsOf, StoppedInTime;
      assert all[..k + 1][..k] == all[..k];
      TickKeepsFireTick(timing[all[k]], now - 1);
      DueMembers(all[..k], timing, now - 1, skipped, all[k]);
      DueAgree(all[..k], timing, now - 1, skipped, Calling(k, call, more).skipped);
    }

    /** The timings move only at the alarm visited. */
    lemma TimingAfterCall(k: nat, now: nat, call: Firing, more: seq<Alarm>, i: nat, nticks: nat)
      requires Tallied(k, now) && k < |all| && i < |all| && nticks < WRAP && all[k] !in skipped
      requires call.alarm == all[k] && call.period < WRAP
      ensures Calling(k, call, more).TimingOf(k + 1, i, nticks)
           == if i == k then Ticked(timing[all[k]], nticks, call.period) else TimingOf(k, i, nticks)
    {
      hide Ticked, CallsOf, Due, Stops;
      assert all[i] in all[k + 1..] <==> k < i by { Later(k, i); }
      assert i != k ==> all[i] != all[k];
    }

    lemma Later(k: nat, i: nat)
      requires Distinct(all) && k < |all| && i < |all|
      ensures all[i] in all[k + 1..] <==> k < i
    {
    }

    lemma TimingAfterPass(k: nat, now: nat, i: nat, nticks: nat)
      requires Tallied(k, now) && k < |all| && i < |all| && nticks < WRAP && !GoesOff(timing[all[k]], now % WRAP)
      ensures TimingOf(k + 1, i, nticks)
           == if i == k && all[k] !in skipped then Ticked(timing[all[k]], nticks, 0) else TimingOf(k, i, nticks)
    {
      NotYet(k, now);
    }

    lemma CallSkips(k: nat, call: Firing, more: seq<Alarm>)
      requires k < |all| && Distinct(all) && call.alarm == all[k]
      requires forall p :: 0 <= p < |all| ==> (all[p] in skipped <==> StoppedInTime(p))
      ensures var w := Calling(k, call, more);
              forall p :: 0 <= p < |all| ==> (all[p] in w.skipped <==> w.StoppedInTime(p))
    {
      var w := Calling(k, call, more);
      forall p | 0 <= p < |all|
        ensures all[p] in w.skipped <==> w.StoppedInTime(p)
      {
        assert all[k] in all[..p] <==> k < p;
        assert all[p] in all[k + 1..] <==> k < p;
        assert w.fired[|fired|] == call;
        if StoppedInTime(p) {
          var i :| 0 <= i < |fired| && fired[i].alarm in all[..p] && all[p] in fired[i].stops;
          assert w.fired[i] == fired[i];
        }
      }
    }
  }

  /** The walk before its first step. */
  function Begun(all: seq<Alarm>, timing: map<Alarm, Setting>, idle: seq<Alarm>): Walk {
    Walk(all, timing, idle, [], map[], [], {})
  }

  lemma BegunTallied(all: seq<Alarm>, timing: map<Alarm, Setting>, idle: seq<Alarm>, now: nat)
    requires 0 < now && Distinct(all) && forall a :: a in all ==> a in timing && InRange(timing[a])
    ensures Begun(all, timing, idle).Tallied(0, now) && Begun(all, timing, idle).Gone() == {}
  {
    assert all[..0] == [];
  }

  /** The calls made to one alarm. */
  ghost function CallsTo(log: seq<Firing>, a: Alarm): seq<Firing> {
    if log == [] then []
    else
      var last := log[|log| - 1];
      CallsTo(log[..|log| - 1], a) + if last.alarm == a then [last] else []
  }

  lemma {:induction false} CallsToBoth(log: seq<Firing>, more: seq<Firing>, a: Alarm)
    ensures CallsTo(log + more, a) == CallsTo(log, a) + CallsTo(more, a)
  {
    if more == [] {
      assert log + more == log;
    } else {
      var rest := more[..|more| - 1];
      CallsToBoth(log, rest, a);
      assert (log + more)[..|log + more| - 1] == log + rest;
    }
  }

  lemma CallsToSpan(from: nat, mid: seq<Firing>, log: seq<Firing>, a: Alarm)
    requires from <= |mid| && mid <= log
    ensures CallsTo(log[from..], a) == CallsTo(mid[from..], a) + CallsTo(log[|mid|..], a)
    ensures Stops(log[from..]) == Stops(mid[from..]) + Stops(log[|mid|..])
  {
    CallsToBoth(mid[from..], log[|mid|..], a);
    StopsBoth(mid[from..], log[|mid|..]);
    assert log[from..] == mid[from..] + log[|mid|..];
  }

  /** One tick calls an alarm once if it is among those called, and not at all otherwise. */
  lemma CalledOnce(fired: seq<Firing>, called: seq<Alarm>, results: map<Alarm, nat>, tick: nat, a: Alarm)
    requires Distinct(called) && CallsOf(fired, called, results, tick)
    ensures a !in results ==> CallsTo(fired, a) == []
    ensures a in results ==> |CallsTo(fired, a)| == 1 && CallsTo(fired, a)[0] in fired
    ensures a in results ==> CallsTo(fired, a)[0].tick == tick && CallsTo(fired, a)[0].period == results[a]
  {
    CalledOnceUpTo(fired, called, results, tick, a, |called|);
    assert fired[..|called|] == fired && called[..|called|] == called;
  }

  lemma {:induction false} CalledOnceUpTo(fired: seq<Firing>, called: seq<Alarm>, results: map<Alarm, nat>, tick: nat, a: Alarm, k: nat)
    requires Distinct(called) && CallsOf(fired, called, results, tick) && k <= |called|
    ensures a !in called[..k] ==> CallsTo(fired[..k], a) == []
    ensures a in called[..k] ==> a in results && |CallsTo(fired[..k], a)| == 1 && CallsTo(fired[..k], a)[0] in fired
    ensures a in called[..k] ==> CallsTo(fired[..k], a)[0].tick == tick && CallsTo(fired[..k], a)[0].period == results[a]
  {
    if k > 0 {
      CalledOnceUpTo(fired, called, results, tick, a, k - 1);
      assert fired[..k][..k - 1] == fired[..k - 1];
      assert called[..k] == called[..k - 1] + [called[k - 1]];
    }
  }

  /** The tick at which the next call is due, after the first was due at `first`. */
  ghost function NextDue(calls: seq<Firing>, first: nat): nat {
    if calls == [] then first else calls[|calls| - 1].tick + calls[|calls| - 1].period
  }

  ghost predicate Stopped(calls: seq<Firing>) {
    calls != [] && calls[|calls| - 1].period == 0
  }

  /** Every call was made at the tick it was due, and only the last may have ended the alarm. */
  ghost predicate OnTime(calls: seq<Firing>, first: nat) {
    forall i :: 0 <= i < |calls| ==> calls[i].tick == NextDue(calls[..i], first) && !Stopped(calls[..i])
  }

  lemma OnTimeNext(calls: seq<Firing>, first: nat, call: Firing)
    requires OnTime(calls, first) && !Stopped(calls) && call.tick == NextDue(calls, first)
    ensures OnTime(calls + [call], first)
    ensures NextDue(calls + [call], first) == call.tick + call.period && (Stopped(calls + [call]) <==> call.period == 0)
  {
    forall i | 0 <= i <= |calls|
      ensures (calls + [call])[..i] == calls[..i]
    {
    }
    assert calls[..|calls|] == calls;
  }
}
