/** Alarms, and the circular doubly linked list they are kept on.

    The list head is one more Alarm whose timing fields are not used.
 */
module AlarmList {
  import opened AlarmTiming

  class Alarm {
    var next: Alarm
    var previous: Alarm
    var time: nat
    var rollover: bool

    ghost function Timing(): Setting
      reads this`time, this`rollover
    {
      Setting(time, rollover)
    }

    constructor ()
      ensures next == previous == this && time == 0 && !rollover
    {
      next, previous := this, this;
      time, rollover := 0, false;
    }
  }

  ghost predicate Distinct(s: seq<Alarm>) {
    forall i, j :: 0 <= i < j < |s| ==> s[i] != s[j]
  }

  /** `s` is a closed ring, in `next` order. */
  ghost predicate Ring(s: seq<Alarm>)
    reads s`next, s`previous
  {
    && |s| > 0 && Distinct(s)
    && (forall i {:trigger s[i].next} :: 0 <= i < |s| - 1 ==> s[i].next == s[i + 1])
    && (forall i {:trigger s[i].previous} :: 1 <= i < |s| ==> s[i].previous == s[i - 1])
    && s[|s| - 1].next == s[0] && s[0].previous == s[|s| - 1]
  }

  lemma Neighbours(s: seq<Alarm>, i: nat)
    requires Ring(s) && i < |s|
    ensures s[i].next in s && s[i].previous in s
    ensures s[i].next == if i + 1 < |s| then s[i + 1] else s[0]
  {
    assert i < |s| - 1 ==> s[i].next == s[i + 1];
    assert 1 <= i ==> s[i].previous == s[i - 1];
  }

  lemma RingDistinct(head: Alarm, s: seq<Alarm>)
    requires Ring([head] + s)
    ensures Distinct(s) && head !in s
  {
    assert forall j :: 0 <= j < |s| ==> ([head] + s)[j + 1] == s[j];
  }

  /** Adds an entry as the first after the head. */
  method Insert(list: Alarm, entry: Alarm, ghost s: seq<Alarm>)
    requires Ring(s) && s[0] == list && entry !in s
    modifies entry`next, entry`previous, list`next, list.next`previous
    ensures Ring([list, entry] + s[1..])
  {
    ghost var t := [list, entry] + s[1..];
    entry.previous := list;
    entry.next := list.next;
    list.next.previous := entry;
    list.next := entry;
  }

  /** Takes an entry out of its ring and links it to itself. */
  method Remove(entry: Alarm, ghost s: seq<Alarm>, ghost k: nat)
    requires Ring(s) && k < |s| && s[k] == entry
    modifies entry`next, entry`previous, entry.next`previous, entry.previous`next
    ensures |s| > 1 ==> Ring(s[..k] + s[k + 1..])
    ensures Ring([entry])
  {
    entry.next.previous := entry.previous;
    entry.previous.next := entry.next;
    entry.previous := entry;
    entry.next := entry;
  }

  // ---------- Taking alarms off ----------

  /** The alarms of `s` that are not gone. */
  ghost function Without(s: seq<Alarm>, gone: set<Alarm>): seq<Alarm> {
    if s == [] then [] else Without(s[..|s| - 1], gone) + if s[|s| - 1] in gone then [] else [s[|s| - 1]]
  }

  lemma {:induction false} WithoutMembers(s: seq<Alarm>, gone: set<Alarm>, a: Alarm)
    ensures a in Without(s, gone) <==> a in s && a !in gone
  {
    if s != [] {
      WithoutMembers(s[..|s| - 1], gone, a);
    }
  }

  lemma {:induction false} WithoutConcat(s: seq<Alarm>, t: seq<Alarm>, gone: set<Alarm>)
    ensures Without(s + t, gone) == Without(s, gone) + Without(t, gone)
  {
    if t == [] {
      assert s + t == s;
    } else {
      assert (s + t)[..|s + t| - 1] == s + t[..|t| - 1];
      WithoutConcat(s, t[..|t| - 1], gone);
    }
  }

  lemma {:induction false} WithoutMore(s: seq<Alarm>, gone: set<Alarm>, more: set<Alarm>)
    ensures Without(Without(s, gone), more) == Without(s, gone + more)
  {
    if s != [] {
      var rest, last := s[..|s| - 1], if s[|s| - 1] in gone then [] else [s[|s| - 1]];
      WithoutMore(rest, gone, more);
      WithoutConcat(Without(rest, gone), last, more);
    }
  }

  /** Only the alarms of `s` matter. */
  lemma {:induction false} WithoutAgree(s: seq<Alarm>, gone: set<Alarm>, others: set<Alarm>)
    requires forall a :: a in s ==> (a in gone <==> a in others)
    ensures Without(s, gone) == Without(s, others)
  {
    if s != [] {
      WithoutAgree(s[..|s| - 1], gone, others);
    }
  }

  lemma {:induction false} WithoutNone(s: seq<Alarm>)
    ensures Without(s, {}) == s
  {
    if s != [] {
      WithoutNone(s[..|s| - 1]);
    }
  }

  lemma OnlyThere(s: seq<Alarm>, k: nat)
    requires Distinct(s) && k < |s|
    ensures s[k] !in s[..k] && s[k] !in s[k + 1..]
  {
  }

  lemma WithoutOne(s: seq<Alarm>, k: nat)
    requires Distinct(s) && k < |s|
    ensures Without(s, {s[k]}) == s[..k] + s[k + 1..]
  {
    hide Without, Distinct;
    OnlyThere(s, k);
    var before, after := s[..k], s[k + 1..];
    assert s == before + ([s[k]] + after);
    WithoutConcat(before, [s[k]] + after, {s[k]});
    WithoutConcat([s[k]], after, {s[k]});
    WithoutAgree(before, {s[k]}, {});
    WithoutAgree(after, {s[k]}, {});
    WithoutNone(before);
    WithoutNone(after);
    assert Without([s[k]], {s[k]}) == [] by { WithoutSingle(s[k], {s[k]}); }
  }

  lemma WithoutSingle(a: Alarm, gone: set<Alarm>)
    ensures Without([a], gone) == if a in gone then [] else [a]
  {
    assert [a][..0] == [];
  }

  /** The first alarm of all[k..] that is not gone, or the head. */
  ghost function NextIn(all: seq<Alarm>, k: nat, gone: set<Alarm>, list: Alarm): Alarm
    requires k <= |all|
    decreases |all| - k
  {
    if k == |all| then list else if all[k] in gone then NextIn(all, k + 1, gone, list) else all[k]
  }

  lemma {:induction false} NextIsHead(all: seq<Alarm>, k: nat, gone: set<Alarm>, list: Alarm)
    requires k <= |all|
    ensures var rest := Without(all[k..], gone);
            NextIn(all, k, gone, list) == if rest == [] then list else rest[0]
    decreases |all| - k
  {
    if k < |all| {
      hide Without;
      NextIsHead(all, k + 1, gone, list);
      assert all[k..] == [all[k]] + all[k + 1..];
      WithoutConcat([all[k]], all[k + 1..], gone);
      WithoutSingle(all[k], gone);
    }
  }

  /** It stays the next one as long as it is not taken off itself. */
  lemma {:induction false} NextStays(all: seq<Alarm>, k: nat, gone: set<Alarm>, more: set<Alarm>, list: Alarm)
    requires k <= |all| && NextIn(all, k, gone, list) !in more
    ensures NextIn(all, k, gone + more, list) == NextIn(all, k, gone, list)
    decreases |all| - k
  {
    if k < |all| && all[k] in gone {
      NextStays(all, k + 1, gone, more, list);
    }
  }

  /** Where an alarm that is not gone stands, and what follows it. */
  lemma Standing(front: seq<Alarm>, all: seq<Alarm>, k: nat, gone: set<Alarm>, list: Alarm)
    requires k < |all| && all[k] !in gone
    ensures var left, at := Without(front + all, gone), |Without(front + all[..k], gone)|;
            && at < |left| && left[at] == all[k]
            && NextIn(all, k + 1, gone, list) == if at + 1 < |left| then left[at + 1] else list
  {
    hide Without;
    var before, after := front + all[..k], all[k + 1..];
    assert front + all == before + ([all[k]] + after);
    WithoutConcat(before, [all[k]] + after, gone);
    WithoutConcat([all[k]], after, gone);
    WithoutSingle(all[k], gone);
    NextIsHead(all, k + 1, gone, list);
  }

  /** Alarms put in front, and then some taken off. */
  lemma AfterCall(more: seq<Alarm>, front: seq<Alarm>, all: seq<Alarm>, gone: set<Alarm>, now: set<Alarm>)
    requires forall a :: a in more ==> a !in gone
    ensures Without(more + Without(front + all, gone), now) == Without((more + front) + all, gone + now)
  {
    hide Without;
    WithoutConcat(more, Without(front + all, gone), now);
    WithoutMore(front + all, gone, now);
    WithoutAgree(more, now, gone + now);
    assert (more + front) + all == more + (front + all);
    WithoutConcat(more, front + all, gone + now);
  }
}
