/** The sleeping coroutines of nty_schedule.c: a tree ordered by wake-up time, under a clock that never goes back. */
module SleepTree {

  const TWO_TO_THE_64: nat := 0x1_0000_0000_0000_0000

  class Sleeper {
    var sleepUsecs: nat
    var sleeping: bool

    /** A new coroutine is all zeros. */
    constructor ()
      ensures sleepUsecs == 0 && !sleeping
    {
      sleepUsecs, sleeping := 0, false;
    }
  }

  predicate Increasing(s: seq<nat>) {
    forall i, j :: 0 <= i < j < |s| ==> s[i] < s[j]
  }

  predicate UpTo(s: seq<nat>, bound: int) {
    forall i :: 0 <= i < |s| ==> s[i] <= bound
  }

  ghost predicate Before(s: seq<nat>, keys: set<nat>) {
    forall i, k :: 0 <= i < |s| && k in keys ==> s[i] < k
  }

  /** The least element of a set of keys. */
  ghost predicate IsLeast(k: nat, keys: set<nat>) {
    k in keys && forall j :: j in keys ==> k <= j
  }

  /** The least time from `target` on that is not taken. */
  ghost predicate IsLeastFree(k: nat, target: int, taken: set<nat>) {
    target <= k && k !in taken && forall j: nat :: target <= j < k ==> j in taken
  }

  lemma LeastExists(keys: set<nat>) returns (k: nat)
    requires keys != {}
    ensures IsLeast(k, keys)
    decreases |keys|
  {
    k :| k in keys;
    var first, rest := k, keys - {k};
    if rest != {} {
      k := LeastExists(rest);
      if first < k {
        k := first;
      }
    }
    forall j | j in keys
      ensures k <= j
    {
      assert j == first || j in rest;
    }
  }

  /** Whoever sleeps with the least time may be woken next. */
  lemma LeastIsNext(woken: seq<nat>, keys: set<nat>, k: nat, bound: int)
    requires Increasing(woken) && Before(woken, keys) && UpTo(woken, bound) && IsLeast(k, keys) && k <= bound
    ensures Increasing(woken + [k]) && Before(woken + [k], keys - {k}) && UpTo(woken + [k], bound)
  {
  }

  /** A run of keys in a set is no longer than the set is large. */
  lemma {:induction false} RunFits(keys: set<nat>, lo: nat, hi: nat)
    requires lo <= hi && forall k :: lo <= k < hi ==> k in keys
    ensures hi - lo <= |keys|
    decreases hi - lo
  {
    if lo < hi {
      RunFits(keys - {hi - 1}, lo, hi - 1);
      assert |keys - {hi - 1}| == |keys| - 1;
    }
  }

  lemma FewerKeys(a: set<nat>, b: set<nat>)
    requires a <= b
    ensures |a| <= |b|
  {
    assert b == a + (b - a);
  }

  /** All sleepers but `co` are where they were. */
  ghost predicate Keeps(before: map<nat, Sleeper>, after: map<nat, Sleeper>, co: Sleeper) {
    forall k :: k in before && before[k] != co ==> k in after && after[k] == before[k]
  }

  /** Taking out the key `last` and putting `co` in anywhere that is free loses exactly another sleeper at `last`. */
  lemma WhoIsKept(before: map<nat, Sleeper>, last: nat, co: Sleeper)
    ensures var others := before - {last};
      && (Keeps(before, others, co) <==> !(last in before && before[last] != co))
      && forall k :: k !in others ==> (Keeps(before, others[k := co], co) <==> !(last in before && before[last] != co))
  {
  }

  /** Each of the first sleepers has woken or is where he was. */
  ghost predicate StayOrWake(first: map<nat, Sleeper>, times: seq<nat>, after: map<nat, Sleeper>) {
    forall k :: k in first ==> k in times || (k in after && after[k] == first[k])
  }

  /** Those who have woken and those who sleep are among the first sleepers. */
  ghost predicate NoneComes(first: map<nat, Sleeper>, times: seq<nat>, after: map<nat, Sleeper>) {
    after.Keys <= first.Keys && forall k :: k in times ==> k in first
  }

  lemma NoneYet(first: map<nat, Sleeper>, readings: nat -> nat, birth: nat)
    ensures StayOrWake(first, [], first) && NoneComes(first, [], first) && InTime([], readings, birth)
  {
  }

  lemma OneMore(first: map<nat, Sleeper>, times: seq<nat>, before: map<nat, Sleeper>, k: nat, after: map<nat, Sleeper>)
    requires StayOrWake(first, times, before) && k in before
    requires forall j :: j in before && j != k ==> j in after && after[j] == before[j]
    ensures StayOrWake(first, times + [k], after)
    ensures NoneComes(first, times, before) && after == before - {k} ==> NoneComes(first, times + [k], after)
  {
    forall j | j in first
      ensures j in times + [k] || (j in after && after[j] == first[j])
    {
      assert j in times ==> j in times + [k];
      assert k == (times + [k])[|times|];
    }
  }

  lemma LeastIsThere(k: nat, m: map<nat, Sleeper>)
    requires IsLeast(k, m.Keys)
    ensures k in m && m == (m - {k})[k := m[k]] && |m - {k}| == |m| - 1
  {
    assert (m - {k}).Keys == m.Keys - {k};
  }

  /** The clock never goes back. */
  ghost predicate Forward(readings: nat -> nat) {
    forall t: nat :: readings(t) <= readings(t + 1)
  }

  lemma NextReadings(readings: nat -> nat, t: nat)
    requires Forward(readings)
    ensures readings(2 * t) <= readings(2 * t + 1) <= readings(2 * (t + 1))
  {
    assert 2 * t + 1 + 1 == 2 * (t + 1);
  }

  /** Whoever woke in turn `i` was due by the reading of that turn. */
  predicate InTime(times: seq<nat>, readings: nat -> nat, birth: nat) {
    forall i :: 0 <= i < |times| ==> times[i] <= readings(2 * i) - birth
  }

  lemma OneInTime(times: seq<nat>, readings: nat -> nat, birth: nat, k: nat)
    requires InTime(times, readings, birth) && k <= readings(2 * |times|) - birth
    ensures InTime(times + [k], readings, birth)
  {
  }

  /** No one sleeps again. */
  predicate NoNaps(naps: seq<nat>) {
    forall i :: 0 <= i < |naps| ==> naps[i] == 0
  }

  lemma IsNoNap(naps: seq<nat>, t: nat)
    requires t < |naps|
    ensures NoNaps(naps) ==> naps[t] == 0
  {
  }

  // ---- Runs ----

  /** What happens at a reading of the clock: a coroutine goes to sleep, or the loop looks for one that is due. */
  datatype Step = Sleep(now: nat, who: nat, msecs: nat) | Expire(now: nat)

  /** What comes of it. */
  datatype Turn = Slept(co: Sleeper, until: nat) | Woke(co: Sleeper) | Nothing

  /** Who sleeps after one more turn, and until when. */
  ghost function After(m: map<Sleeper, nat>, turn: Turn): map<Sleeper, nat> {
    match turn
    case Slept(co, until) => m[co := until]
    case Woke(co) => m - {co}
    case Nothing => m
  }

  /** Who went to sleep and was not woken since, and until when. */
  ghost function Until(history: seq<Turn>): map<Sleeper, nat> {
    if history == [] then map[]
    else
      var n := |history| - 1;
      After(Until(history[..n]), history[n])
  }

  ghost predicate WakesFirst(co: Sleeper, m: map<Sleeper, nat>) {
    co in m && forall c :: c in m ==> m[co] <= m[c]
  }

  /**
   * What a step has to come to, from who sleeps before it: whoever calls for some time sleeps until the least free
   * time from his target on, and an expiry wakes the one with the least time, if that has come.
   */
  ghost predicate Follows(step: Step, turn: Turn, m: map<Sleeper, nat>, cos: seq<Sleeper>, birth: nat) {
    match step
    case Sleep(now, who, msecs) =>
      if who < |cos| && msecs > 0 then
        && turn.Slept? && turn.co == cos[who]
        && IsLeastFree(turn.until, now - birth + msecs * 1000, (m - {cos[who]}).Values)
      else turn == Nothing
    case Expire(now) =>
      if turn.Woke? then WakesFirst(turn.co, m) && m[turn.co] <= now - birth
      else turn == Nothing && forall c :: c in m ==> now - birth < m[c]
  }

  /** The history has one turn for each of the first steps, and each is what its step has to come to. */
  ghost predicate Tells(history: seq<Turn>, steps: seq<Step>, cos: seq<Sleeper>, birth: nat) {
    && |history| <= |steps|
    && forall t :: 0 <= t < |history| ==> Follows(steps[t], history[t], Until(history[..t]), cos, birth)
  }

  /** No two sleep until the same time. */
  ghost predicate Apart(m: map<Sleeper, nat>) {
    forall a, b :: a in m && b in m && m[a] == m[b] ==> a == b
  }

  lemma StaysApart(step: Step, turn: Turn, m: map<Sleeper, nat>, cos: seq<Sleeper>, birth: nat)
    requires Apart(m) && Follows(step, turn, m, cos, birth)
    ensures Apart(After(m, turn))
  {
    if turn.Slept? {
      forall c | c in m && c != turn.co
        ensures m[c] != turn.until
      {
        assert (m - {turn.co})[c] in (m - {turn.co}).Values;
      }
    }
  }

  lemma {:induction false} AllApart(history: seq<Turn>, steps: seq<Step>, cos: seq<Sleeper>, birth: nat)
    requires Tells(history, steps, cos, birth)
    ensures Apart(Until(history))
    decreases |history|
  {
    if history != [] {
      var n := |history| - 1;
      TellsLess(history, steps, cos, birth, n);
      AllApart(history[..n], steps, cos, birth);
      StaysApart(steps[n], history[n], Until(history[..n]), cos, birth);
    }
  }

  lemma TellsLess(history: seq<Turn>, steps: seq<Step>, cos: seq<Sleeper>, birth: nat, n: nat)
    requires Tells(history, steps, cos, birth) && n <= |history|
    ensures Tells(history[..n], steps, cos, birth)
  {
    hide Follows, Until;
    assert forall t :: 0 <= t < n ==> history[..n][..t] == history[..t];
  }

  lemma OneTurnOnly(step: Step, a: Turn, b: Turn, m: map<Sleeper, nat>, cos: seq<Sleeper>, birth: nat)
    requires Apart(m) && Follows(step, a, m, cos, birth) && Follows(step, b, m, cos, birth)
    ensures a == b
  {
  }

  /** The steps leave no choice: there is no other history that follows them. */
  lemma {:induction false} HistoryIsDetermined(a: seq<Turn>, b: seq<Turn>, steps: seq<Step>, cos: seq<Sleeper>,
                                               birth: nat)
    requires Tells(a, steps, cos, birth) && Tells(b, steps, cos, birth) && |a| == |b|
    ensures a == b
    decreases |a|
  {
    hide Follows, Until;
    if a != [] {
      var n := |a| - 1;
      TellsLess(a, steps, cos, birth, n);
      TellsLess(b, steps, cos, birth, n);
      HistoryIsDetermined(a[..n], b[..n], steps, cos, birth);
      AllApart(a[..n], steps, cos, birth);
      OneTurnOnly(steps[n], a[n], b[n], Until(a[..n]), cos, birth);
      assert a == a[..n] + [a[n]] && b == b[..n] + [b[n]];
    }
  }

  /** The times of those who woke, in order. */
  ghost function WakeTimes(history: seq<Turn>): seq<nat> {
    if history == [] then []
    else
      var n := |history| - 1;
      WakeTimes(history[..n]) + WakeTime(Until(history[..n]), history[n])
  }

  ghost function WakeTime(m: map<Sleeper, nat>, turn: Turn): seq<nat> {
    if turn.Woke? && turn.co in m then [m[turn.co]] else []
  }

  lemma TellsOn(history: seq<Turn>, turn: Turn, steps: seq<Step>, cos: seq<Sleeper>, birth: nat)
    requires Tells(history, steps, cos, birth) && |history| < |steps|
    requires Follows(steps[|history|], turn, Until(history), cos, birth)
    ensures Tells(history + [turn], steps, cos, birth)
  {
    hide Follows, Until;
    forall t | 0 <= t < |history| + 1
      ensures Follows(steps[t], (history + [turn])[t], Until((history + [turn])[..t]), cos, birth)
    {
      assert (history + [turn])[..t] == history[..t];
      assert history[..|history|] == history;
    }
  }

  lemma OneTurn(history: seq<Turn>, turn: Turn)
    ensures Until(history + [turn]) == After(Until(history), turn)
    ensures WakeTimes(history + [turn]) == WakeTimes(history) + WakeTime(Until(history), turn)
  {
    hide After, WakeTime;
    assert (history + [turn])[..|history|] == history;
  }

  lemma OneTurnAfter(first: seq<nat>, history: seq<Turn>, turn: Turn)
    ensures Until(history + [turn]) == After(Until(history), turn)
    ensures first + WakeTimes(history + [turn]) == first + WakeTimes(history) + WakeTime(Until(history), turn)
  {
    hide After, Until, WakeTimes, WakeTime;
    OneTurn(history, turn);
  }

  /** The readings of the clock never go back, and all times fit into 64 bits. */
  ghost predicate InOrder(steps: seq<Step>, clock: nat, birth: nat) {
    && (forall i :: 0 <= i < |steps| ==> clock <= steps[i].now)
    && (forall i, j :: 0 <= i < j < |steps| ==> steps[i].now <= steps[j].now)
    && forall i :: 0 <= i < |steps| && steps[i].Sleep? ==>
      steps[i].now - birth + steps[i].msecs * 1000 + |steps| < TWO_TO_THE_64
  }

  lemma NextInOrder(steps: seq<Step>, clock: nat, birth: nat, t: nat)
    requires InOrder(steps, clock, birth) && t < |steps|
    ensures clock <= steps[t].now && (t + 1 < |steps| ==> steps[t].now <= steps[t + 1].now)
    ensures steps[t].Sleep? ==> steps[t].now - birth + steps[t].msecs * 1000 + |steps| < TWO_TO_THE_64
  {
  }

  class Sleeping {
    var tree: map<nat, Sleeper>
    const birth: nat
    const defaultTimeout: nat := 3000000
    // The last reading of the clock, and the wake-up times of all who were woken, in order.
    ghost var clock: nat
    ghost var woken: seq<nat>

    constructor (now: nat)
      ensures Valid() && tree == map[] && birth == clock == now && woken == []
    {
      tree, birth, clock, woken := map[], now, now, [];
    }

    /**
     * Sleepers stand under their own times; all were woken in order, when they were due, and before any who sleep
     * still.
     */
    ghost predicate Valid()
      reads this, tree.Values
    {
      && (forall k :: k in tree ==> tree[k].sleepUsecs == k)
      && birth <= clock && Increasing(woken) && UpTo(woken, clock - birth)
      && Before(woken, tree.Keys)
    }

    /** Whether the tree holds another sleeper under the time that `co` last slept until. */
    predicate Collides(co: Sleeper)
      reads this, co
    {
      co.sleepUsecs in tree && tree[co.sleepUsecs] != co
    }

    predicate IsAsleep(co: Sleeper)
      reads this`tree, co`sleepUsecs
    {
      co.sleepUsecs in tree && tree[co.sleepUsecs] == co
    }

    /** No one but the coroutines of `cos` sleeps, and whoever does not sleep has a time that is over and no one's. */
    ghost predicate Tidy(cos: set<Sleeper>)
      reads this`tree, this`clock, cos`sleepUsecs
    {
      && (forall k :: k in tree ==> tree[k] in cos)
      && forall co :: co in cos && !IsAsleep(co) ==> co.sleepUsecs !in tree && co.sleepUsecs <= clock - birth
    }

    /** So none of them can push another one out. */
    lemma TidyNeverCollides(cos: set<Sleeper>, co: Sleeper)
      requires Tidy(cos) && co in cos
      ensures !Collides(co)
    {
    }

    /** The first half of nty_schedule_sched_sleepdown: whoever has the caller's last time is taken out. */
    method Unlink(co: Sleeper, msecs: nat, now: nat)
      requires Valid() && clock <= now && now - birth + msecs * 1000 < TWO_TO_THE_64
      modifies this`tree, this`clock, co`sleepUsecs
      ensures Valid() && clock == now && tree == old(tree) - {old(co.sleepUsecs)} && co !in tree.Values
      ensures co.sleepUsecs == now - birth + msecs * 1000
    {
      ghost var before := tree;
      var usecs := msecs * 1000 % TWO_TO_THE_64;
      if co.sleepUsecs in tree {
        tree := tree - {co.sleepUsecs};
      }
      assert tree == before - {co.sleepUsecs} && co !in tree.Values;
      co.sleepUsecs := (now - birth + usecs) % TWO_TO_THE_64;
      clock := now;
    }

    /** The loop that moves on from an occupied time to the next. */
    method InsertFrom(co: Sleeper)
      requires Valid() && co !in tree.Values && co.sleepUsecs + |tree| < TWO_TO_THE_64
      requires forall i :: 0 <= i < |woken| ==> woken[i] < co.sleepUsecs
      modifies this`tree, co
      ensures Valid()
      ensures co.sleepUsecs >= old(co.sleepUsecs) && co.sleepUsecs !in old(tree)
      ensures forall k :: old(co.sleepUsecs) <= k < co.sleepUsecs ==> k in old(tree)
      ensures tree == old(tree)[co.sleepUsecs := co] && co.sleeping
    {
      ghost var target := co.sleepUsecs;
      while true
        invariant unchanged(this) && target <= co.sleepUsecs && Valid()
        invariant forall k :: target <= k < co.sleepUsecs ==> k in tree
        decreases target + |tree| - co.sleepUsecs
      {
        RunFits(tree.Keys, target, co.sleepUsecs);
        if co.sleepUsecs in tree {
          RunFits(tree.Keys, target, co.sleepUsecs + 1);
          co.sleepUsecs := (co.sleepUsecs + 1) % TWO_TO_THE_64;
          continue;
        }
        tree := tree[co.sleepUsecs := co];
        co.sleeping := true;
        break;
      }
    }

    /**
     * nty_schedule_sched_sleepdown. The caller gets the least free time from its target on. All other sleepers stay
     * where they are exactly if none of them has the time the caller last slept until.
     */
    method SchedSleepdown(co: Sleeper, msecs: nat, now: nat)
      requires Valid() && clock <= now && now - birth + msecs * 1000 + |tree| < TWO_TO_THE_64
      modifies this`tree, this`clock, co
      ensures Valid() && clock == now
      ensures var target, others := now - birth + msecs * 1000, old(tree) - {old(co.sleepUsecs)};
        if msecs == 0 then co.sleepUsecs == target && tree == others
        else
          && IsLeastFree(co.sleepUsecs, target, others.Keys)
          && tree == others[co.sleepUsecs := co] && co.sleeping
      ensures Keeps(old(tree), tree, co) <==> !old(Collides(co))
    {
      hide Keeps;
      ghost var before, last := tree, co.sleepUsecs;
      WhoIsKept(before, last, co);
      Unlink(co, msecs, now);
      assert |tree| <= |before| by {
        assert tree.Keys <= before.Keys;
        FewerKeys(tree.Keys, before.Keys);
      }
      if msecs != 0 {
        InsertFrom(co);
      }
    }

    /** RB_MIN */
    method Least() returns (co: Sleeper?)
      requires Valid()
      ensures
        if tree == map[] then co == null
        else co != null && IsLeast(co.sleepUsecs, tree.Keys) && tree[co.sleepUsecs] == co
    {
      if tree == map[] {
        return null;
      }
      ghost var l := LeastExists(tree.Keys);
      var k: nat :| k in tree && forall j :: j in tree ==> k <= j;
      co := tree[k];
    }

    /** nty_schedule_expired: the sleeper with the least time, if that has come. */
    method Expired(now: nat) returns (co: Sleeper?)
      requires Valid() && clock <= now
      modifies this`tree, this`clock, this`woken
      ensures Valid() && clock == now
      ensures co == null ==> tree == old(tree) && woken == old(woken) && forall k :: k in tree ==> now - birth < k
      ensures co != null ==>
        var k := co.sleepUsecs;
        && IsLeast(k, old(tree).Keys) && old(tree)[k] == co && k <= now - birth
        && tree == old(tree) - {k} && woken == old(woken) + [k]
    {
      hide Increasing, Before;
      clock := now;
      co := Least();
      if co == null {
        return null;
      }
      if co.sleepUsecs <= now - birth {
        LeastIsNext(woken, tree.Keys, co.sleepUsecs, now - birth);
        assert (tree - {co.sleepUsecs}).Keys == tree.Keys - {co.sleepUsecs};
        tree := tree - {co.sleepUsecs};
        woken := woken + [co.sleepUsecs];
        return co;
      }
      co := null;
    }

    /**
     * One turn of the loop over the sleepers who are due: the one who wakes may sleep again, for `nap` milliseconds.
     */
    method WakeOne(now: nat, nap: nat, later: nat) returns (co: Sleeper?, ghost k: nat)
      requires Valid() && clock <= now <= later && later - birth + nap * 1000 + |tree| < TWO_TO_THE_64
      modifies this, tree.Values
      ensures Valid() && clock <= later && |tree| <= |old(tree)| && tree.Values <= old(tree.Values)
      ensures co == null ==>
        tree == old(tree) && woken == old(woken) && clock == now && forall j :: j in tree ==> now - birth < j
      ensures co != null ==>
        IsLeast(k, old(tree).Keys) && old(tree)[k] == co && k <= now - birth && woken == old(woken) + [k]
      ensures co != null ==> forall j :: j in old(tree) && j != k ==> j in tree && tree[j] == old(tree)[j]
      ensures co != null && nap == 0 ==> tree == old(tree) - {k}
    {
      hide Valid, IsLeast;
      co := Expired(now);
      k := 0;
      if co != null {
        k := co.sleepUsecs;
        ghost var rest := tree;
        LeastIsThere(k, old(tree));
        if nap != 0 {
          SchedSleepdown(co, nap, later);
          assert rest - {k} == rest;
        }
      }
    }

    /**
     * The loop that wakes all who are due, cut off after as many turns as there are `naps`; the clock is read anew for
     * each test and each nap. Sleepers wake in strictly increasing order and never early, also those who sleep again
     * in between; each of the others stays or wakes. If the loop ends by itself, no one who sleeps is due; it does if
     * no one sleeps again, and then exactly those who were due have woken.
     */
    method Drain(readings: nat -> nat, naps: seq<nat>) returns (done: bool, ghost times: seq<nat>)
      requires Valid() && clock <= readings(0) && Forward(readings)
      requires forall i :: 0 <= i < |naps| ==> readings(2 * i + 1) - birth + naps[i] * 1000 + |tree| < TWO_TO_THE_64
      modifies this, tree.Values
      ensures Valid() && woken == old(woken) + times && |times| <= |naps|
      ensures InTime(times, readings, birth)
      ensures StayOrWake(old(tree), times, tree)
      ensures if done then forall k :: k in tree ==> clock - birth < k else |times| == |naps|
      ensures NoNaps(naps) ==> (|naps| > |old(tree)| ==> done) && NoneComes(old(tree), times, tree)
    {
      hide Valid, NoNaps, StayOrWake, NoneComes, IsLeast, Forward, InTime;
      times := [];
      NoneYet(tree, readings, birth);
      var t := 0;
      while t < |naps|
        invariant t <= |naps| && |times| == t && Valid() && clock <= readings(2 * t)
        invariant |tree| <= |old(tree)| && tree.Values <= old(tree.Values) && woken == old(woken) + times
        invariant InTime(times, readings, birth)
        invariant StayOrWake(old(tree), times, tree)
        invariant NoNaps(naps) ==> |tree| + t <= |old(tree)| && NoneComes(old(tree), times, tree)
      {
        NextReadings(readings, t);
        IsNoNap(naps, t);
        ghost var before := tree;
        var co;
        ghost var k;
        co, k := WakeOne(readings(2 * t), naps[t], readings(2 * t + 1));
        if co == null {
          return true, times;
        }
        LeastIsThere(k, before);
        OneMore(old(tree), times, before, k, tree);
        OneInTime(times, readings, birth, k);
        times := times + [k];
        t := t + 1;
      }
      done := false;
    }

    /** nty_coroutine_sleep, up to the queue: whoever sleeps for no time at all is put there instead. */
    method CoroutineSleep(co: Sleeper, msecs: nat, now: nat, ghost cos: set<Sleeper>) returns (queued: bool)
      requires Valid() && Tidy(cos) && co in cos && clock <= now
      requires now - birth + msecs * 1000 + |tree| < TWO_TO_THE_64
      modifies this`tree, this`clock, co
      ensures Valid() && Tidy(cos) && clock <= now && |tree| <= |old(tree)| + 1 && queued == (msecs == 0)
      ensures if queued then tree == old(tree) && unchanged(co) else IsAsleep(co) && Keeps(old(tree), tree, co)
      ensures !queued ==>
        IsLeastFree(co.sleepUsecs, now - birth + msecs * 1000, old(tree).Keys - {old(co.sleepUsecs)})
      ensures forall c :: c in cos && c != co ==> IsAsleep(c) == old(IsAsleep(c))
    {
      hide Increasing, Before, UpTo;
      if msecs == 0 {
        return true;
      }
      ghost var before, last := tree, co.sleepUsecs;
      TidyNeverCollides(cos, co);
      SchedSleepdown(co, msecs, now);
      queued := false;
    }

    /** nty_schedule_expired among tidy sleepers: the one who wakes is the only one whose state changes. */
    method WakeNext(now: nat, ghost cos: set<Sleeper>) returns (co: Sleeper?)
      requires Valid() && Tidy(cos) && clock <= now
      modifies this`tree, this`clock, this`woken
      ensures Valid() && Tidy(cos) && clock == now && |tree| <= |old(tree)|
      ensures co == null ==> woken == old(woken) && forall k :: k in old(tree) ==> now - birth < k
      ensures co != null ==>
        && co in cos && old(IsAsleep(co)) && !IsAsleep(co) && woken == old(woken) + [co.sleepUsecs]
        && co.sleepUsecs <= now - birth && forall k :: k in old(tree) ==> co.sleepUsecs <= k
      ensures forall c :: c in cos && c != co ==> IsAsleep(c) == old(IsAsleep(c))
    {
      hide Valid, Tidy, IsAsleep;
      ghost var before := tree;
      co := Expired(now);
      if co == null {
        NoneWakes(cos);
      } else {
        LeastIsThere(co.sleepUsecs, before);
        OneWakes(cos, co);
      }
    }

    twostate lemma NoneWakes(new cos: set<Sleeper>)
      requires old(allocated(cos)) && old(Tidy(cos)) && tree == old(tree) && old(clock) <= clock
      requires forall c :: c in cos ==> c.sleepUsecs == old(c.sleepUsecs)
      ensures Tidy(cos) && forall c :: c in cos ==> IsAsleep(c) == old(IsAsleep(c))
    {
    }

    twostate lemma OneWakes(new cos: set<Sleeper>, new co: Sleeper)
      requires old(allocated(cos)) && old(allocated(co)) && old(Valid() && Tidy(cos)) && old(clock) <= clock
      requires co.sleepUsecs in old(tree) && old(tree)[co.sleepUsecs] == co && co.sleepUsecs <= clock - birth
      requires tree == old(tree) - {co.sleepUsecs} && co.sleepUsecs == old(co.sleepUsecs)
      requires forall c :: c in cos ==> c.sleepUsecs == old(c.sleepUsecs)
      ensures Tidy(cos) && co in cos && old(IsAsleep(co)) && !IsAsleep(co)
      ensures forall c :: c in cos && c != co ==> IsAsleep(c) == old(IsAsleep(c))
    {
      hide Increasing, Before, UpTo;
    }

    /** Of the coroutines `cos` exactly those of `m` sleep, each until his time there. */
    ghost predicate Holds(m: map<Sleeper, nat>, cos: set<Sleeper>)
      reads this`tree, cos`sleepUsecs
    {
      && m.Keys <= cos
      && forall co :: co in cos ==> (IsAsleep(co) <==> co in m) && (co in m ==> co.sleepUsecs == m[co])
    }

    /** Without `co` and his last time, the tree has exactly the times of the other sleepers. */
    lemma TimesOfOthers(m: map<Sleeper, nat>, cos: set<Sleeper>, co: Sleeper)
      requires Valid() && Tidy(cos) && Holds(m, cos) && co in cos
      ensures (m - {co}).Values == tree.Keys - {co.sleepUsecs}
    {
      hide Increasing, Before, UpTo;
      var others := m - {co};
      forall k | k in tree && k != co.sleepUsecs
        ensures k in others.Values
      {
        var c := tree[k];
        assert IsAsleep(c) && c in others && others[c] == k;
      }
    }

    /** A coroutine goes to sleep, or queues up. */
    method SleepTurn(co: Sleeper, msecs: nat, now: nat, ghost cos: set<Sleeper>, ghost m: map<Sleeper, nat>)
      returns (ghost turn: Turn)
      requires Valid() && Tidy(cos) && Holds(m, cos) && co in cos && clock <= now
      requires now - birth + msecs * 1000 + |tree| < TWO_TO_THE_64
      modifies this`tree, this`clock, co
      ensures Valid() && Tidy(cos) && clock <= now && |tree| <= |old(tree)| + 1
      ensures
        if msecs == 0 then turn == Nothing
        else turn.Slept? && turn.co == co && IsLeastFree(turn.until, now - birth + msecs * 1000, (m - {co}).Values)
      ensures Holds(After(m, turn), cos)
    {
      hide Valid, Tidy, Holds, IsAsleep, Keeps, IsLeastFree;
      TimesOfOthers(m, cos, co);
      var queued := CoroutineSleep(co, msecs, now, cos);
      if queued {
        turn := Nothing;
        NothingMoved(m, cos);
      } else {
        turn := Slept(co, co.sleepUsecs);
        OneSleepsMore(m, cos, co);
      }
    }

    twostate lemma NothingMoved(new m: map<Sleeper, nat>, new cos: set<Sleeper>)
      requires old(allocated(m)) && old(allocated(cos)) && old(Holds(m, cos)) && tree == old(tree)
      requires forall c :: c in cos ==> c.sleepUsecs == old(c.sleepUsecs)
      ensures Holds(m, cos)
    {
    }

    twostate lemma OneSleepsMore(new m: map<Sleeper, nat>, new cos: set<Sleeper>, new co: Sleeper)
      requires old(allocated(m)) && old(allocated(cos)) && old(Holds(m, cos)) && co in cos && IsAsleep(co)
      requires forall c :: c in cos && c != co ==>
        c.sleepUsecs == old(c.sleepUsecs) && IsAsleep(c) == old(IsAsleep(c))
      ensures Holds(m[co := co.sleepUsecs], cos)
    {
      hide IsAsleep;
    }

    /** The loop looks for a sleeper who is due. */
    method ExpireTurn(now: nat, ghost cos: set<Sleeper>, ghost m: map<Sleeper, nat>) returns (ghost turn: Turn)
      requires Valid() && Tidy(cos) && Holds(m, cos) && clock <= now
      modifies this`tree, this`clock, this`woken
      ensures Valid() && Tidy(cos) && clock == now && |tree| <= |old(tree)|
      ensures
        if turn.Woke? then WakesFirst(turn.co, m) && m[turn.co] <= now - birth
        else turn == Nothing && forall c :: c in m ==> now - birth < m[c]
      ensures Holds(After(m, turn), cos) && woken == old(woken) + WakeTime(m, turn)
    {
      hide Valid, Tidy;
      assert forall c :: c in m ==> IsAsleep(c) && m[c] in tree;
      var co := WakeNext(now, cos);
      turn := if co == null then Nothing else Woke(co);
    }

    /** One step of a run. */
    method TakeStep(step: Step, cos: seq<Sleeper>, ghost all: set<Sleeper>, ghost m: map<Sleeper, nat>)
      returns (ghost turn: Turn)
      requires Valid() && Tidy(all) && Holds(m, all) && clock <= step.now
      requires forall co :: co in cos ==> co in all
      requires step.Sleep? ==> step.now - birth + step.msecs * 1000 + |tree| < TWO_TO_THE_64
      modifies this`tree, this`clock, this`woken, cos
      ensures Valid() && Tidy(all) && clock <= step.now && |tree| <= |old(tree)| + 1
      ensures Follows(step, turn, m, cos, birth)
      ensures Holds(After(m, turn), all) && woken == old(woken) + WakeTime(m, turn)
    {
      hide Valid, Tidy, Holds, IsLeastFree, WakesFirst;
      turn := Nothing;
      match step {
      case Sleep(now, who, msecs) =>
        if who < |cos| {
          turn := SleepTurn(cos[who], msecs, now, all, m);
        }
      case Expire(now) =>
        turn := ExpireTurn(now, all, m);
      }
    }

    /**
     * Over whole runs, in which the coroutines `cos` go to sleep and the loop wakes them in any order, each step comes
     * to exactly what it has to come to from those who went to sleep before and were not woken since, and these are
     * the ones who sleep in the end, each until his time: no sleeper is ever lost. All wake in order of time.
     */
    method Run(cos: seq<Sleeper>, steps: seq<Step>) returns (ghost history: seq<Turn>)
      requires Valid() && tree == map[] && forall i :: 0 <= i < |cos| ==> cos[i].sleepUsecs == 0
      requires InOrder(steps, clock, birth)
      modifies this`tree, this`clock, this`woken, cos
      ensures |history| == |steps| && Tells(history, steps, cos, birth)
      ensures Valid() && (forall k :: k in tree ==> tree[k] in cos)
      ensures forall c :: c in cos ==> (IsAsleep(c) <==> c in Until(history))
      ensures forall c :: c in Until(history) ==> c in cos && c.sleepUsecs == Until(history)[c]
      ensures woken == old(woken) + WakeTimes(history)
    {
      hide Valid, Tidy, Holds, IsAsleep, InOrder, Until, WakeTimes, Tells, Follows, After, WakeTime;
      history := [];
      ghost var all := set co | co in cos;
      AtFirst(steps, cos, all);
      var t := 0;
      while t < |steps|
        invariant t <= |steps| && |history| == t && Valid() && Tidy(all) && |tree| <= t
        invariant clock <= if t < |steps| then steps[t].now else clock
        invariant Holds(Until(history), all) && Tells(history, steps, cos, birth)
        invariant woken == old(woken) + WakeTimes(history)
        decreases |steps| - t
      {
        NextInOrder(steps, old(clock), birth, t);
        ghost var turn := TakeStep(steps[t], cos, all, Until(history));
        OneTurnAfter(old(woken), history, turn);
        TellsOn(history, turn, steps, cos, birth);
        history := history + [turn];
        t := t + 1;
      }
      InTheEnd(Until(history), all);
    }

    lemma AtFirst(steps: seq<Step>, cos: seq<Sleeper>, all: set<Sleeper>)
      requires Valid() && tree == map[] && forall co :: co in all ==> co.sleepUsecs == 0
      requires InOrder(steps, clock, birth)
      ensures Tidy(all) && Holds(Until([]), all) && Tells([], steps, cos, birth) && WakeTimes([]) == []
      ensures steps != [] ==> clock <= steps[0].now
    {
    }

    lemma InTheEnd(m: map<Sleeper, nat>, cos: set<Sleeper>)
      requires Tidy(cos) && Holds(m, cos)
      ensures forall k :: k in tree ==> tree[k] in cos
      ensures forall c :: c in cos ==> (IsAsleep(c) <==> c in m)
      ensures forall c :: c in m ==> c in cos && c.sleepUsecs == m[c]
    {
    }

    /** nty_schedule_min_timeout: the microseconds until the first sleeper is due. */
    method MinTimeout(now: nat) returns (usecs: nat)
      requires Valid() && clock <= now
      ensures tree == map[] ==> usecs == 3000000
      ensures forall k: nat :: IsLeast(k, tree.Keys) ==> usecs == if k > now - birth then k - (now - birth) else 0
    {
      var co := Least();
      if co == null {
        return defaultTimeout;
      }
      if co.sleepUsecs > now - birth {
        return co.sleepUsecs - (now - birth);
      }
      usecs := 0;
    }

    /** How long nty_schedule_epoll lets the poller wait, in seconds and nanoseconds; not at all if `wait` is false. */
    method Timeout(now: nat, readyIsEmpty: bool) returns (wait: bool, sec: nat, nsec: nat)
      requires Valid() && clock <= now
      ensures wait ==> readyIsEmpty && 0 < sec * 1000000000 + nsec && nsec < 1000000000
      ensures !wait && readyIsEmpty ==> exists k: nat :: IsLeast(k, tree.Keys) && k <= now - birth
      ensures wait && tree == map[] ==> sec == 3 && nsec == 0
      ensures forall k: nat :: wait && IsLeast(k, tree.Keys) ==>
        var gap := k - (now - birth);
        && gap > 0
        && gap * 1000 - (sec * 1000000000 + nsec) == if gap < 1000000 then 0 else gap % 1000000 / 1000 * 1000000
      ensures forall k :: k in tree && wait ==> sec * 1000000000 + nsec <= (k - (now - birth)) * 1000
    {
      sec, nsec := 0, 0;
      var usecs := MinTimeout(now);
      if tree != map[] {
        ghost var l := LeastExists(tree.Keys);
      }
      if usecs == 0 || !readyIsEmpty {
        return false, 0, 0;
      }
      wait := true;
      sec := usecs / 1000000;
      if sec != 0 {
        nsec := usecs % 1000 * 1000;
      } else {
        nsec := usecs * 1000;
      }
      TimespecIsShort(usecs);
    }
  }

  /** The two fields of the timespec for a timeout in microseconds. */
  function Timespec(usecs: nat): (t: (nat, nat)) {
    (usecs / 1000000, if usecs / 1000000 != 0 then usecs % 1000 * 1000 else usecs * 1000)
  }

  /** Whole thousands do not change what is left of a number by thousands. */
  lemma LeftByThousands(thousands: nat, rest: nat)
    ensures (thousands * 1000 + rest) % 1000 == rest % 1000
  {
    assert thousands * 1000 + rest == (thousands + rest / 1000) * 1000 + rest % 1000;
  }

  /**
   * The timespec is a proper one, and from a second on it lacks the whole milliseconds. So it is never longer, and it
   * is shorter exactly if the timeout is a second or more and not within a millisecond after a whole second.
   */
  lemma TimespecIsShort(usecs: nat)
    ensures var (sec, nsec) := Timespec(usecs);
      && nsec < 1000000000
      && usecs * 1000 - (sec * 1000000000 + nsec) == (if usecs < 1000000 then 0 else usecs % 1000000 / 1000 * 1000000)
      && (sec * 1000000000 + nsec == usecs * 1000 <==> usecs < 1000000 || usecs % 1000000 < 1000)
  {
    var rest := usecs % 1000000;
    LeftByThousands(usecs / 1000000 * 1000, rest);
    assert usecs == usecs / 1000000 * 1000 * 1000 + rest && rest == rest / 1000 * 1000 + rest % 1000;
  }

  /** Whoever goes to sleep where no one else is left gets the target itself. */
  method SleepAlone(s: Sleeping, co: Sleeper, msecs: nat, now: nat)
    requires s.Valid() && s.clock <= now && now - s.birth + msecs * 1000 + |s.tree| < TWO_TO_THE_64
    requires msecs > 0 && s.tree - {co.sleepUsecs} == map[]
    modifies s`tree, s`clock, co
    ensures s.Valid() && s.clock == now && co.sleepUsecs == now - s.birth + msecs * 1000
    ensures s.tree == map[co.sleepUsecs := co] && co.sleeping
  {
    hide Increasing, Before, UpTo, Keeps;
    ghost var target := now - s.birth + msecs * 1000;
    assert target !in s.tree - {co.sleepUsecs};
    s.SchedSleepdown(co, msecs, now);
  }

  /** A direct call with no time to sleep only gives the caller a new time. */
  method SleepNoTime(s: Sleeping, co: Sleeper, now: nat)
    requires s.Valid() && s.clock <= now && now - s.birth + |s.tree| < TWO_TO_THE_64 && co.sleepUsecs !in s.tree
    modifies s`tree, s`clock, co
    ensures s.Valid() && s.clock == now && s.tree == old(s.tree) && co.sleepUsecs == now - s.birth
  {
    hide Increasing, Before, UpTo, Keeps;
    s.SchedSleepdown(co, 0, now);
  }

  /**
   * How a sleeper gets lost: a direct call with no time to sleep gives `b` the very time `a` sleeps until, and the next
   * call of `b` takes `a` out of the tree. It is not woken, and nothing will wake it.
   */
  method LoseSleeper() returns (s: Sleeping, a: Sleeper, b: Sleeper)
    ensures s.Valid() && s.woken == [] && a.sleeping && a != b && s.tree == map[b.sleepUsecs := b]
  {
    hide Sleeping.Valid;
    s := new Sleeping(0);
    a := new Sleeper();
    b := new Sleeper();
    assert s.tree - {a.sleepUsecs} == map[];
    SleepAlone(s, a, 1, 0);
    assert s.tree == map[1000 := a] && |s.tree| == 1;
    SleepNoTime(s, b, 1000);
    assert s.tree - {1000} == map[];
    SleepAlone(s, b, 1, 1000);
  }
}
