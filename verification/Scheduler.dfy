/**
 * The run loop of nty_schedule.c, for coroutines that wait for one descriptor at a time, requeue themselves,
 * create others and exit.
 */
module Scheduler {

  // Bit numbers of nty_coroutine_status; a status is the set of its bits.
  const WAIT_READ: nat := 0
  const WAIT_WRITE: nat := 1
  const NEW: nat := 2
  const READY: nat := 3
  const EXITED: nat := 4
  const FDEOF: nat := 8
  const DETACH: nat := 9

  /** What a coroutine does next. */
  datatype Action =
    | Poll(fd: int, write: bool)
    | SleepZero
    | Renice
    | Create(script: seq<Action>)

  /** One entry of the poller's event list. */
  datatype Event = Event(fd: int, hangUp: bool)

  /**
   * A question to the poller: the ready queue, who waited and what was registered when it was asked, and how many
   * resumes and turns of the loop there had been.
   */
  datatype Question =
    Question(queue: seq<Coroutine>, waiting: map<int, Coroutine>, registered: set<int>, resumes: nat, turn: nat)

  /** Why a coroutine stops: it waits on a descriptor, it queues up again, or its function returns. */
  datatype Stop = Waiting(fd: int) | Queued | Returned

  /** What a coroutine does from one stop to the next. */
  datatype Segment = Segment(stop: Stop, left: seq<Action>, created: seq<seq<Action>>)

  function SegmentOf(script: seq<Action>, ops: nat): (s: Segment)
    ensures |s.left| <= |script|
    decreases |script|
  {
    if script == [] then Segment(Returned, [], [])
    else
      var rest := script[1..];
      match script[0]
      case Poll(fd, write) => Segment(Waiting(fd), rest, [])
      case SleepZero => Segment(Queued, rest, [])
      case Renice => if ops + 1 < 5 then SegmentOf(rest, ops + 1) else Segment(Queued, rest, [])
      case Create(child) => var s := SegmentOf(rest, ops); s.(created := [child] + s.created)
  }

  /** The scripts that are created in `front`, in their order. */
  function CreatedIn(front: seq<Action>): seq<seq<Action>> {
    if front == [] then [] else (if front[0].Create? then [front[0].script] else []) + CreatedIn(front[1..])
  }

  function RenicesIn(front: seq<Action>): nat {
    if front == [] then 0 else (if front[0].Renice? then 1 else 0) + RenicesIn(front[1..])
  }

  /**
   * What ends a segment: behind any creations and fewer renices than make five with those counted before, a descriptor
   * to wait on, a sleep of no time, the fifth renice, or the end of the function. All that was created before is new.
   */
  lemma {:induction false} SegmentIs(front: seq<Action>, rest: seq<Action>, ops: nat)
    requires (forall i :: 0 <= i < |front| ==> front[i].Create? || front[i].Renice?) && ops + RenicesIn(front) < 5
    ensures var s := SegmentOf(front + rest, ops);
      if rest == [] then s == Segment(Returned, [], CreatedIn(front))
      else match rest[0]
        case Poll(fd, write) => s == Segment(Waiting(fd), rest[1..], CreatedIn(front))
        case SleepZero => s == Segment(Queued, rest[1..], CreatedIn(front))
        case Renice => ops + RenicesIn(front) == 4 ==> s == Segment(Queued, rest[1..], CreatedIn(front))
        case Create(_) => true
    decreases |front|
  {
    if front == [] {
      assert front + rest == rest;
    } else {
      assert (front + rest)[0] == front[0] && (front + rest)[1..] == front[1..] + rest;
      SegmentIs(front[1..], rest, if front[0].Renice? then ops + 1 else ops);
    }
  }

  // ---- How much is left to do ----

  /** One for each action, the ones of created coroutines included, and one for each function to return. */
  function Weight(script: seq<Action>): (w: nat)
    ensures w >= 1
  {
    if script == [] then 1 else Cost(script[0]) + Weight(script[1..])
  }

  function Cost(action: Action): nat {
    match action
    case Create(script) => 1 + Weight(script)
    case _ => 1
  }

  function Weights(scripts: seq<seq<Action>>): nat {
    if scripts == [] then 0 else Weight(scripts[0]) + Weights(scripts[1..])
  }

  /** A segment takes at least one off the weight, what it creates and what it leaves included. */
  lemma {:induction false} SegmentShrinks(script: seq<Action>, ops: nat)
    ensures var s := SegmentOf(script, ops);
      Weights(s.created) + (if s.stop.Returned? then 0 else Weight(s.left)) < Weight(script)
    decreases |script|
  {
    if script != [] {
      SegmentShrinks(script[1..], ops);
      SegmentShrinks(script[1..], ops + 1);
    }
  }

  ghost function Total(m: map<Coroutine, nat>): nat
    decreases |m|
  {
    if m == map[] then 0
    else
      var c :| c in m;
      assert m == (m - {c})[c := m[c]];
      m[c] + Total(m - {c})
  }

  lemma {:induction false} TotalSplit(m: map<Coroutine, nat>, c: Coroutine)
    requires c in m
    ensures Total(m) == m[c] + Total(m - {c})
    decreases |m|
  {
    var d :| d in m && Total(m) == m[d] + Total(m - {d});
    if d != c {
      var n := m - {d};
      assert m == n[d := m[d]];
      TotalSplit(n, c);
      assert m - {c} == (n - {c})[d := m[d]];
      TotalSplit(m - {c}, d);
      assert m - {c} - {d} == n - {c};
    }
  }

  /** With `done` created before, what is still to come makes up the whole segment. */
  predicate Continues(whole: Segment, done: seq<seq<Action>>, rest: Segment) {
    whole == rest.(created := done + rest.created)
  }

  lemma SegmentStep(whole: Segment, done: seq<seq<Action>>, script: seq<Action>, ops: nat)
    requires script != [] && Continues(whole, done, SegmentOf(script, ops))
    ensures match script[0]
      case Poll(fd, write) => whole == Segment(Waiting(fd), script[1..], done)
      case SleepZero => whole == Segment(Queued, script[1..], done)
      case Renice =>
        if ops + 1 >= 5 then whole == Segment(Queued, script[1..], done)
        else Continues(whole, done, SegmentOf(script[1..], ops + 1))
      case Create(child) => Continues(whole, done + [child], SegmentOf(script[1..], ops))
  {
    var s := SegmentOf(script, ops);
    if script[0].Create? {
      var t := SegmentOf(script[1..], ops);
      assert done + ([script[0].script] + t.created) == done + [script[0].script] + t.created;
    } else {
      assert done + [] == done;
    }
  }

  lemma SegmentEnd(whole: Segment, done: seq<seq<Action>>, ops: nat)
    requires Continues(whole, done, SegmentOf([], ops))
    ensures whole == Segment(Returned, [], done)
  {
    assert done + [] == done;
  }

  function Members(s: seq<Coroutine>): set<Coroutine> {
    set c | c in s
  }

  /** The coroutines `children` have the scripts `scripts`. */
  predicate Have(children: seq<Coroutine>, scripts: seq<seq<Action>>)
    reads children`script
  {
    |children| == |scripts| && forall i :: 0 <= i < |children| ==> children[i].script == scripts[i]
  }

  lemma {:induction false} WeightsSplit(scripts: seq<seq<Action>>)
    requires scripts != []
    ensures var n := |scripts| - 1; Weights(scripts) == Weights(scripts[..n]) + Weight(scripts[n])
    decreases |scripts|
  {
    var n := |scripts| - 1;
    if n == 0 {
      assert scripts[..0] == [];
    } else {
      WeightsSplit(scripts[1..]);
      assert scripts[..n][1..] == scripts[1..][..n - 1];
    }
  }

  /** Besides `base`, the map has the coroutines `children` with the weights of their scripts. */
  ghost predicate Extends(m: map<Coroutine, nat>, base: map<Coroutine, nat>, children: seq<Coroutine>,
    scripts: seq<seq<Action>>)
  {
    && |children| == |scripts| && Distinct(children) && m.Keys == base.Keys + Members(children)
    && (forall c :: c in base ==> c !in children && m[c] == base[c])
    && forall i :: 0 <= i < |children| ==> m[children[i]] == Weight(scripts[i])
  }

  lemma WithoutLast(m: map<Coroutine, nat>, base: map<Coroutine, nat>, children: seq<Coroutine>,
    scripts: seq<seq<Action>>)
    requires Extends(m, base, children, scripts) && children != []
    ensures var n := |children| - 1;
      && children[n] in m && m[children[n]] == Weight(scripts[n])
      && Extends(m - {children[n]}, base, children[..n], scripts[..n])
  {
    var n := |children| - 1;
    var c, rest := children[n], children[..n];
    assert forall i :: 0 <= i < n ==> children[i] != c;
    assert Members(children) == Members(rest) + {c} by {
      assert children == rest + [c];
    }
  }

  lemma {:induction false} TotalWith(m: map<Coroutine, nat>, base: map<Coroutine, nat>, children: seq<Coroutine>,
    scripts: seq<seq<Action>>)
    requires |children| == |scripts| && Extends(m, base, children, scripts)
    ensures Total(m) == Total(base) + Weights(scripts)
    decreases |children|
  {
    if children == [] {
      assert m == base;
    } else {
      hide Extends, Weight, Total, Weights;
      var n := |children| - 1;
      WithoutLast(m, base, children, scripts);
      TotalSplit(m, children[n]);
      WeightsSplit(scripts);
      TotalWith(m - {children[n]}, base, children[..n], scripts[..n]);
    }
  }

  lemma TotalOfExtension(m: map<Coroutine, nat>, base: map<Coroutine, nat>, children: seq<Coroutine>,
    scripts: seq<seq<Action>>)
    requires Extends(m, base, children, scripts)
    ensures Total(m) == Total(base) + Weights(scripts)
  {
    TotalWith(m, base, children, scripts);
  }

  /** The total shrinks when `c` gets what its segment leaves to it, or goes, and the created coroutines come. */
  lemma TotalShrinks(before: map<Coroutine, nat>, after: map<Coroutine, nat>, c: Coroutine,
                     script: seq<Action>, ops: nat, children: seq<Coroutine>)
    requires var s := SegmentOf(script, ops);
      && Extends(after - {c}, before - {c}, children, s.created) && (c in after <==> !s.stop.Returned?)
      && (c in after ==> after[c] == Weight(s.left))
    requires c in before && before[c] == Weight(script)
    ensures Total(after) < Total(before)
  {
    hide Weight, Weights, SegmentOf, Extends, Total;
    var s := SegmentOf(script, ops);
    TotalSplit(before, c);
    SegmentShrinks(script, ops);
    TotalOfExtension(after - {c}, before - {c}, children, s.created);
    if s.stop.Returned? {
      assert after - {c} == after;
    } else {
      TotalSplit(after, c);
    }
  }

  lemma DistinctPart<T>(a: seq<T>, b: seq<T>, c: seq<T>)
    requires Distinct(a + b + c)
    ensures Distinct(b)
  {
    forall i, j | 0 <= i < j < |b|
      ensures b[i] != b[j]
    {
      assert b[i] == (a + b + c)[|a| + i] && b[j] == (a + b + c)[|a| + j];
    }
  }

  lemma DistinctMore<T>(s: seq<T>, c: T)
    requires Distinct(s) && c !in s
    ensures Distinct(s + [c])
  {
  }

  /** What has queued up since `n`, when more queues up. */
  lemma QueuedLater<T>(rest: seq<T>, before: seq<T>, after: seq<T>, n: nat)
    requires n <= |before| <= |after| && after[..|before|] == before
    ensures rest + before[n..] + after[|before|..] == rest + after[n..]
  {
    assert after[n..] == before[n..] + after[|before|..];
  }

  lemma NoChildren()
    ensures Members([]) == {} && Have([], [])
  {
  }

  lemma OneChildMore(children: seq<Coroutine>, scripts: seq<seq<Action>>, child: Coroutine)
    requires Have(children, scripts)
    ensures Members(children + [child]) == Members(children) + {child}
      && Have(children + [child], scripts + [child.script])
  {
  }

  class Coroutine {
    var status: set<nat>
    var fd: int
    var ops: nat
    // What is left of its function: this stands for the saved stack.
    var script: seq<Action>
    // Whether it is stopped inside nty_poll_inner.
    var polling: bool

    constructor (script: seq<Action>)
      ensures status == {NEW} && fd == -1 && ops == 0 && this.script == script && !polling
    {
      status, fd, ops, this.script, polling := {NEW}, -1, 0, script, false;
    }
  }

  predicate Distinct<T(==)>(s: seq<T>) {
    forall i, j :: 0 <= i < j < |s| ==> s[i] != s[j]
  }

  class Schedule {
    var ready: seq<Coroutine>
    var waiting: map<int, Coroutine>
    var registered: set<int>
    var spawned: int
    var current: Coroutine?
    // All coroutines that were created and not freed yet.
    ghost var live: set<Coroutine>
    // All resumes, all entries into the ready queue and all questions to the poller, in their order, and all turns.
    ghost var resumed: seq<Coroutine>
    ghost var enqueued: seq<Coroutine>
    ghost var asked: seq<Question>
    ghost var turns: nat

    constructor ()
      ensures Valid() && live == {} && resumed == [] && enqueued == [] && asked == [] && turns == 0
    {
      ready, waiting, registered, spawned, current := [], map[], {}, 0, null;
      live, resumed, enqueued, asked, turns := {}, [], [], [], 0;
    }

    predicate Waits(c: Coroutine)
      reads this`waiting, c
    {
      c.fd in waiting && waiting[c.fd] == c
    }

    /** A suspended coroutine is stopped in nty_poll_inner exactly if the waiting tree has it. */
    ghost predicate Sound(c: Coroutine)
      reads this`waiting, c
    {
      && EXITED !in c.status && (c.polling <==> Waits(c))
      && (!c.polling ==> WAIT_READ !in c.status && WAIT_WRITE !in c.status && FDEOF !in c.status)
    }

    /** Everything that holds while `running` is running, apart from what it is itself. */
    ghost predicate Rest(running: Coroutine?)
      reads this`ready, this`waiting, this`registered, this`spawned, this`live, live
    {
      && (forall c :: c in live && c != running ==> Sound(c) && (c in ready <==> !c.polling))
      && (forall c :: c in ready ==> c in live && c != running) && Distinct(ready)
      && (forall fd :: fd in waiting ==> waiting[fd] in live && waiting[fd].fd == fd)
      && registered == waiting.Keys && spawned == |live|
    }

    ghost predicate Invariant(running: Coroutine?)
      reads this`ready, this`waiting, this`registered, this`spawned, this`live, live
    {
      Rest(running) && (running != null ==> running in live && Sound(running))
    }

    /** Between two resumes. */
    ghost predicate Valid()
      reads this`ready, this`waiting, this`registered, this`spawned, this`live, this`current, live
    {
      Invariant(null) && current == null
    }

    /** The coroutine that was resumed last waits on a descriptor that another one waits on: the original asserts. */
    ghost predicate Aborted()
      reads this`resumed, this`waiting, resumed
    {
      resumed != [] && var c := resumed[|resumed| - 1]; c.fd in waiting && waiting[c.fd] != c
    }

    /** The waiting tree without the descriptor that `co` has waited on. */
    function WaitingWithout(co: Coroutine): map<int, Coroutine>
      reads this`waiting, co`polling, co`fd
    {
      if co.polling then waiting - {co.fd} else waiting
    }

    /** The state after the segment `s` of `co` that created `children`, from the state that is given before it. */
    ghost predicate RanFrom(others: map<int, Coroutine>, queued: seq<Coroutine>, queue: seq<Coroutine>,
                            co: Coroutine, s: Segment, children: seq<Coroutine>)
      reads this`waiting, this`enqueued, this`ready, co`script, children`script
    {
      && waiting == (if s.stop.Waiting? then others[s.stop.fd := co] else others)
      && enqueued == queued + children + (if s.stop.Queued? then [co] else [])
      && ready == queue + children + (if s.stop.Queued? then [co] else [])
      && co.script == s.left && Have(children, s.created)
    }

    /** What the segment `s` of `co` that created `children` has changed. */
    twostate predicate Ran(co: Coroutine, s: Segment, new children: seq<Coroutine>)
      reads this`waiting, this`enqueued, this`ready, co`script, children`script
    {
      && RanFrom(old(WaitingWithout(co)), old(enqueued), old(ready), co, s, children)
      && forall c :: c in children ==> fresh(c)
    }

    /** What a resume of `co` leaves alone. */
    twostate predicate Others(new co: Coroutine)
      reads this`waiting, this`enqueued, this`ready, this`live
    {
      && (forall fd :: fd in old(waiting) && old(waiting)[fd] != co ==>
        fd in waiting && waiting[fd] == old(waiting)[fd])
      && |enqueued| >= |old(enqueued)| && enqueued[..|old(enqueued)|] == old(enqueued)
      && ready == old(ready) + enqueued[|old(enqueued)|..]
      && (forall c :: c in live ==> c in old(live) || fresh(c))
    }

    twostate lemma OthersStay(co: Coroutine, new s: Segment, new children: seq<Coroutine>)
      requires old(Sound(co)) && Ran(co, s, children) && live <= old(live) + Members(children)
      requires s.stop.Waiting? ==> s.stop.fd !in old(WaitingWithout(co))
      ensures Others(co)
    {
    }

    ghost function WeightsOfLive(): map<Coroutine, nat>
      reads this`live, live`script
    {
      map c | c in live :: Weight(c.script)
    }

    /** What is left to do for all coroutines together. */
    ghost function Work(): nat
      reads this`live, live`script
    {
      Total(WeightsOfLive())
    }

    lemma NoWorkNoneLeft()
      ensures Work() == 0 ==> live == {}
    {
      if live != {} {
        var c :| c in live;
        TotalSplit(WeightsOfLive(), c);
      }
    }

    /** What a resume of `co` that created `children` has done to the weights. */
    twostate lemma WeightsAfter(co: Coroutine, new s: Segment, new children: seq<Coroutine>)
      requires co in old(live) && Ran(co, s, children) && Distinct(children)
      requires live == old(live) + Members(children) - if s.stop.Returned? then {co} else {}
      requires forall c :: c in old(live) && c != co ==> c.script == old(c.script)
      ensures Extends(WeightsOfLive() - {co}, old(WeightsOfLive()) - {co}, children, s.created)
      ensures co in old(WeightsOfLive()) && old(WeightsOfLive())[co] == Weight(old(co.script))
      ensures co in WeightsOfLive() <==> !s.stop.Returned?
      ensures co in WeightsOfLive() ==> WeightsOfLive()[co] == Weight(s.left)
    {
      hide Weight, SegmentOf, WaitingWithout;
    }

    /** A resume of `co` takes at least one off what is left to do. */
    twostate lemma WorkShrinks(co: Coroutine, new s: Segment, new children: seq<Coroutine>)
      requires co in old(live) && s == SegmentOf(old(co.script), old(co.ops)) && Ran(co, s, children)
        && Distinct(children)
      requires live == old(live) + Members(children) - if s.stop.Returned? then {co} else {}
      requires forall c :: c in old(live) && c != co ==> c.script == old(c.script)
      ensures Work() < old(Work())
    {
      hide Weight, SegmentOf, Extends, Ran, WeightsOfLive, Total, Members, Have, Distinct;
      WeightsAfter(co, s, children);
      TotalShrinks(old(WeightsOfLive()), WeightsOfLive(), co, old(co.script), old(co.ops), children);
    }

    /** nty_schedule_isdone, where no coroutine sleeps and none is busy: exactly when every coroutine was freed. */
    predicate IsDone()
      reads this
    {
      waiting == map[] && ready == []
    }

    lemma DoneMeansNoneLeft()
      requires Valid()
      ensures IsDone() <==> live == {}
      ensures IsDone() <==> spawned == 0
      ensures registered == {} ==> waiting == map[]
    {
      if registered == {} {
        assert forall fd :: fd !in waiting;
      }
      assert ready != [] ==> ready[0] in live;
      if live == {} {
        assert forall fd :: fd !in waiting;
        assert waiting == map[];
      }
    }

    lemma NewIsSound(co: Coroutine, running: Coroutine?)
      requires Invariant(running) && co !in live && co.status == {NEW} && !co.polling
      ensures Sound(co) && running != co && co !in ready && Distinct(ready)
    {
      assert forall fd :: fd in waiting ==> waiting[fd] in live;
      if co.fd in waiting {
        assert waiting[co.fd] in live;
      }
    }

    twostate lemma Grown(new co: Coroutine, running: Coroutine?)
      requires old(Invariant(running)) && co !in old(live) && live == old(live) + {co} && ready == old(ready) + [co]
      requires waiting == old(waiting) && registered == old(registered) && spawned == old(spawned) + 1
      requires forall c :: c in old(live) ==> unchanged(c)
      requires Sound(co) && !co.polling && running != co && Distinct(ready)
      ensures Invariant(running)
    {
      hide Sound, Distinct;
      assert forall c :: c in ready <==> c in old(ready) || c == co;
      assert |live| == |old(live)| + 1;
      assert forall c :: c in live && c != co ==> old(Sound(c)) && Sound(c);
    }

    /** nty_coroutine_create */
    method Spawn(script: seq<Action>, ghost running: Coroutine?) returns (co: Coroutine)
      requires Invariant(running)
      modifies this`spawned, this`ready, this`live, this`enqueued
      ensures Invariant(running)
      ensures fresh(co) && co.script == script
      ensures live == old(live) + {co} && ready == old(ready) + [co] && enqueued == old(enqueued) + [co]
    {
      hide Sound, Distinct, Rest;
      co := new Coroutine(script);
      NewIsSound(co, running);
      DistinctMore(ready, co);
      spawned := spawned + 1;
      ready := ready + [co];
      live, enqueued := live + {co}, enqueued + [co];
      Grown(co, running);
    }

    /** nty_coroutine_free */
    method Free(co: Coroutine)
      requires Rest(co) && co in live && !Waits(co)
      modifies this`spawned, this`live
      ensures Invariant(null) && live == old(live) - {co}
    {
      spawned := spawned - 1;
      live := live - {co};
    }

    /** TAILQ_INSERT_TAIL on the ready queue and the yield after it. */
    method Requeue(co: Coroutine)
      requires Invariant(co) && !co.polling
      modifies this`ready, this`enqueued, co`ops
      ensures Invariant(null) && ready == old(ready) + [co] && enqueued == old(enqueued) + [co] && co.ops == 0
    {
      ready, enqueued := ready + [co], enqueued + [co];
      co.ops := 0;
    }

    /** nty_schedule_sched_wait; `ok` is false where the original's assertion stops the program. */
    method SchedWait(co: Coroutine, fd: int, write: bool) returns (ok: bool)
      requires WAIT_READ !in co.status && WAIT_WRITE !in co.status
      modifies this`waiting, co`status, co`fd
      ensures co.fd == fd && ok == (fd !in old(waiting))
      ensures waiting == if ok then old(waiting)[fd := co] else old(waiting)
      ensures co.status == old(co.status) + if write then {0} else {}
    {
      // the constants themselves are or-ed in, not their bits: 0 for reading, 1 for writing
      if write {
        co.status := co.status + {WAIT_READ};
      }
      co.fd := fd;
      if fd in waiting {
        return false;
      }
      waiting := waiting[fd := co];
      ok := true;
    }

    /** nty_schedule_desched_wait */
    method DeschedWait(fd: int, ghost waiter: Coroutine) returns (co: Coroutine)
      requires fd in waiting && waiting[fd] == waiter
      modifies this`waiting, waiter`status
      ensures co == waiter && waiting == old(waiting) - {fd} && co.status == {}
    {
      co := waiting[fd];
      waiting := waiting - {fd};
      co.status := {};
    }

    /** nty_schedule_search_wait, which dereferences what it finds before its caller can check it. */
    method SearchWait(fd: int, ghost waiter: Coroutine) returns (co: Coroutine)
      requires fd in waiting && waiting[fd] == waiter
      modifies waiter`status
      ensures co == waiter && co.status == {}
    {
      co := waiting[fd];
      co.status := {};
    }

    lemma WaitsForNothing(co: Coroutine)
      requires Invariant(co) && !co.polling
      ensures WAIT_READ !in co.status && WAIT_WRITE !in co.status && EXITED !in co.status
      ensures forall fd :: fd in waiting ==> waiting[fd] != co
    {
    }

    /** With one descriptor more that only `co` waits on, everyone is still where they belong. */
    twostate lemma Watched(co: Coroutine, new fd: int)
      requires old(Invariant(co) && !co.polling && fd !in waiting)
      requires waiting == old(waiting)[fd := co] && registered == old(registered) + {fd} && co.fd == fd && co.polling
      requires live == old(live) && ready == old(ready) && spawned == old(spawned) && EXITED !in co.status
      requires forall c :: c in live && c != co ==> unchanged(c)
      ensures Invariant(null)
    {
      hide Distinct;
      assert waiting.Keys == old(waiting.Keys) + {fd};
      forall c | c in live
        ensures Sound(c)
      {
        if c != co {
          assert old(Sound(c));
        }
      }
    }

    /** The first half of nty_poll_inner; `ok` is false if another coroutine waits on the descriptor. */
    method StartPoll(co: Coroutine, fd: int, write: bool) returns (ok: bool)
      requires Invariant(co) && !co.polling
      modifies this`registered, this`waiting, co
      ensures ok <==> fd !in old(waiting)
      ensures ok ==>
        Invariant(null) && co.polling && co.ops == 0 && co.script == old(co.script) && waiting == old(waiting)[fd := co]
      ensures !ok ==> co.fd == fd && waiting == old(waiting) && waiting[fd] != co
    {
      hide Rest, Sound;
      WaitsForNothing(co);
      registered := registered + {fd};
      ok := SchedWait(co, fd, write);
      co.polling := true;
      co.ops := 0;
      if ok {
        Watched(co, fd);
      }
    }

    /** The second half of nty_poll_inner. */
    method FinishPoll(co: Coroutine)
      requires Invariant(co) && co.polling
      modifies this`registered, this`waiting, co
      ensures Invariant(co) && !co.polling && co.script == old(co.script) && co.ops == old(co.ops)
      ensures waiting == old(waiting) - {old(co.fd)}
    {
      registered := registered - {co.fd};
      var found := DeschedWait(co.fd, co);
      co.polling := false;
    }

    /** The running coroutine's next action. */
    method Next(co: Coroutine) returns (action: Action)
      requires Invariant(co) && !co.polling && co.script != []
      modifies co`script, co`ops
      ensures Invariant(co) && !co.polling && co.script == old(co.script)[1..] && action == old(co.script)[0]
      ensures co.ops == old(co.ops) + if action.Renice? then 1 else 0
    {
      action := co.script[0];
      co.script := co.script[1..];
      // nty_coroutine_renice counts before it looks
      if action.Renice? {
        co.ops := co.ops + 1;
      }
    }

    /** The running coroutine's function, to where it stops next or to its end. */
    method RunScript(co: Coroutine) returns (ok: bool, returned: bool, ghost children: seq<Coroutine>)
      requires Invariant(co) && !co.polling
      modifies this`ready, this`waiting, this`registered, this`spawned, this`live, this`enqueued, co
      ensures var s := SegmentOf(old(co.script), old(co.ops));
        && ok == !(s.stop.Waiting? && s.stop.fd in old(waiting))
        && (ok ==> Ran(co, s, children) && returned == s.stop.Returned?)
      ensures ok ==> live == old(live) + Members(children) && Invariant(if returned then co else null)
      ensures ok && returned ==> !co.polling
      ensures ok && !returned ==> co.ops == 0
      ensures !ok ==> co.fd in waiting && waiting[co.fd] != co
    {
      hide Rest, Sound, SegmentOf, Members, Have;
      ghost var whole, done := SegmentOf(co.script, co.ops), [];
      children := [];
      NoChildren();
      while co.script != []
        invariant Invariant(co) && !co.polling && waiting == old(waiting)
        invariant Continues(whole, done, SegmentOf(co.script, co.ops))
        invariant Have(children, done) && co !in children && (forall c :: c in children ==> fresh(c))
        invariant enqueued == old(enqueued) + children && ready == old(ready) + children
        invariant live == old(live) + Members(children)
        decreases |co.script|
      {
        SegmentStep(whole, done, co.script, co.ops);
        var action := Next(co);
        match action
        case Poll(fd, write) =>
          ok := StartPoll(co, fd, write);
          return ok, false, children;
        case SleepZero =>
          Requeue(co);
          return true, false, children;
        case Renice =>
          if co.ops >= 5 {
            Requeue(co);
            return true, false, children;
          }
        case Create(script) =>
          var child := Spawn(script, co);
          OneChildMore(children, done, child);
          children, done := children + [child], done + [script];
      }
      SegmentEnd(whole, done, co.ops);
      return true, true, children;
    }

    /**
     * The running coroutine, from where it was stopped to where it stops next or to the end of its function.
     * `ok` is false exactly if it polls a descriptor that another coroutine waits on.
     */
    method Proceed(co: Coroutine) returns (ok: bool, returned: bool, ghost children: seq<Coroutine>)
      requires Invariant(co)
      modifies this`ready, this`waiting, this`registered, this`spawned, this`live, this`enqueued, co
      ensures var s := SegmentOf(old(co.script), old(co.ops));
        && ok == !(s.stop.Waiting? && s.stop.fd in old(WaitingWithout(co)))
        && (ok ==> Ran(co, s, children) && returned == s.stop.Returned?)
      ensures ok ==> live == old(live) + Members(children) && co in live && Invariant(if returned then co else null)
      ensures ok && returned ==> !co.polling
      ensures ok && !returned ==> co.ops == 0
      ensures !ok ==> co.fd in waiting && waiting[co.fd] != co
    {
      hide Rest, Sound, SegmentOf, Members, Have;
      if co.polling {
        FinishPoll(co);
      }
      ok, returned, children := RunScript(co);
    }

    /** What nty_coroutine_resume does before it switches to the coroutine. */
    method Enter(co: Coroutine)
      requires Invariant(co) && current == null
      modifies this`current, this`resumed, co`status
      ensures Invariant(co) && current == co && resumed == old(resumed) + [co]
    {
      if NEW in co.status {
        co.status := {READY};
      }
      current, resumed := co, resumed + [co];
    }

    /** What it does after the coroutine has switched back: one whose function has returned is freed. */
    method Leave(co: Coroutine, ghost returned: bool)
      requires Rest(if returned then co else null) && current == co && co in live
      requires if returned then !Waits(co) && EXITED in co.status && DETACH in co.status else Sound(co)
      modifies this`current, this`spawned, this`live
      ensures Valid() && live == if returned then old(live) - {co} else old(live)
    {
      current := null;
      if EXITED in co.status {
        if DETACH in co.status {
          Free(co);
        }
      }
    }

    /** The end of _exec. */
    method Exit(co: Coroutine)
      requires Invariant(co) && !co.polling
      modifies co`status, co`ops
      ensures Rest(co) && co in live && !Waits(co) && EXITED in co.status && DETACH in co.status && co.ops == 0
    {
      co.status := co.status + {EXITED, FDEOF, DETACH};
      co.ops := 0;
    }

    /** The steps of a resume, one after the other. */
    method SwitchTo(co: Coroutine) returns (ok: bool, ghost children: seq<Coroutine>)
      requires Invariant(co) && current == null
      modifies this, co
      ensures var s := SegmentOf(old(co.script), old(co.ops));
        && ok == !(s.stop.Waiting? && s.stop.fd in old(WaitingWithout(co)))
        && (ok ==>
          Ran(co, s, children) && live == old(live) + Members(children) - if s.stop.Returned? then {co} else {})
      ensures ok ==> Valid() && resumed == old(resumed) + [co] && co.ops == 0
      ensures asked == old(asked) && turns == old(turns)
      ensures !ok ==> Aborted()
    {
      hide Rest, Sound, SegmentOf, RanFrom, WaitingWithout, Members, Distinct;
      EachIsSound(co, co);
      Enter(co);
      var returned;
      ok, returned, children := Proceed(co);
      if !ok {
        return;
      }
      if returned {
        Exit(co);
      } else {
        EachIsSound(co, null);
      }
      Leave(co, returned);
    }

    /** nty_coroutine_resume: `ok` is false exactly if the coroutine polls a descriptor that another one waits on. */
    method Resume(co: Coroutine) returns (ok: bool, ghost children: seq<Coroutine>)
      requires Invariant(co) && current == null
      modifies this, co
      ensures var s := SegmentOf(old(co.script), old(co.ops));
        && ok == !(s.stop.Waiting? && s.stop.fd in old(WaitingWithout(co)))
        && (ok ==>
          Ran(co, s, children) && live == old(live) + Members(children) - if s.stop.Returned? then {co} else {})
      ensures ok ==> Valid() && Others(co) && resumed == old(resumed) + [co] && co.ops == 0 && Work() < old(Work())
      ensures asked == old(asked) && turns == old(turns)
      ensures !ok ==> Aborted()
    {
      hide Rest, Sound, SegmentOf, RanFrom, WaitingWithout, Members, Others, Work, Distinct, Aborted;
      ghost var s := SegmentOf(co.script, co.ops);
      EachIsSound(co, co);
      ok, children := SwitchTo(co);
      if ok {
        OthersStay(co, s, children);
        NewAreDistinct(co, s, children);
        WorkShrinks(co, s, children);
      }
    }

    lemma EachIsSound(c: Coroutine, running: Coroutine?)
      requires Invariant(running) && c in live
      ensures Sound(c)
    {
    }

    lemma QueueIsDistinct()
      requires Valid()
      ensures Distinct(ready)
    {
    }

    twostate lemma NewAreDistinct(co: Coroutine, new s: Segment, new children: seq<Coroutine>)
      requires Valid() && Ran(co, s, children)
      ensures Distinct(children)
    {
      QueueIsDistinct();
      DistinctPart(old(ready), children, if s.stop.Queued? then [co] else []);
    }

    /** TAILQ_FIRST and TAILQ_REMOVE on the ready queue. No coroutine in it has the end-of-file bit. */
    method Dequeue() returns (co: Coroutine)
      requires Valid() && ready != []
      modifies this`ready
      ensures Invariant(co) && FDEOF !in co.status && co == old(ready)[0] && ready == old(ready)[1..]
        && Work() == old(Work())
    {
      co := ready[0];
      ready := ready[1..];
    }

    /**
     * The loop over the ready queue. It resumes the coroutines that were queued when it began, each once and in
     * the order they queued up in; the ones that queue up meanwhile are what the queue holds afterwards.
     */
    method RunReady() returns (ok: bool)
      requires Valid()
      modifies this, live
      ensures ok ==> Valid() && resumed == old(resumed) + old(ready) && asked == old(asked) && turns == old(turns)
      ensures ok ==> |enqueued| >= |old(enqueued)| && ready == enqueued[|old(enqueued)|..]
      ensures ok ==> Work() + |old(ready)| <= old(Work())
      ensures old(ready) == [] ==> ok && unchanged(this)
      ensures ok ==> forall c :: c in live ==> c in old(live) || fresh(c)
      ensures !ok ==> Aborted()
    {
      hide Rest, Ran, Sound, SegmentOf, WaitingWithout, Work, Aborted;
      ghost var queue, k, n := ready, 0, |enqueued|;
      if ready == [] {
        return true;
      }
      var last := ready[|ready| - 1];
      QueueIsDistinct();
      while ready != []
        invariant Valid() && 0 <= k < |queue|
        invariant last == queue[|queue| - 1] && resumed == old(resumed) + queue[..k]
        invariant asked == old(asked) && turns == old(turns)
        invariant |enqueued| >= n == |old(enqueued)| && ready == queue[k..] + enqueued[n..]
        invariant old(ready) != [] && Work() + k <= old(Work())
        invariant forall c :: c in live ==> c in old(live) || fresh(c)
        decreases |queue| - k
      {
        var co := Dequeue();
        if FDEOF in co.status {
          // it would be freed here and the loop left, but no coroutine in the queue has this bit
          assert false;
        }
        ghost var before := enqueued;
        ghost var children;
        assert ready == queue[k + 1..] + before[n..];
        ok, children := Resume(co);
        if !ok {
          return;
        }
        QueuedLater(queue[k + 1..], before, enqueued, n);
        assert queue[..k + 1] == queue[..k] + [co];
        if co == last {
          assert k + 1 == |queue| && queue[..|queue|] == queue;
          break;
        }
        k := k + 1;
      }
    }

    /** The poller watches exactly the descriptors that some coroutine waits on. */
    lemma EachIsWaitedFor()
      requires Valid()
      ensures forall fd :: fd in registered <==> fd in waiting
      ensures forall fd :: fd in waiting ==> waiting[fd] in live
    {
    }

    /** The lookup for one event. It never comes back empty: the poller reports only descriptors someone waits on. */
    method Wake(event: Event, ghost waiter: Coroutine) returns (co: Coroutine)
      requires Valid() && event.fd in registered && (event.fd in waiting ==> waiting[event.fd] == waiter)
      modifies waiter`status
      ensures Invariant(co) && event.fd in waiting && co == waiter && (FDEOF in co.status <==> event.hangUp)
      ensures forall fd :: fd in waiting && fd != event.fd ==> waiting[fd] != co
      ensures Work() == old(Work())
    {
      co := SearchWait(event.fd, waiter);
      if event.hangUp {
        co.status := co.status + {FDEOF};
      }
    }

    /**
     * The loop over the events, from the last to the first. However the resumed coroutines register again, every
     * event resumes exactly the coroutine that waited on its descriptor when the poller answered.
     */
    method RunEvents(events: seq<Event>) returns (ok: bool)
      requires Valid() && EventsOf(events, registered)
      modifies this, live
      ensures ok ==> Valid() && |resumed| == |old(resumed)| + |events| && resumed[..|old(resumed)|] == old(resumed)
      ensures ok ==> forall i :: 0 <= i < |events| ==>
        events[i].fd in old(waiting) && resumed[|resumed| - 1 - i] == old(waiting)[events[i].fd]
      ensures ok ==> Work() + |events| <= old(Work()) && asked == old(asked) && turns == old(turns)
      ensures events == [] ==> ok && unchanged(this)
      ensures ok ==> forall c :: c in live ==> c in old(live) || fresh(c)
      ensures !ok ==> Aborted()
    {
      hide Rest, Sound, Ran, SegmentOf, WaitingWithout, Work, Aborted;
      EachIsWaitedFor();
      var n := |events|;
      ok := true;
      while n != 0
        invariant ok && 0 <= n <= |events| && Valid() && Work() + |events| - n <= old(Work())
        invariant asked == old(asked) && turns == old(turns) && (events == [] ==> unchanged(this))
        invariant |resumed| == |old(resumed)| + |events| - n && resumed[..|old(resumed)|] == old(resumed)
        invariant forall i :: 0 <= i < |events| ==> events[i].fd in old(waiting)
        invariant forall i :: n <= i < |events| ==>
          resumed[|old(resumed)| + |events| - 1 - i] == old(waiting)[events[i].fd]
        invariant forall i :: 0 <= i < n ==>
          events[i].fd in waiting && waiting[events[i].fd] == old(waiting)[events[i].fd]
        invariant forall c :: c in live ==> c in old(live) || fresh(c)
      {
        n := n - 1;
        EachIsWaitedFor();
        var co := Wake(events[n], waiting[events[n].fd]);
        ghost var children;
        ok, children := Resume(co);
        if !ok {
          return;
        }
      }
    }

    /** nty_schedule_epoll, where no coroutine sleeps and none is ready. */
    method Epoll(poller: set<int> -> seq<Event>) returns (events: seq<Event>)
      modifies this`asked
      ensures events == poller(registered)
      ensures asked == old(asked) + [Question(ready, waiting, registered, |resumed|, turns)]
    {
      asked := asked + [Question(ready, waiting, registered, |resumed|, turns)];
      events := poller(registered);
    }

    /**
     * One turn of the loop in nty_schedule_run, where no coroutine sleeps, so nothing has expired. All who are ready
     * are resumed. The poller is asked behind that, once, exactly if none has queued up meanwhile; then the coroutines
     * that wait on the descriptors it reports are resumed, from the last event to the first.
     */
    method Turn(poller: set<int> -> seq<Event>) returns (ok: bool)
      requires Valid() && Answers(poller)
      modifies this, live
      ensures ok ==> Valid() && forall c :: c in live ==> c in old(live) || fresh(c)
      ensures ok ==> old(resumed) + old(ready) <= resumed && |resumed| - |old(resumed)| + Work() <= old(Work())
      ensures ok && asked == old(asked) ==>
        && resumed == old(resumed) + old(ready) && ready != []
        && |enqueued| >= |old(enqueued)| && ready == enqueued[|old(enqueued)|..]
      ensures ok && asked != old(asked) ==>
        && |asked| == |old(asked)| + 1 && asked[..|old(asked)|] == old(asked)
        && var q := asked[|old(asked)|];
        && q.turn == old(turns) && q.resumes == |old(resumed)| + |old(ready)|
        && Answered(q, poller, resumed) && |resumed| == q.resumes + |poller(q.registered)|
      ensures ok && |resumed| == |old(resumed)| + |old(ready)| ==> ready != [] || poller(registered) == []
      ensures ok && Responds(poller) && old(live) != {} ==> |resumed| > |old(resumed)|
      ensures ok ==> turns == old(turns) + 1
      ensures !ok ==> Aborted()
    {
      hide Rest, Work, Aborted, EventsOf, Distinct;
      DoneMeansNoneLeft();
      EachIsWaitedFor();
      ok := RunReady();
      if !ok {
        return;
      }
      if ready == [] {
        var events := Epoll(poller);
        ok := RunEvents(events);
      }
      turns := turns + 1;
    }

    /**
     * nty_schedule_run, cut off after as many turns as there are answers of the poller. Unless two coroutines wait on
     * one descriptor, it keeps the invariant and ends by itself exactly when every coroutine has exited and been freed.
     * Each question to the poller gets the answer of its turn, and the coroutines that were waiting for what it reports
     * are resumed next. It resumes no more often than there is work, and gets to its end in at most as many turns, if
     * the poller never answers with no event at all.
     */
    method Run(pollers: seq<set<int> -> seq<Event>>) returns (ok: bool, done: bool)
      requires Valid() && forall i :: 0 <= i < |pollers| ==> Answers(pollers[i])
      modifies this, live
      ensures ok ==> Valid() && (done <==> live == {}) && (done <==> spawned == 0)
      ensures ok ==> turns <= old(turns) + |pollers| && (!done ==> turns == old(turns) + |pollers|)
      ensures ok ==> old(asked) <= asked && AllAnswered(asked[|old(asked)|..], pollers, old(turns), resumed)
      ensures ok ==> old(resumed) <= resumed && |resumed| - |old(resumed)| + Work() <= old(Work())
      ensures ok && (forall i :: 0 <= i < |pollers| ==> Responds(pollers[i])) && |pollers| >= old(Work()) ==> done
      ensures !ok ==> Aborted()
    {
      hide Rest, WeightsOfLive, Total, Answered, AllAnswered;
      var t := 0;
      ok := true;
      DoneMeansNoneLeft();
      NoneAsked(pollers, turns, resumed);
      assert asked[|asked|..] == [];
      while t < |pollers| && !IsDone()
        invariant t <= |pollers| && Valid() && ok && forall c :: c in live ==> c in old(live) || fresh(c)
        invariant IsDone() <==> live == {}
        invariant turns == old(turns) + t
        invariant old(asked) <= asked && AllAnswered(asked[|old(asked)|..], pollers, old(turns), resumed)
        invariant old(resumed) <= resumed && |resumed| - |old(resumed)| + Work() <= old(Work())
        invariant (forall i :: 0 <= i < t ==> Responds(pollers[i])) ==> t <= |resumed| - |old(resumed)|
      {
        ghost var questions, before := asked, resumed;
        ok := Turn(pollers[t]);
        if !ok {
          return ok, false;
        }
        MoreAnswered(questions, asked, |old(asked)|, pollers, old(turns), before, resumed);
        DoneMeansNoneLeft();
        t := t + 1;
      }
      DoneMeansNoneLeft();
      NoWorkNoneLeft();
      done := IsDone();
    }
  }

  /** The poller was asked with no one ready, and whoever waited on what it reported was resumed next, from the last. */
  ghost predicate Answered(q: Question, poller: set<int> -> seq<Event>, resumed: seq<Coroutine>) {
    var events := poller(q.registered);
    && q.queue == [] && q.resumes + |events| <= |resumed|
    && forall i :: 0 <= i < |events| ==>
      events[i].fd in q.waiting && resumed[q.resumes + |events| - 1 - i] == q.waiting[events[i].fd]
  }

  /** Each of the questions, in turns from `n` on, got the answer of its turn. */
  ghost predicate AllAnswered(questions: seq<Question>, pollers: seq<set<int> -> seq<Event>>, n: nat,
                              resumed: seq<Coroutine>)
  {
    forall j :: 0 <= j < |questions| ==>
      n <= questions[j].turn < n + |pollers| && Answered(questions[j], pollers[questions[j].turn - n], resumed)
  }

  lemma NoneAsked(pollers: seq<set<int> -> seq<Event>>, n: nat, resumed: seq<Coroutine>)
    ensures AllAnswered([], pollers, n, resumed)
  {
  }

  lemma StaysAnswered(q: Question, poller: set<int> -> seq<Event>, resumed: seq<Coroutine>, more: seq<Coroutine>)
    requires Answered(q, poller, resumed) && resumed <= more
    ensures Answered(q, poller, more)
  {
  }

  /** A turn answers one question more, or none. */
  lemma MoreAnswered(before: seq<Question>, after: seq<Question>, n: nat, pollers: seq<set<int> -> seq<Event>>, t: nat,
                     resumed: seq<Coroutine>, more: seq<Coroutine>)
    requires n <= |before| && AllAnswered(before[n..], pollers, t, resumed) && resumed <= more
    requires after == before || (|after| == |before| + 1 && after[..|before|] == before)
    requires after != before ==>
      var q := after[|before|]; t <= q.turn < t + |pollers| && Answered(q, pollers[q.turn - t], more)
    ensures AllAnswered(after[n..], pollers, t, more)
  {
    hide Answered;
    forall j | 0 <= j < |after[n..]|
      ensures var q := after[n..][j]; t <= q.turn < t + |pollers| && Answered(q, pollers[q.turn - t], more)
    {
      if n + j < |before| {
        var q := before[n..][j];
        assert after[n..][j] == after[n + j] == before[n + j] == q;
        StaysAnswered(q, pollers[q.turn - t], resumed, more);
      }
    }
  }

  /** The poller reports something whenever it watches something. */
  ghost predicate Responds(poller: set<int> -> seq<Event>) {
    forall registered :: registered != {} ==> poller(registered) != []
  }

  ghost predicate Answers(poller: set<int> -> seq<Event>) {
    forall registered :: EventsOf(poller(registered), registered)
  }

  /** What a poller may answer: each descriptor at most once, and only registered ones. */
  ghost predicate EventsOf(events: seq<Event>, registered: set<int>) {
    && (forall i :: 0 <= i < |events| ==> events[i].fd in registered)
    && forall i, j :: 0 <= i < j < |events| ==> events[i].fd != events[j].fd
  }
}
