/** Process scheduling: any number of schedulers that run, spawn, steal and reap processes.
    Each critical section and each atomic operation is one step; runs interleave them freely. */
module Scheduling {
  import opened Pids
  import opened Kernel

  // ---------------------------------------------------------------- giving up processes

  /** How many processes a scheduler with `n` of them looks at when asked to give some up. */
  function GiveUpLimit(n: nat): (l: nat)
    requires n >= 2
    ensures 1 <= l < n
    ensures 141 * (n - l) <= 100 * n < 141 * (n - l + 1)
  {
    n - n * 100 / 141
  }

  function Select(q: seq<Pid>, pinned: set<Pid>, keep: bool): (r: seq<Pid>) {
    if q == [] then []
    else Select(q[..|q| - 1], pinned, keep) + if (q[|q| - 1] in pinned) == keep then [q[|q| - 1]] else []
  }

  function Given(q: seq<Pid>, pinned: set<Pid>): (r: seq<Pid>) {
    if |q| <= 1 then [] else Select(q[..GiveUpLimit(|q|)], pinned, false)
  }

  /** Pinned processes among those looked at go to the end of the queue. */
  function Left(q: seq<Pid>, pinned: set<Pid>): (r: seq<Pid>) {
    if |q| <= 1 then q else q[GiveUpLimit(|q|)..] + Select(q[..GiveUpLimit(|q|)], pinned, true)
  }

  lemma {:induction false} Regroup<T>(a: multiset<T>, b: multiset<T>, c: multiset<T>)
    ensures (a + b) + c == (a + c) + b && (a + b) + c == a + (b + c)
  {
  }

  lemma {:induction false} SelectPartitions(q: seq<Pid>, pinned: set<Pid>)
    ensures multiset(Select(q, pinned, false)) + multiset(Select(q, pinned, true)) == multiset(q)
    ensures forall p :: p in Select(q, pinned, false) ==> p !in pinned
  {
    if q != [] {
      var before, last := q[..|q| - 1], q[|q| - 1];
      SelectPartitions(before, pinned);
      var f, t := Select(before, pinned, false), Select(before, pinned, true);
      assert q == before + [last];
      assert multiset(q) == multiset(before) + multiset{last};
      Regroup(multiset(f), multiset(t), multiset{last});
      if last in pinned {
        assert Select(q, pinned, false) == f && Select(q, pinned, true) == t + [last];
      } else {
        assert Select(q, pinned, false) == f + [last] && Select(q, pinned, true) == t;
      }
    }
  }

  /** Giving up partitions the queue, never empties it, and never parts with a pinned process. */
  lemma {:induction false} GivingUp(q: seq<Pid>, pinned: set<Pid>)
    ensures multiset(Given(q, pinned)) + multiset(Left(q, pinned)) == multiset(q)
    ensures q != [] ==> Left(q, pinned) != [] && |Given(q, pinned)| < |q|
    ensures forall p :: p in Given(q, pinned) ==> p !in pinned
  {
    hide Select;
    if |q| > 1 {
      var l := GiveUpLimit(|q|);
      hide GiveUpLimit;
      SelectPartitions(q[..l], pinned);
      var g, t := Select(q[..l], pinned, false), Select(q[..l], pinned, true);
      MovedToTheEnd(q, l, g, t);
      Sizes(g, q[l..] + t, q);
    }
  }

  lemma {:induction false} MovedToTheEnd<T>(q: seq<T>, l: nat, g: seq<T>, t: seq<T>)
    requires l <= |q| && multiset(g) + multiset(t) == multiset(q[..l])
    ensures multiset(g) + multiset(q[l..] + t) == multiset(q)
  {
    assert q == q[..l] + q[l..];
    assert multiset(q) == multiset(q[..l]) + multiset(q[l..]);
    assert multiset(q[l..] + t) == multiset(q[l..]) + multiset(t);
    Regroup(multiset(g), multiset(t), multiset(q[l..]));
    Regroup(multiset(g), multiset(q[l..]), multiset(t));
  }

  lemma {:induction false} Sizes<T>(a: seq<T>, b: seq<T>, c: seq<T>)
    requires multiset(a) + multiset(b) == multiset(c)
    ensures |a| + |b| == |c|
  {
    assert |multiset(a) + multiset(b)| == |a| + |b|;
    assert |multiset(c)| == |c|;
  }

  ghost predicate Before(s: seq<Pid>, x: Pid, y: Pid) {
    exists i, j :: 0 <= i < j < |s| && s[i] == x && s[j] == y
  }

  lemma {:induction false} BeforeWithin(a: seq<Pid>, b: seq<Pid>, c: seq<Pid>, x: Pid, y: Pid)
    requires Before(b, x, y)
    ensures Before(a + b + c, x, y)
  {
    var i, j :| 0 <= i < j < |b| && b[i] == x && b[j] == y;
    var all := a + b + c;
    assert all[|a| + i] == x && all[|a| + j] == y;
  }

  lemma {:induction false} BeforeAcross(a: seq<Pid>, b: seq<Pid>, x: Pid, y: Pid)
    requires x in a && y in b
    ensures Before(a + b, x, y)
  {
    var i, j :| 0 <= i < |a| && a[i] == x && 0 <= j < |b| && b[j] == y;
    assert (a + b)[i] == x && (a + b)[|a| + j] == y;
  }

  lemma {:induction false} Selected(q: seq<Pid>, pinned: set<Pid>, keep: bool, i: nat)
    requires i < |q| && (q[i] in pinned) == keep
    ensures q[i] in Select(q, pinned, keep)
  {
    if i < |q| - 1 {
      Selected(q[..|q| - 1], pinned, keep, i);
    }
  }

  lemma {:induction false} SelectedInOrder(q: seq<Pid>, pinned: set<Pid>, keep: bool, i: nat, j: nat)
    requires i < j < |q| && (q[i] in pinned) == keep && (q[j] in pinned) == keep
    ensures Before(Select(q, pinned, keep), q[i], q[j])
  {
    hide Before;
    var n := |q| - 1;
    var before := Select(q[..n], pinned, keep);
    if j == n {
      Selected(q[..n], pinned, keep, i);
      BeforeAcross(before, [q[n]], q[i], q[j]);
    } else {
      SelectedInOrder(q[..n], pinned, keep, i, j);
      var last := if (q[n] in pinned) == keep then [q[n]] else [];
      BeforeWithin([], before, last, q[i], q[j]);
      assert [] + before + last == Select(q, pinned, keep);
    }
  }

  /** Of those looked at, the ones not pinned are given up, in their order; the others stay, in theirs, behind those
      not looked at. */
  lemma {:induction false} GivingUpInOrder(q: seq<Pid>, pinned: set<Pid>, i: nat, j: nat)
    requires i < j < |q|
    ensures var l, given, left := GiveUpLimit(|q|), Given(q, pinned), Left(q, pinned);
            && (q[i] in given + left)
            && (i < l && q[i] !in pinned ==> q[i] in given)
            && (j < l && q[i] !in pinned && q[j] !in pinned ==> Before(given, q[i], q[j]))
            && (j < l && q[i] in pinned && q[j] in pinned ==> Before(left, q[i], q[j]))
            && (i >= l ==> Before(left, q[i], q[j]))
            && (i < l <= j && q[i] in pinned ==> Before(left, q[j], q[i]))
  {
    var l := GiveUpLimit(|q|);
    var looked, rest, saved := q[..l], q[l..], Select(q[..l], pinned, true);
    assert Left(q, pinned) == rest + saved == [] + rest + saved == rest + saved + [];
    hide Select, GiveUpLimit, Before;
    if i >= l {
      InOrder(rest, i - l, j - l);
      BeforeWithin([], rest, saved, q[i], q[j]);
      assert q[i] == rest[i - l];
    } else {
      Selected(looked, pinned, q[i] in pinned, i);
      if j >= l && q[i] in pinned {
        assert q[j] == rest[j - l];
        BeforeAcross(rest, saved, q[j], q[i]);
      }
      if j < l && (q[i] in pinned) == (q[j] in pinned) {
        SelectedInOrder(looked, pinned, q[i] in pinned, i, j);
        if q[i] in pinned {
          BeforeWithin(rest, saved, [], q[i], q[j]);
        }
      }
    }
  }

  lemma {:induction false} InOrder(s: seq<Pid>, i: nat, j: nat)
    requires i < j < |s|
    ensures Before(s, s[i], s[j])
  {
  }

  /** The queue of one scheduler.  `pinned` stands for the flag each process carries. */
  class ProcessScheduler {
    var processQueue: seq<Pid>

    constructor ()
      ensures processQueue == []
    {
      processQueue := [];
    }

    method Push(p: Pid)
      modifies this
      ensures processQueue == old(processQueue) + [p]
    {
      processQueue := processQueue + [p];
    }

    method Pop() returns (p: Pid)
      requires processQueue != []
      modifies this
      ensures old(processQueue) == [p] + processQueue
    {
      p := processQueue[0];
      processQueue := processQueue[1..];
    }

    method GiveUpProcesses(pinned: set<Pid>) returns (givenUp: seq<Pid>)
      modifies this
      ensures givenUp == Given(old(processQueue), pinned)
      ensures processQueue == Left(old(processQueue), pinned)
    {
      if |processQueue| == 0 || |processQueue| == 1 {
        return [];
      }
      var limit := GiveUpLimit(|processQueue|);
      ghost var queue := processQueue;
      givenUp := [];
      var saved: seq<Pid> := [];
      for i := 0 to limit
        invariant processQueue == queue[i..]
        invariant givenUp == Select(queue[..i], pinned, false)
        invariant saved == Select(queue[..i], pinned, true)
      {
        var p := processQueue[0];
        processQueue := processQueue[1..];
        assert queue[..i + 1][..i] == queue[..i];
        if p in pinned {
          saved := saved + [p];
        } else {
          givenUp := givenUp + [p];
        }
      }
      for i := 0 to |saved|
        invariant processQueue == queue[limit..] + saved[..i]
      {
        processQueue := processQueue + [saved[i]];
      }
      assert saved[..|saved|] == saved;
    }
  }

  // ---------------------------------------------------------------- the protocol

  /** A spawn in flight: the mailbox exists; the process is queued; the spawn is announced. */
  datatype Stage = Boxed | Pushed | Listed

  /** Where the loop of one scheduler is. */
  datatype Pc =
    | Top                                      // about to look at its queue
    | Pop                                      // has seen that the queue is not empty
    | Steal                                    // has seen that it is
    | Stolen(batch: seq<Pid>)                  // holds what it has stolen
    | Count                                    // about to read the counter
    | Run(p: Pid)                              // runs a process
    | Spawn(p: Pid, q: Pid, stage: Stage)      // process p is spawning q
    | Dying                                    // has deleted a mailbox, and not yet told so
    | Done                                     // has shut down

  /** `home` is the scheduler a process was spawned on; a stolen process still spawns there. */
  datatype State = State(boxes: map<Pid, seq<Value>>, home: map<Pid, nat>, main: Pid,
                         queues: seq<seq<Pid>>, pcs: seq<Pc>, spawnedBy: seq<nat>, running: int)

  datatype Step =
    | SeeEmpty(k: nat)
    | SeeWork(k: nat)
    | TakeFirst(k: nat)
    | StealNothing(k: nat)
    | StealFrom(k: nat)
    | EnqueueStolen(k: nat)
    | ReadCount(k: nat)
    | Requeue(k: nat)
    | SpawnCreate(k: nat, q: Pid)
    | SpawnPush(k: nat)
    | SpawnList(k: nat)
    | SpawnCount(k: nat)
    | ReapMailbox(k: nat)
    | ReapCount(k: nat, ticked: bool)
    | SendMessage(k: nat, receiver: Pid, message: Value)
    | ReceiveMessages(k: nat)

  /** The first spawn and its bookkeeping are over before any scheduler is launched. */
  function Launched(n: nat, main: Pid): (s: State)
    requires n >= 1
  {
    State(map[main := []], map[main := 0], main, [[main]] + seq(n - 1, _ => []), seq(n, _ => Top), [0], 2)
  }

  predicate Shape(s: State) {
    && |s.queues| == |s.pcs| >= 1
    && (forall p :: p in s.home ==> s.home[p] < |s.pcs|)
    && (forall i :: 0 <= i < |s.spawnedBy| ==> s.spawnedBy[i] < |s.pcs|)
    && s.boxes.Keys <= s.home.Keys
    && s.main in s.home && s.home[s.main] == 0
  }

  /** When a step can happen. */
  predicate Enabled(s: State, step: Step)
    requires Shape(s)
  {
    step.k < |s.pcs| &&
    var pc, queue := s.pcs[step.k], s.queues[step.k];
    match step
    case SeeEmpty(_) => pc == Top && queue == []
    case SeeWork(_) => pc == Top && queue != []
    case TakeFirst(_) => pc == Pop
    case StealNothing(_) => pc == Steal && s.spawnedBy == []
    case StealFrom(_) => pc == Steal && s.spawnedBy != []
    case EnqueueStolen(_) => pc.Stolen?
    case ReadCount(_) => pc == Count
    case Requeue(_) => pc.Run?
    case SpawnCreate(_, q) => pc.Run? && pc.p in s.home && q !in s.home
    case SpawnPush(_) => pc.Spawn? && pc.stage == Boxed && pc.p in s.home
    case SpawnList(_) => pc.Spawn? && pc.stage == Pushed && pc.p in s.home
    case SpawnCount(_) => pc.Spawn? && pc.stage == Listed
    case ReapMailbox(_) => pc.Run?
    case ReapCount(_, _) => pc == Dying
    case SendMessage(_, _, _) => pc.Run?
    case ReceiveMessages(_) => pc.Run?
  }

  /** What a step does.  Popping an empty queue would be undefined; the state is then left alone,
      and NeverPopsEmpty shows that this does not happen. */
  function Apply(s: State, step: Step): (r: State)
    requires Shape(s) && Enabled(s, step)
  {
    var k := step.k;
    var pc, queue := s.pcs[k], s.queues[k];
    match step
    case SeeEmpty(_) => s.(pcs := s.pcs[k := Steal])
    case SeeWork(_) => s.(pcs := s.pcs[k := Pop])
    case TakeFirst(_) =>
      if queue == [] then s else s.(queues := s.queues[k := queue[1..]], pcs := s.pcs[k := Run(queue[0])])
    case StealNothing(_) => s.(pcs := s.pcs[k := Count])
    case StealFrom(_) =>
      var victim := s.spawnedBy[0];
      var given := Given(s.queues[victim], {s.main});
      s.(spawnedBy := s.spawnedBy[1..],
         queues := s.queues[victim := Left(s.queues[victim], {s.main})],
         pcs := s.pcs[k := if given == [] then Count else Stolen(given)])
    case EnqueueStolen(_) => s.(queues := s.queues[k := queue + pc.batch], pcs := s.pcs[k := Top])
    case ReadCount(_) => s.(pcs := s.pcs[k := if s.running == 0 then Done else Top])
    case Requeue(_) => s.(queues := s.queues[k := queue + [pc.p]], pcs := s.pcs[k := Top])
    case SpawnCreate(_, q) =>
      s.(boxes := Created(s.boxes, q), home := s.home[q := s.home[pc.p]], running := s.running + 1,
         pcs := s.pcs[k := Spawn(pc.p, q, Boxed)])
    case SpawnPush(_) =>
      var h := s.home[pc.p];
      s.(queues := s.queues[h := s.queues[h] + [pc.q]], pcs := s.pcs[k := Spawn(pc.p, pc.q, Pushed)])
    case SpawnList(_) =>
      s.(spawnedBy := s.spawnedBy + [s.home[pc.p]], pcs := s.pcs[k := Spawn(pc.p, pc.q, Listed)])
    case SpawnCount(_) => s.(running := s.running + 1, pcs := s.pcs[k := Run(pc.p)])
    case ReapMailbox(_) =>
      s.(boxes := s.boxes - {pc.p}, running := s.running - 1, pcs := s.pcs[k := Dying])
    case ReapCount(_, ticked) =>
      s.(running := s.running - 1, pcs := s.pcs[k := if ticked then Top else Count])
    case SendMessage(_, receiver, message) => s.(boxes := Sent(s.boxes, receiver, message))
    case ReceiveMessages(_) => if pc.p in s.boxes then s.(boxes := s.boxes[pc.p := []]) else s
  }

  // ---------------------------------------------------------------- who holds what

  /** The processes a loop has taken out of the queues. */
  function Held(pc: Pc): (m: multiset<Pid>) {
    match pc
    case Run(p) => multiset{p}
    case Spawn(p, q, stage) => if stage == Boxed then multiset{p, q} else multiset{p}
    case Stolen(batch) => multiset(batch)
    case _ => multiset{}
  }

  function InLoops(pcs: seq<Pc>): (m: multiset<Pid>) {
    if pcs == [] then multiset{} else InLoops(pcs[..|pcs| - 1]) + Held(pcs[|pcs| - 1])
  }

  function InQueues(queues: seq<seq<Pid>>): (m: multiset<Pid>) {
    if queues == [] then multiset{} else InQueues(queues[..|queues| - 1]) + multiset(queues[|queues| - 1])
  }

  function Spawns(pcs: seq<Pc>): (n: nat) {
    if pcs == [] then 0 else Spawns(pcs[..|pcs| - 1]) + if pcs[|pcs| - 1].Spawn? then 1 else 0
  }

  function Deaths(pcs: seq<Pc>): (n: nat) {
    if pcs == [] then 0 else Deaths(pcs[..|pcs| - 1]) + if pcs[|pcs| - 1].Dying? then 1 else 0
  }

  lemma {:induction false} LoopsUpdate(pcs: seq<Pc>, k: nat, pc: Pc)
    requires k < |pcs|
    ensures InLoops(pcs[k := pc]) + Held(pcs[k]) == InLoops(pcs) + Held(pc)
    ensures Spawns(pcs[k := pc]) + (if pcs[k].Spawn? then 1 else 0) == Spawns(pcs) + if pc.Spawn? then 1 else 0
    ensures Deaths(pcs[k := pc]) + (if pcs[k].Dying? then 1 else 0) == Deaths(pcs) + if pc.Dying? then 1 else 0
  {
    hide Held;
    var n := |pcs| - 1;
    var m := InLoops(pcs[..n]);
    if k == n {
      assert pcs[k := pc][..n] == pcs[..n];
      Regroup(m, Held(pc), Held(pcs[k]));
    } else {
      LoopsUpdate(pcs[..n], k, pc);
      assert pcs[k := pc][..n] == pcs[..n][k := pc];
      Regroup(InLoops(pcs[..n][k := pc]), Held(pcs[n]), Held(pcs[k]));
      Regroup(m, Held(pc), Held(pcs[n]));
    }
  }

  lemma {:induction false} QueuesUpdate(queues: seq<seq<Pid>>, k: nat, queue: seq<Pid>)
    requires k < |queues|
    ensures InQueues(queues[k := queue]) + multiset(queues[k]) == InQueues(queues) + multiset(queue)
  {
    var n := |queues| - 1;
    var m := InQueues(queues[..n]);
    if k == n {
      assert queues[k := queue][..n] == queues[..n];
      Regroup(m, multiset(queue), multiset(queues[k]));
    } else {
      QueuesUpdate(queues[..n], k, queue);
      assert queues[k := queue][..n] == queues[..n][k := queue];
      Regroup(InQueues(queues[..n][k := queue]), multiset(queues[n]), multiset(queues[k]));
      Regroup(m, multiset(queue), multiset(queues[n]));
    }
  }

  /** Every spawn in flight has its own running spawner. */
  lemma {:induction false} SpawnersAreHeld(pcs: seq<Pc>)
    ensures Spawns(pcs) <= |InLoops(pcs)|
  {
    if pcs != [] {
      SpawnersAreHeld(pcs[..|pcs| - 1]);
    }
  }

  lemma {:induction false} HeldByLoop(pcs: seq<Pc>, k: nat)
    requires k < |pcs|
    ensures Held(pcs[k]) <= InLoops(pcs)
  {
    hide Held;
    var n := |pcs| - 1;
    if k < n {
      HeldByLoop(pcs[..n], k);
    }
  }

  lemma {:induction false} WaitsInQueue(queues: seq<seq<Pid>>, k: nat)
    requires k < |queues|
    ensures multiset(queues[k]) <= InQueues(queues)
  {
    var n := |queues| - 1;
    if k < n {
      WaitsInQueue(queues[..n], k);
    }
  }

  // ---------------------------------------------------------------- the invariant

  /** Each live process, one that has a mailbox, is in exactly one queue, loop or stolen batch. */
  ghost predicate Owned(s: State) {
    InQueues(s.queues) + InLoops(s.pcs) == multiset(s.boxes.Keys)
  }

  ghost predicate Counted(s: State) {
    s.running == 2 * |s.boxes| - Spawns(s.pcs) + Deaths(s.pcs)
  }

  /** A loop about to pop has something to pop, and a stolen batch is not empty. */
  ghost predicate PopsWork(s: State)
    requires Shape(s)
  {
    forall k :: 0 <= k < |s.pcs| ==> (s.pcs[k].Pop? ==> s.queues[k] != []) && (s.pcs[k].Stolen? ==> s.pcs[k].batch != [])
  }

  /** What the place of loop `k` may hold, given that the main process stays on scheduler 0. */
  predicate Away(main: Pid, k: nat, pc: Pc) {
    && (k != 0 ==> main !in Held(pc))
    && (pc.Stolen? ==> main !in pc.batch)
    && (pc.Spawn? ==> pc.q != main)
  }

  /** The main process is on its own scheduler, and in no stolen batch. */
  ghost predicate MainStays(s: State)
    requires Shape(s)
  {
    && (forall k :: 0 < k < |s.queues| ==> s.main !in s.queues[k])
    && (forall k :: 0 <= k < |s.pcs| ==> Away(s.main, k, s.pcs[k]))
  }

  ghost predicate DoneMeansOver(s: State) {
    Done in s.pcs ==> s.boxes == map[]
  }

  ghost predicate Inv(s: State) {
    Shape(s) && Owned(s) && Counted(s) && PopsWork(s) && MainStays(s) && DoneMeansOver(s)
  }

  /** Counting the running processes: reading zero means that no process is alive anywhere and
      that no spawn or death is still to be counted; and the counter never underflows. */
  lemma {:induction false} ZeroMeansOver(s: State)
    requires Inv(s)
    ensures s.running >= |s.boxes| + Deaths(s.pcs)
    ensures Spawns(s.pcs) <= |s.boxes|
    ensures s.running == 0 <==> s.boxes == map[] && Deaths(s.pcs) == 0
    ensures s.boxes == map[] ==> InQueues(s.queues) == multiset{} && InLoops(s.pcs) == multiset{}
  {
    hide InLoops, InQueues, Spawns, Deaths;
    SpawnersAreHeld(s.pcs);
    assert |s.boxes.Keys| == |multiset(s.boxes.Keys)| == |InQueues(s.queues)| + |InLoops(s.pcs)|;
    assert |s.boxes| == 0 <==> s.boxes == map[];
    if s.boxes == map[] {
      assert InQueues(s.queues) + InLoops(s.pcs) == multiset{};
    }
  }

  // ---------------------------------------------------------------- every step keeps it

  lemma {:induction false} KeepsShape(s: State, step: Step)
    requires Shape(s) && Enabled(s, step)
    ensures Shape(Apply(s, step))
  {
    hide Given, Left;
  }

  lemma {:induction false} KeepsPopsWork(s: State, step: Step)
    requires Shape(s) && Enabled(s, step) && PopsWork(s)
    ensures Shape(Apply(s, step)) && PopsWork(Apply(s, step))
  {
    hide Given, Left, Created, Sent;
    KeepsShape(s, step);
    if step.StealFrom? {
      GivingUp(s.queues[s.spawnedBy[0]], {s.main});
    }
  }

  /** The books balance if what leaves one queue and one loop, and what enters them, balances
      with what is born or dies. */
  lemma {:induction false} Balance<T>(q: multiset<T>, l: multiset<T>, b: multiset<T>,
                                      q': multiset<T>, l': multiset<T>, b': multiset<T>,
                                      queue: multiset<T>, queue': multiset<T>, held: multiset<T>, held': multiset<T>)
    requires q + l == b
    requires q' + queue == q + queue' && l' + held == l + held'
    requires b' + (queue + held) == b + (queue' + held')
    ensures q' + l' == b'
  {
    forall x: T
      ensures (q' + l')[x] == b'[x]
    {
      assert (q' + queue)[x] == (q + queue')[x] && (l' + held)[x] == (l + held')[x];
      assert (b' + (queue + held))[x] == (b + (queue' + held'))[x];
    }
  }

  /** Which queue a step touches. */
  function Touched(s: State, step: Step): (v: nat)
    requires Shape(s) && Enabled(s, step)
    ensures v < |s.queues|
  {
    match step
    case StealFrom(k) => s.spawnedBy[0]
    case SpawnPush(k) => s.home[s.pcs[k].p]
    case _ => step.k
  }

  /** A step changes the place of one loop, and at most one queue. */
  lemma {:induction false} TouchesOne(s: State, step: Step)
    requires Shape(s) && Enabled(s, step)
    ensures var s', k, v := Apply(s, step), step.k, Touched(s, step);
            && k < |s.pcs| == |s'.pcs| && s'.pcs == s.pcs[k := s'.pcs[k]]
            && |s'.queues| == |s.queues| && s'.queues == s.queues[v := s'.queues[v]]
            && s'.main == s.main
  {
    hide Given, Left, Created, Sent;
  }

  /** Steps of a loop that holds no process, and go on holding none. */
  predicate Idle(step: Step) {
    step.SeeEmpty? || step.SeeWork? || step.StealNothing? || step.ReadCount? || step.ReapCount?
  }

  /** Steps of a loop that runs a process, which move no process and create and end none. */
  predicate Busy(step: Step) {
    step.SpawnList? || step.SpawnCount? || step.SendMessage? || step.ReceiveMessages?
  }

  predicate Quiet(step: Step) {
    Idle(step) || Busy(step)
  }

  /** How the loop of a quiet step changes. */
  predicate SameHeld(pc: Pc, pc': Pc) {
    Held(pc') == Held(pc) && !pc'.Stolen? && (pc'.Spawn? ==> pc.Spawn? && pc'.q == pc.q)
  }

  lemma {:induction false} IdleBalance(s: State, step: Step)
    requires Shape(s) && Enabled(s, step) && Idle(step)
    ensures var s', k := Apply(s, step), step.k;
            && |s'.pcs| == |s.pcs| && SameHeld(s.pcs[k], s'.pcs[k])
            && s'.queues == s.queues && s'.boxes.Keys == s.boxes.Keys
  {
  }

  lemma {:induction false} BusyBalance(s: State, step: Step)
    requires Shape(s) && Enabled(s, step) && Busy(step)
    ensures var s', k := Apply(s, step), step.k;
            && |s'.pcs| == |s.pcs| && SameHeld(s.pcs[k], s'.pcs[k])
            && s'.queues == s.queues && s'.boxes.Keys == s.boxes.Keys
  {
    assert Apply(s, step).boxes.Keys == s.boxes.Keys;
  }

  lemma {:induction false} QuietBalance(s: State, step: Step)
    requires Shape(s) && Enabled(s, step) && Quiet(step)
    ensures var s', k := Apply(s, step), step.k;
            && |s'.pcs| == |s.pcs| && SameHeld(s.pcs[k], s'.pcs[k])
            && s'.queues == s.queues && s'.boxes.Keys == s.boxes.Keys
  {
    hide Apply, SameHeld, Enabled;
    if Idle(step) {
      IdleBalance(s, step);
    } else {
      BusyBalance(s, step);
    }
  }

  /** The process a loop runs is alive. */
  lemma {:induction false} RunningIsAlive(s: State, k: nat)
    requires Shape(s) && Owned(s) && k < |s.pcs| && s.pcs[k].Run?
    ensures s.pcs[k].p in s.boxes
  {
    hide InLoops, InQueues;
    HeldByLoop(s.pcs, k);
    var p := s.pcs[k].p;
    assert Held(s.pcs[k])[p] == 1;
    assert p in multiset(s.boxes.Keys);
  }

  lemma {:induction false} BornOrDead(s: State, step: Step)
    requires Shape(s) && Enabled(s, step) && Owned(s) && (step.SpawnCreate? || step.ReapMailbox?)
    ensures var s', pc := Apply(s, step), s.pcs[step.k];
            && s'.queues == s.queues
            && if step.SpawnCreate? then
                 && step.q !in s.boxes && s'.boxes.Keys == s.boxes.Keys + {step.q}
                 && s'.pcs == s.pcs[step.k := Spawn(pc.p, step.q, Boxed)]
               else
                 pc.p in s.boxes && s'.boxes.Keys == s.boxes.Keys - {pc.p} && s'.pcs == s.pcs[step.k := Dying]
  {
    hide InLoops, InQueues;
    if step.ReapMailbox? {
      RunningIsAlive(s, step.k);
    }
  }

  lemma {:induction false} LocalBalance(s: State, step: Step)
    requires Shape(s) && Enabled(s, step) && PopsWork(s) && Owned(s)
    ensures var s', k, v := Apply(s, step), step.k, Touched(s, step);
            && |s'.pcs| == |s.pcs| && |s'.queues| == |s.queues|
            && multiset(s'.boxes.Keys) + (multiset(s.queues[v]) + Held(s.pcs[k]))
               == multiset(s.boxes.Keys) + (multiset(s'.queues[v]) + Held(s'.pcs[k]))
  {
    hide InLoops, InQueues, Owned, Apply, Held, PopsWork;
    if Quiet(step) {
      QuietBalance(s, step);
    } else if step.SpawnCreate? || step.ReapMailbox? {
      BirthBalance(s, step);
    } else {
      MoveBalance(s, step);
    }
  }

  lemma {:induction false} BornTogether(keys: set<Pid>, queue: multiset<Pid>, p: Pid, q: Pid)
    requires q !in keys
    ensures multiset(keys + {q}) + (queue + multiset{p}) == multiset(keys) + (queue + multiset{p, q})
  {
    assert multiset(keys + {q}) == multiset(keys) + multiset{q};
    assert multiset{p, q} == multiset{p} + multiset{q};
    Regroup(multiset(keys), multiset{q}, queue + multiset{p});
    Regroup(queue, multiset{p}, multiset{q});
    Regroup(multiset(keys), queue + multiset{p}, multiset{q});
  }

  lemma {:induction false} DeadTogether(keys: set<Pid>, queue: multiset<Pid>, p: Pid)
    requires p in keys
    ensures multiset(keys - {p}) + (queue + multiset{p}) == multiset(keys) + (queue + multiset{})
  {
    assert multiset(keys - {p}) + multiset{p} == multiset(keys);
    Regroup(multiset(keys - {p}), multiset{p}, queue);
    assert queue + multiset{} == queue && queue + multiset{p} == multiset{p} + queue;
  }

  lemma {:induction false} BirthBalance(s: State, step: Step)
    requires Shape(s) && Enabled(s, step) && Owned(s) && (step.SpawnCreate? || step.ReapMailbox?)
    ensures var s', k := Apply(s, step), step.k;
            && |s'.pcs| == |s.pcs| && s'.queues == s.queues
            && multiset(s'.boxes.Keys) + (multiset(s.queues[k]) + Held(s.pcs[k]))
               == multiset(s.boxes.Keys) + (multiset(s'.queues[k]) + Held(s'.pcs[k]))
  {
    BornOrDead(s, step);
    var s', k, p := Apply(s, step), step.k, s.pcs[step.k].p;
    assert Held(s.pcs[k]) == multiset{p};
    hide Apply, Owned, Shape, Enabled;
    if step.SpawnCreate? {
      assert Held(s'.pcs[k]) == multiset{p, step.q};
      hide Held;
      BornTogether(s.boxes.Keys, multiset(s.queues[k]), p, step.q);
    } else {
      assert Held(s'.pcs[k]) == multiset{};
      hide Held;
      DeadTogether(s.boxes.Keys, multiset(s.queues[k]), p);
    }
  }

  lemma {:induction false} Taking(queue: seq<Pid>)
    requires queue != []
    ensures multiset(queue) + multiset{} == multiset(queue[1..]) + multiset{queue[0]}
  {
    assert queue == [queue[0]] + queue[1..];
    assert multiset(queue) == multiset(queue[1..]) + multiset{queue[0]};
  }

  lemma {:induction false} Enqueuing(queue: seq<Pid>, batch: seq<Pid>, kept: multiset<Pid>)
    ensures multiset(queue) + (kept + multiset(batch)) == multiset(queue + batch) + kept
  {
    assert multiset(queue + batch) == multiset(queue) + multiset(batch);
    Regroup(multiset(queue), kept, multiset(batch));
  }

  /** What enters and leaves the queue and the loop of a step, other than a birth or a death. */
  ghost predicate Balanced(s: State, s': State, k: nat, v: nat) {
    && k < |s.pcs| == |s'.pcs| && v < |s.queues| == |s'.queues| && s'.boxes == s.boxes
    && multiset(s.queues[v]) + Held(s.pcs[k]) == multiset(s'.queues[v]) + Held(s'.pcs[k])
  }

  lemma {:induction false} TakeBalance(s: State, step: Step)
    requires Shape(s) && Enabled(s, step) && PopsWork(s) && step.TakeFirst?
    ensures Balanced(s, Apply(s, step), step.k, step.k)
  {
    Taking(s.queues[step.k]);
  }

  lemma {:induction false} StealBalance(s: State, step: Step)
    requires Shape(s) && Enabled(s, step) && step.StealFrom?
    ensures Balanced(s, Apply(s, step), step.k, s.spawnedBy[0])
  {
    hide Given, Left;
    var queue := s.queues[s.spawnedBy[0]];
    GivingUp(queue, {s.main});
    var given, left := multiset(Given(queue, {s.main})), multiset(Left(queue, {s.main}));
    assert given + left == left + given == multiset(queue) + multiset{};
  }

  lemma {:induction false} EnqueueBalance(s: State, step: Step)
    requires Shape(s) && Enabled(s, step) && (step.EnqueueStolen? || step.Requeue?)
    ensures Balanced(s, Apply(s, step), step.k, step.k)
  {
    var queue, pc := s.queues[step.k], s.pcs[step.k];
    var batch := if step.Requeue? then [pc.p] else pc.batch;
    Enqueuing(queue, batch, multiset{});
    assert multiset{} + multiset(batch) == Held(pc);
  }

  lemma {:induction false} PushBalance(s: State, step: Step)
    requires Shape(s) && Enabled(s, step) && step.SpawnPush?
    ensures Balanced(s, Apply(s, step), step.k, s.home[s.pcs[step.k].p])
  {
    var s', k, p, q := Apply(s, step), step.k, s.pcs[step.k].p, s.pcs[step.k].q;
    var h := s.home[p];
    assert s'.queues[h] == s.queues[h] + [q] && s'.boxes == s.boxes;
    assert Held(s.pcs[k]) == multiset{p, q} && Held(s'.pcs[k]) == multiset{p};
    assert |s'.pcs| == |s.pcs| && |s'.queues| == |s.queues| && h < |s.queues|;
    hide Held, Apply, Enabled, Shape;
    Enqueuing(s.queues[h], [q], multiset{p});
    assert multiset{p} + multiset([q]) == multiset{p, q};
  }

  lemma {:induction false} MoveBalance(s: State, step: Step)
    requires Shape(s) && Enabled(s, step) && PopsWork(s)
    requires !Quiet(step) && !step.SpawnCreate? && !step.ReapMailbox?
    ensures Balanced(s, Apply(s, step), step.k, Touched(s, step))
  {
    hide Apply, Balanced, PopsWork, Enabled;
    if step.TakeFirst? {
      TakeBalance(s, step);
    } else if step.StealFrom? {
      StealBalance(s, step);
    } else if step.SpawnPush? {
      PushBalance(s, step);
    } else {
      EnqueueBalance(s, step);
    }
  }

  lemma {:induction false} KeepsOwned(s: State, step: Step)
    requires Shape(s) && Enabled(s, step) && PopsWork(s) && Owned(s)
    ensures Owned(Apply(s, step))
  {
    hide *;
    TouchesOne(s, step);
    LocalBalance(s, step);
    OwnedByBalance(s, Apply(s, step), step.k, Touched(s, step));
  }

  lemma {:induction false} OwnedByBalance(s: State, s': State, k: nat, v: nat)
    requires k < |s.pcs| == |s'.pcs| && v < |s.queues| == |s'.queues|
    requires s'.pcs == s.pcs[k := s'.pcs[k]] && s'.queues == s.queues[v := s'.queues[v]]
    requires multiset(s'.boxes.Keys) + (multiset(s.queues[v]) + Held(s.pcs[k]))
             == multiset(s.boxes.Keys) + (multiset(s'.queues[v]) + Held(s'.pcs[k]))
    requires Owned(s)
    ensures Owned(s')
  {
    hide InLoops, InQueues, Held;
    LoopsUpdate(s.pcs, k, s'.pcs[k]);
    QueuesUpdate(s.queues, v, s'.queues[v]);
    Balance(InQueues(s.queues), InLoops(s.pcs), multiset(s.boxes.Keys),
            InQueues(s'.queues), InLoops(s'.pcs), multiset(s'.boxes.Keys),
            multiset(s.queues[v]), multiset(s'.queues[v]), Held(s.pcs[k]), Held(s'.pcs[k]));
  }

  lemma {:induction false} BoxesChange(s: State, step: Step)
    requires Shape(s) && Enabled(s, step) && Owned(s)
    ensures var s' := Apply(s, step);
            |s'.boxes| == |s.boxes| + Born(step)
  {
    hide InLoops, InQueues, Given, Left, GiveUpLimit;
    var s' := Apply(s, step);
    if step.SpawnCreate? || step.ReapMailbox? {
      BornOrDead(s, step);
      assert |s'.boxes| == |s'.boxes.Keys| && |s.boxes| == |s.boxes.Keys|;
    } else if Quiet(step) {
      QuietBalance(s, step);
      assert |s'.boxes| == |s'.boxes.Keys| && |s.boxes| == |s.boxes.Keys|;
    }
  }

  /** What a step adds to the counter: two for a process that is alive, less one for a spawn not
      yet announced, and one for a death not yet announced. */
  ghost predicate CounterMoves(s: State, s': State, k: nat, born: int) {
    && k < |s.pcs| == |s'.pcs|
    && s'.running - s.running
       == 2 * born - (if s'.pcs[k].Spawn? then 1 else 0) + (if s.pcs[k].Spawn? then 1 else 0)
          + (if s'.pcs[k].Dying? then 1 else 0) - if s.pcs[k].Dying? then 1 else 0
  }

  function Born(step: Step): (n: int) {
    if step.SpawnCreate? then 1 else if step.ReapMailbox? then -1 else 0
  }

  lemma {:induction false} IdleCounter(s: State, step: Step)
    requires Shape(s) && Enabled(s, step) && Idle(step)
    ensures CounterMoves(s, Apply(s, step), step.k, Born(step))
  {
  }

  lemma {:induction false} BusyCounter(s: State, step: Step)
    requires Shape(s) && Enabled(s, step) && Busy(step)
    ensures CounterMoves(s, Apply(s, step), step.k, Born(step))
  {
    hide Sent;
  }

  lemma {:induction false} MoveCounter(s: State, step: Step)
    requires Shape(s) && Enabled(s, step) && PopsWork(s) && !Quiet(step)
    ensures CounterMoves(s, Apply(s, step), step.k, Born(step))
  {
    hide Given, Left, Created;
  }

  lemma {:induction false} CounterChange(s: State, step: Step)
    requires Shape(s) && Enabled(s, step) && PopsWork(s)
    ensures CounterMoves(s, Apply(s, step), step.k, Born(step))
  {
    hide Apply, Enabled, CounterMoves, PopsWork;
    if Idle(step) {
      IdleCounter(s, step);
    } else if Busy(step) {
      BusyCounter(s, step);
    } else {
      MoveCounter(s, step);
    }
  }

  lemma {:induction false} KeepsCounted(s: State, step: Step)
    requires Shape(s) && Enabled(s, step) && PopsWork(s) && Owned(s) && Counted(s)
    ensures Counted(Apply(s, step))
  {
    hide InLoops, InQueues, Spawns, Deaths, Apply, Enabled, Held, PopsWork, Owned;
    TouchesOne(s, step);
    BoxesChange(s, step);
    CounterChange(s, step);
    LoopsUpdate(s.pcs, step.k, Apply(s, step).pcs[step.k]);
  }

  lemma {:induction false} LeftIsPart(q: seq<Pid>, pinned: set<Pid>)
    ensures forall p :: p in Left(q, pinned) ==> p in q
  {
    hide Left, Given;
    GivingUp(q, pinned);
    forall p | p in Left(q, pinned)
      ensures p in q
    {
      assert p in multiset(Left(q, pinned));
      assert p in multiset(q);
    }
  }

  /** At the loop and the queue a step touches, the main process is still where it belongs. */
  ghost predicate MainLocally(s: State, s': State, k: nat, v: nat) {
    && k < |s.pcs| == |s'.pcs| && v < |s.queues| == |s'.queues|
    && (v != 0 ==> s.main !in s'.queues[v])
    && Away(s.main, k, s'.pcs[k])
  }

  lemma {:induction false} MainQuiet(s: State, step: Step)
    requires Shape(s) && Enabled(s, step) && MainStays(s) && Quiet(step)
    ensures MainLocally(s, Apply(s, step), step.k, step.k)
  {
    hide Apply, Held;
    QuietBalance(s, step);
    assert Away(s.main, step.k, s.pcs[step.k]);
  }

  lemma {:induction false} MainTaken(s: State, step: Step)
    requires Shape(s) && Enabled(s, step) && PopsWork(s) && MainStays(s) && step.TakeFirst?
    ensures MainLocally(s, Apply(s, step), step.k, step.k)
  {
    assert s.queues[step.k][0] in s.queues[step.k];
  }

  lemma {:induction false} MainStolen(s: State, step: Step)
    requires Shape(s) && Enabled(s, step) && MainStays(s) && step.StealFrom?
    ensures MainLocally(s, Apply(s, step), step.k, s.spawnedBy[0])
  {
    hide Given, Left;
    var queue := s.queues[s.spawnedBy[0]];
    GivingUp(queue, {s.main});
    LeftIsPart(queue, {s.main});
    assert s.main !in Given(queue, {s.main});
  }

  lemma {:induction false} MainEnqueued(s: State, step: Step)
    requires Shape(s) && Enabled(s, step) && MainStays(s)
    requires step.EnqueueStolen? || step.Requeue? || step.SpawnPush?
    ensures MainLocally(s, Apply(s, step), step.k, Touched(s, step))
  {
    var pc := s.pcs[step.k];
    assert Away(s.main, step.k, pc);
    assert pc.Run? ==> pc.p in Held(pc);
    assert pc.Stolen? ==> s.main !in pc.batch;
  }

  lemma {:induction false} MainBornOrDead(s: State, step: Step)
    requires Shape(s) && Enabled(s, step) && MainStays(s)
    requires step.SpawnCreate? || step.ReapMailbox?
    ensures MainLocally(s, Apply(s, step), step.k, step.k)
  {
    hide Created;
    var pc := s.pcs[step.k];
    assert Away(s.main, step.k, pc);
    assert pc.p in Held(pc);
  }

  lemma {:induction false} MainLocal(s: State, step: Step)
    requires Shape(s) && Enabled(s, step) && PopsWork(s) && MainStays(s)
    ensures MainLocally(s, Apply(s, step), step.k, Touched(s, step))
  {
    hide Apply, Away, PopsWork, MainStays, Enabled;
    if Quiet(step) {
      MainQuiet(s, step);
    } else if step.TakeFirst? {
      MainTaken(s, step);
    } else if step.StealFrom? {
      MainStolen(s, step);
    } else if step.SpawnCreate? || step.ReapMailbox? {
      MainBornOrDead(s, step);
    } else {
      MainEnqueued(s, step);
    }
  }

  lemma {:induction false} KeepsMain(s: State, step: Step)
    requires Shape(s) && Enabled(s, step) && PopsWork(s) && MainStays(s)
    ensures Shape(Apply(s, step)) && MainStays(Apply(s, step))
  {
    hide Apply, Enabled, PopsWork, Away, Touched;
    KeepsShape(s, step);
    TouchesOne(s, step);
    MainLocal(s, step);
  }

  /** When no process is alive, no loop has one to run, so none is ever created again. */
  lemma {:induction false} EmptyStaysEmpty(s: State, step: Step)
    requires Inv(s) && Enabled(s, step) && s.boxes == map[]
    ensures Apply(s, step).boxes == map[]
  {
    hide InLoops, InQueues, Given, Left, Spawns, Deaths, Created, Sent, Owned, Counted, MainStays, PopsWork;
    ZeroMeansOver(s);
    HeldByLoop(s.pcs, step.k);
    assert |Held(s.pcs[step.k])| == 0;
  }

  lemma {:induction false} DoneByReading(s: State, step: Step)
    requires Shape(s) && Enabled(s, step) && Done !in s.pcs && Done in Apply(s, step).pcs
    ensures step.ReadCount? && s.running == 0 && Apply(s, step).boxes == s.boxes
  {
    hide Given, Left, Created, Sent, Shape;
    assert Apply(s, step).pcs[step.k] == Done;
  }

  lemma {:induction false} KeepsDone(s: State, step: Step)
    requires Inv(s) && Enabled(s, step)
    ensures DoneMeansOver(Apply(s, step))
  {
    InvParts(s);
    hide InLoops, InQueues, Spawns, Deaths, Apply, Enabled, Inv, Shape, Owned, Counted, MainStays, PopsWork;
    if Done in Apply(s, step).pcs {
      if Done in s.pcs {
        EmptyStaysEmpty(s, step);
      } else {
        DoneByReading(s, step);
        ZeroMeansOver(s);
      }
    }
  }

  /** Every step of every scheduler keeps the invariant. */
  lemma {:induction false} StepKeepsInv(s: State, step: Step)
    requires Inv(s) && Enabled(s, step)
    ensures Inv(Apply(s, step))
  {
    hide *;
    InvParts(s);
    KeepsShape(s, step);
    KeepsPopsWork(s, step);
    KeepsOwned(s, step);
    KeepsCounted(s, step);
    KeepsMain(s, step);
    KeepsDone(s, step);
    PartsInv(Apply(s, step));
  }

  lemma {:induction false} InvParts(s: State)
    requires Inv(s)
    ensures Shape(s) && Owned(s) && Counted(s) && PopsWork(s) && MainStays(s) && DoneMeansOver(s)
  {
  }

  lemma {:induction false} PartsInv(s: State)
    requires Shape(s) && Owned(s) && Counted(s) && PopsWork(s) && MainStays(s) && DoneMeansOver(s)
    ensures Inv(s)
  {
  }

  // ---------------------------------------------------------------- whole runs

  /** The run `steps` is possible from `s`, and ends in `r`. */
  ghost predicate Reaches(s: State, steps: seq<Step>, r: State)
    decreases steps
  {
    if steps == [] then r == s
    else Shape(s) && Enabled(s, steps[0]) && Reaches(Apply(s, steps[0]), steps[1..], r)
  }

  lemma {:induction false} NothingHeld(n: nat)
    ensures InLoops(seq(n, _ => Top)) == multiset{}
    ensures Spawns(seq(n, _ => Top)) == 0 && Deaths(seq(n, _ => Top)) == 0
  {
    if n > 0 {
      NothingHeld(n - 1);
      assert seq(n, _ => Top)[..n - 1] == seq(n - 1, _ => Top);
    }
  }

  lemma {:induction false} OnlyMainQueued(n: nat, main: Pid)
    ensures InQueues([[main]] + seq(n, _ => [])) == multiset{main}
  {
    var queues: seq<seq<Pid>> := [[main]] + seq(n, _ => []);
    if n == 0 {
      assert queues == [[main]] && queues[..0] == [];
    } else {
      OnlyMainQueued(n - 1, main);
      assert queues[..n] == [[main]] + seq(n - 1, _ => []);
      assert queues[n] == [];
    }
  }

  lemma {:induction false} LaunchedOwned(n: nat, main: Pid)
    requires n >= 1
    ensures Owned(Launched(n, main)) && Counted(Launched(n, main))
  {
    var s := Launched(n, main);
    NothingHeld(n);
    OnlyMainQueued(n - 1, main);
    assert InQueues(s.queues) == multiset{main} && InLoops(s.pcs) == multiset{};
    hide InLoops, InQueues, Spawns, Deaths;
    assert s.boxes.Keys == {main} && |s.boxes| == 1;
    assert multiset{main} + multiset{} == multiset{main};
  }

  lemma {:induction false} LaunchedInv(n: nat, main: Pid)
    requires n >= 1
    ensures Inv(Launched(n, main))
  {
    hide Owned, Counted;
    LaunchedOwned(n, main);
    var s := Launched(n, main);
    assert forall k :: 0 <= k < n ==> s.pcs[k] == Top;
  }

  lemma {:induction false} RunKeepsInv(s: State, steps: seq<Step>, r: State)
    requires Inv(s) && Reaches(s, steps, r)
    ensures Inv(r)
    decreases steps
  {
    hide Inv, Shape, Enabled, Apply;
    if steps != [] {
      InvParts(s);
      StepKeepsInv(s, steps[0]);
      RunKeepsInv(Apply(s, steps[0]), steps[1..], r);
    }
  }

  /** Whatever the interleaving, the counter never goes below zero, and it is zero exactly when no
      process is alive in any queue, loop or stolen batch and no death is still to be counted. */
  lemma {:induction false} CounterIsZeroIffAllIsOver(n: nat, main: Pid, steps: seq<Step>, r: State)
    requires n >= 1 && Reaches(Launched(n, main), steps, r)
    ensures r.running >= 0
    ensures r.running == 0
            <==> Deaths(r.pcs) == 0 && InQueues(r.queues) == multiset{} && InLoops(r.pcs) == multiset{}
  {
    hide *;
    LaunchedInv(n, main);
    RunKeepsInv(Launched(n, main), steps, r);
    ZeroMeansOver(r);
    InvParts(r);
    if InQueues(r.queues) == multiset{} && InLoops(r.pcs) == multiset{} {
      NobodyAlive(r);
    }
  }

  lemma {:induction false} NobodyAlive(s: State)
    requires Owned(s) && InQueues(s.queues) == multiset{} && InLoops(s.pcs) == multiset{}
    ensures s.boxes == map[]
  {
    hide InQueues, InLoops;
    forall p
      ensures p !in s.boxes
    {
      assert multiset(s.boxes.Keys)[p] == 0;
    }
  }

  lemma {:induction false} Widen<T>(a: multiset<T>, b: multiset<T>, m: multiset<T>)
    requires a <= m
    ensures a + b <= m + b && a <= m + b
  {
    assert forall x :: (a + b)[x] <= (m + b)[x];
  }

  /** Two different queues, together, are part of all of them. */
  lemma {:induction false} TwoQueues(queues: seq<seq<Pid>>, i: nat, j: nat)
    requires i < j < |queues|
    ensures multiset(queues[i]) + multiset(queues[j]) <= InQueues(queues)
  {
    var n := |queues| - 1;
    var before, a, b, last := queues[..n], multiset(queues[i]), multiset(queues[j]), multiset(queues[n]);
    assert InQueues(queues) == InQueues(before) + last;
    assert before[i] == queues[i];
    hide InQueues;
    if j < n {
      TwoQueues(before, i, j);
      Widen(a + b, last, InQueues(before));
    } else {
      WaitsInQueue(before, i);
      Widen(a, last, InQueues(before));
    }
  }

  lemma {:induction false} TwoLoops(pcs: seq<Pc>, i: nat, j: nat)
    requires i < j < |pcs|
    ensures Held(pcs[i]) + Held(pcs[j]) <= InLoops(pcs)
  {
    hide Held;
    var n := |pcs| - 1;
    var before, a, b, last := pcs[..n], Held(pcs[i]), Held(pcs[j]), Held(pcs[n]);
    assert InLoops(pcs) == InLoops(before) + last;
    assert before[i] == pcs[i];
    hide InLoops;
    if j < n {
      TwoLoops(before, i, j);
      Widen(a + b, last, InLoops(before));
    } else {
      HeldByLoop(before, i);
      Widen(a, last, InLoops(before));
    }
  }

  /** Whatever the interleaving of running, spawning, stealing and reaping, a live process is in
      exactly one place and once only, and a process that is not alive is nowhere: so no two
      schedulers run the same process, or hold it, at once. */
  lemma {:induction false} ExactlyOneOwner(n: nat, main: Pid, steps: seq<Step>, r: State, p: Pid, i: nat, j: nat)
    requires n >= 1 && Reaches(Launched(n, main), steps, r)
    ensures (InQueues(r.queues) + InLoops(r.pcs))[p] == if p in r.boxes then 1 else 0
    ensures |r.pcs| == |r.queues|
    ensures i < j < |r.pcs| ==> !(p in r.queues[i] && p in r.queues[j]) && !(p in Held(r.pcs[i]) && p in Held(r.pcs[j]))
    ensures i < |r.pcs| && j < |r.pcs| ==> !(p in r.queues[i] && p in Held(r.pcs[j]))
  {
    hide *;
    LaunchedInv(n, main);
    RunKeepsInv(Launched(n, main), steps, r);
    InvParts(r);
    OwnedOnce(r, p);
    if i < j < |r.pcs| {
      TwoQueues(r.queues, i, j);
      TwoLoops(r.pcs, i, j);
      AtMostOne(multiset(r.queues[i]), multiset(r.queues[j]), InQueues(r.queues) + InLoops(r.pcs), p);
      AtMostOne(Held(r.pcs[i]), Held(r.pcs[j]), InQueues(r.queues) + InLoops(r.pcs), p);
    }
    if i < |r.pcs| && j < |r.pcs| {
      WaitsInQueue(r.queues, i);
      HeldByLoop(r.pcs, j);
      AtMostOne(multiset(r.queues[i]), Held(r.pcs[j]), InQueues(r.queues) + InLoops(r.pcs), p);
    }
  }

  lemma {:induction false} OwnedOnce(s: State, p: Pid)
    requires Shape(s) && Owned(s)
    ensures (InQueues(s.queues) + InLoops(s.pcs))[p] == if p in s.boxes then 1 else 0
    ensures |s.pcs| == |s.queues|
  {
    hide InQueues, InLoops;
  }

  lemma {:induction false} AtMostOne<T>(a: multiset<T>, b: multiset<T>, all: multiset<T>, x: T)
    requires a + b <= all && all[x] <= 1
    ensures !(x in a && x in b)
  {
    assert (a + b)[x] <= all[x];
  }

  /** A scheduler that has seen work in its queue still finds some when it comes to take it, though
      others may have stolen from the queue in the meantime. */
  lemma {:induction false} NeverPopsEmpty(n: nat, main: Pid, steps: seq<Step>, r: State, k: nat)
    requires n >= 1 && Reaches(Launched(n, main), steps, r)
    requires k < |r.pcs| && r.pcs[k] == Pop
    ensures Shape(r) && r.queues[k] != []
  {
    hide Inv, Reaches, Launched, Owned, Counted, MainStays, DoneMeansOver;
    LaunchedInv(n, main);
    RunKeepsInv(Launched(n, main), steps, r);
    InvParts(r);
  }

  lemma {:induction false} RunKeepsMain(s: State, steps: seq<Step>, r: State)
    requires Inv(s) && Reaches(s, steps, r)
    ensures r.main == s.main
    decreases steps
  {
    hide Inv, Shape, Enabled, Apply;
    if steps != [] {
      InvParts(s);
      TouchesOne(s, steps[0]);
      StepKeepsInv(s, steps[0]);
      RunKeepsMain(Apply(s, steps[0]), steps[1..], r);
    }
  }

  /** The main process never leaves the scheduler it was started on. */
  lemma {:induction false} MainNeverLeaves(n: nat, main: Pid, steps: seq<Step>, r: State, k: nat)
    requires n >= 1 && Reaches(Launched(n, main), steps, r)
    requires 0 < k < |r.pcs|
    ensures |r.queues| == |r.pcs| && main !in r.queues[k] && main !in Held(r.pcs[k])
  {
    hide Inv, Reaches, Owned, Counted, PopsWork, DoneMeansOver, Held;
    LaunchedInv(n, main);
    RunKeepsInv(Launched(n, main), steps, r);
    RunKeepsMain(Launched(n, main), steps, r);
    InvParts(r);
    assert Away(main, k, r.pcs[k]);
  }

  /** Each queue is one: a step adds at its end, takes its first, has it give some up, or leaves it alone. */
  lemma {:induction false} FirstInFirstOut(s: State, step: Step, v: nat)
    requires Inv(s) && Enabled(s, step) && v < |s.queues|
    ensures var s' := Apply(s, step);
            && |s'.queues| == |s.queues| && step.k < |s'.pcs|
            && var q, q' := s.queues[v], s'.queues[v];
               || q <= q'
               || (step.TakeFirst? && v == step.k && s'.pcs[v].Run? && q == [s'.pcs[v].p] + q')
               || (step.StealFrom? && q' == Left(q, {s.main}))
  {
    hide Given, Left, Created, Sent, Owned, Counted, MainStays, DoneMeansOver;
  }

  /** All that is spawned is spawned from the first scheduler, by whichever scheduler runs the spawner. */
  ghost predicate FromFirst(s: State) {
    && (forall p :: p in s.home ==> s.home[p] == 0)
    && (forall i :: 0 <= i < |s.spawnedBy| ==> s.spawnedBy[i] == 0)
  }

  lemma {:induction false} StepFromFirst(s: State, step: Step)
    requires Shape(s) && Enabled(s, step) && FromFirst(s)
    ensures FromFirst(Apply(s, step))
  {
    hide Given, Left, Created, Sent;
  }

  lemma {:induction false} RunFromFirst(s: State, steps: seq<Step>, r: State)
    requires FromFirst(s) && Reaches(s, steps, r)
    ensures FromFirst(r)
    decreases steps
  {
    hide FromFirst, Shape, Enabled, Apply;
    if steps != [] {
      StepFromFirst(s, steps[0]);
      RunFromFirst(Apply(s, steps[0]), steps[1..], r);
    }
  }

  /** Whatever the interleaving, every process is spawned into the queue of the first scheduler, and no other
      scheduler is ever stolen from. */
  lemma {:induction false} OnlyFirstIsStolenFrom(n: nat, main: Pid, steps: seq<Step>, r: State, step: Step)
    requires n >= 1 && Reaches(Launched(n, main), steps, r) && Shape(r) && Enabled(r, step)
    requires step.StealFrom? || step.SpawnPush?
    ensures |Apply(r, step).queues| == |r.queues|
    ensures forall v :: 0 < v < |r.queues| ==> Apply(r, step).queues[v] == r.queues[v]
  {
    hide Given, Left;
    RunFromFirst(Launched(n, main), steps, r);
  }

  // ---------------------------------------------------------------- shutting down

  lemma {:induction false} RunStaysEmpty(s: State, steps: seq<Step>, r: State)
    requires Inv(s) && s.boxes == map[] && Reaches(s, steps, r)
    ensures r.boxes == map[]
    decreases steps
  {
    hide Inv, Shape, Enabled, Apply;
    if steps != [] {
      InvParts(s);
      StepKeepsInv(s, steps[0]);
      EmptyStaysEmpty(s, steps[0]);
      RunStaysEmpty(Apply(s, steps[0]), steps[1..], r);
    }
  }

  /** Shutdown safety: once any scheduler has shut down, no process is alive anywhere, and whatever
      the other schedulers go on to do, none is alive ever after. */
  lemma {:induction false} ShutdownSafety(n: nat, main: Pid, steps: seq<Step>, r: State, k: nat,
                                          more: seq<Step>, later: State)
    requires n >= 1 && Reaches(Launched(n, main), steps, r)
    requires k < |r.pcs| && r.pcs[k] == Done
    requires Reaches(r, more, later)
    ensures later.boxes == map[]
    ensures InQueues(later.queues) == multiset{} && InLoops(later.pcs) == multiset{}
  {
    hide Inv, Reaches, Launched, Shape, Owned, Counted, MainStays, PopsWork, InQueues, InLoops;
    LaunchedInv(n, main);
    RunKeepsInv(Launched(n, main), steps, r);
    InvParts(r);
    RunStaysEmpty(r, more, later);
    RunKeepsInv(r, more, later);
    ZeroMeansOver(later);
  }

  /** How many more of its own steps a loop without work can take. */
  function Rank(pc: Pc): (n: nat) {
    match pc
    case Top => 3
    case Steal => 2
    case Count => 1
    case _ => 0
  }

  function Ranks(pcs: seq<Pc>): (n: nat) {
    if pcs == [] then 0 else Ranks(pcs[..|pcs| - 1]) + Rank(pcs[|pcs| - 1])
  }

  lemma {:induction false} RanksUpdate(pcs: seq<Pc>, k: nat, pc: Pc)
    requires k < |pcs|
    ensures Ranks(pcs[k := pc]) + Rank(pcs[k]) == Ranks(pcs) + Rank(pc)
  {
    hide Rank;
    var n := |pcs| - 1;
    if k == n {
      assert pcs[k := pc][..n] == pcs[..n];
    } else {
      RanksUpdate(pcs[..n], k, pc);
      assert pcs[k := pc][..n] == pcs[..n][k := pc];
    }
  }

  lemma {:induction false} NoneDying(pcs: seq<Pc>, k: nat)
    requires Deaths(pcs) == 0 && k < |pcs|
    ensures !pcs[k].Dying?
  {
    if k < |pcs| - 1 {
      NoneDying(pcs[..|pcs| - 1], k);
    }
  }

  /** What is left to a loop once the counter is zero. */
  lemma {:induction false} IdleLoops(s: State, k: nat)
    requires Inv(s) && s.running == 0 && k < |s.pcs|
    ensures s.queues[k] == []
    ensures s.pcs[k].Top? || s.pcs[k].Steal? || s.pcs[k].Count? || s.pcs[k].Done?
  {
    hide InLoops, InQueues, Spawns, Deaths, Owned, Counted, MainStays;
    ZeroMeansOver(s);
    HeldByLoop(s.pcs, k);
    WaitsInQueue(s.queues, k);
    NoneDying(s.pcs, k);
    assert |multiset(s.queues[k])| == 0 && |Held(s.pcs[k])| == 0;
  }

  lemma {:induction false} WindsDown(s: State, step: Step)
    requires Inv(s) && s.running == 0 && Enabled(s, step)
    ensures Apply(s, step).running == 0
    ensures Ranks(Apply(s, step).pcs) < Ranks(s.pcs)
  {
    hide InLoops, InQueues, Spawns, Deaths, Owned, Counted, MainStays, PopsWork, DoneMeansOver, Ranks, Given, Left;
    var s' := Apply(s, step);
    IdleLoops(s, step.k);
    TouchesOne(s, step);
    if step.StealFrom? {
      IdleLoops(s, s.spawnedBy[0]);
      GivingUp([], {s.main});
    }
    RanksUpdate(s.pcs, step.k, s'.pcs[step.k]);
  }

  /** A scheduler that has not shut down can always take a step. */
  lemma {:induction false} CanMove(s: State, k: nat) returns (step: Step)
    requires Inv(s) && s.running == 0 && k < |s.pcs| && s.pcs[k] != Done
    ensures step.k == k && Enabled(s, step)
  {
    hide InLoops, InQueues, Spawns, Deaths, Owned, Counted, MainStays, PopsWork, DoneMeansOver;
    IdleLoops(s, k);
    match s.pcs[k]
    case Top => step := SeeEmpty(k);
    case Steal => step := if s.spawnedBy == [] then StealNothing(k) else StealFrom(k);
    case Count => step := ReadCount(k);
  }

  lemma {:induction false} RunWindsDown(s: State, steps: seq<Step>, r: State)
    requires Inv(s) && s.running == 0 && Reaches(s, steps, r)
    ensures r.running == 0 && |steps| + Ranks(r.pcs) <= Ranks(s.pcs)
    decreases steps
  {
    hide Inv, Shape, Enabled, Apply, Ranks;
    if steps != [] {
      InvParts(s);
      StepKeepsInv(s, steps[0]);
      WindsDown(s, steps[0]);
      RunWindsDown(Apply(s, steps[0]), steps[1..], r);
    }
  }

  lemma {:induction false} RanksBound(pcs: seq<Pc>)
    ensures Ranks(pcs) <= 3 * |pcs|
  {
    if pcs != [] {
      RanksBound(pcs[..|pcs| - 1]);
    }
  }

  /** Shutdown is reached: once the counter is zero it stays zero, every run is at most three steps
      a scheduler long, and a run can stop only when all schedulers have shut down. */
  lemma {:induction false} ShutdownIsReached(n: nat, main: Pid, steps: seq<Step>, r: State,
                                             more: seq<Step>, later: State)
    requires n >= 1 && Reaches(Launched(n, main), steps, r)
    requires r.running == 0 && Reaches(r, more, later)
    ensures later.running == 0 && |more| <= 3 * |r.pcs|
    ensures Shape(later)
    ensures (forall step :: !Enabled(later, step)) ==> forall k :: 0 <= k < |later.pcs| ==> later.pcs[k] == Done
  {
    hide *;
    LaunchedInv(n, main);
    RunKeepsInv(Launched(n, main), steps, r);
    RunWindsDown(r, more, later);
    RanksBound(r.pcs);
    RunKeepsInv(r, more, later);
    InvParts(later);
    forall k | 0 <= k < |later.pcs| && later.pcs[k] != Done
      ensures exists step :: Enabled(later, step)
    {
      var step := CanMove(later, k);
    }
  }
}
