/** The kernel's bookkeeping: mailboxes, result slots and the running-process counter.  Every
    operation is one critical section; runs are arbitrary interleavings of them. */
module Kernel {
  import opened Pids
  import opened Wrappers

  datatype Value = Value(repr: string)

  // ---------------------------------------------------------------- messages

  /** The kernel's mailboxes, and the messages each process has fetched but not yet used. */
  datatype Mail = Mail(boxes: map<Pid, seq<Value>>, queues: map<Pid, seq<Value>>) {
    function Boxed(pid: Pid): (ms: seq<Value>) {
      if pid in boxes then boxes[pid] else []
    }

    function Queued(pid: Pid): (ms: seq<Value>) {
      if pid in queues then queues[pid] else []
    }
  }

  datatype MailOp = Create(pid: Pid) | Delete(pid: Pid) | Send(pid: Pid, message: Value) | Take(pid: Pid)

  function Created(boxes: map<Pid, seq<Value>>, pid: Pid): (r: map<Pid, seq<Value>>) {
    if pid in boxes then boxes else boxes[pid := []]
  }

  function Sent(boxes: map<Pid, seq<Value>>, pid: Pid, message: Value): (r: map<Pid, seq<Value>>) {
    if pid in boxes then boxes[pid := boxes[pid] + [message]] else boxes
  }

  /** Taking a message first fetches everything from the mailbox, then uses the oldest one. */
  function MailStep(m: Mail, op: MailOp): (r: Mail) {
    match op
    case Create(pid) => m.(boxes := Created(m.boxes, pid))
    case Delete(pid) => m.(boxes := m.boxes - {pid})
    case Send(pid, message) => m.(boxes := Sent(m.boxes, pid, message))
    case Take(pid) =>
      if pid !in m.boxes then m else
        var all := m.Queued(pid) + m.boxes[pid];
        Mail(m.boxes[pid := []], m.queues[pid := if all == [] then [] else all[1..]])
  }

  /** What the process `pid` gets to see in this step. */
  function Got(m: Mail, op: MailOp, pid: Pid): (ms: seq<Value>) {
    if op == Take(pid) && pid in m.boxes && m.Queued(pid) + m.boxes[pid] != []
    then [(m.Queued(pid) + m.boxes[pid])[0]]
    else []
  }

  function MailRun(m: Mail, ops: seq<MailOp>): (r: Mail)
    decreases ops
  {
    if ops == [] then m else MailRun(MailStep(m, ops[0]), ops[1..])
  }

  function AllGot(m: Mail, ops: seq<MailOp>, pid: Pid): (ms: seq<Value>)
    decreases ops
  {
    if ops == [] then [] else Got(m, ops[0], pid) + AllGot(MailStep(m, ops[0]), ops[1..], pid)
  }

  /** Everything sent to `pid` in a run, in order. */
  function SentTo(ops: seq<MailOp>, pid: Pid): (ms: seq<Value>) {
    if ops == [] then []
    else (if ops[0].Send? && ops[0].pid == pid then [ops[0].message] else []) + SentTo(ops[1..], pid)
  }

  /** One step moves messages along and neither drops nor repeats nor reorders one, except that
      deleting the mailbox drops what is in it. */
  lemma {:induction false} DeliveryStep(m: Mail, op: MailOp, pid: Pid)
    requires op != Create(pid)
    ensures var m' := MailStep(m, op);
            var after := Got(m, op, pid) + m'.Queued(pid) + m'.Boxed(pid);
            var before := m.Queued(pid) + m.Boxed(pid) + SentTo([op], pid);
            && after <= before
            && (pid in m.boxes && op != Delete(pid) ==> after == before && pid in m'.boxes)
            && (pid !in m.boxes
                ==> pid !in m'.boxes && Got(m, op, pid) == [] && m'.Queued(pid) == m.Queued(pid))
            && (op == Take(pid) || op == Delete(pid) ==> m'.Boxed(pid) == [])
            && (op.pid != pid ==> m'.Boxed(pid) == m.Boxed(pid) && m'.Queued(pid) == m.Queued(pid))
  {
    SentToOne(op, pid);
    if op == Take(pid) && pid in m.boxes {
      var all := m.Queued(pid) + m.boxes[pid];
      if all != [] {
        assert all == [all[0]] + all[1..];
      }
    }
  }

  lemma {:induction false} SentToOne(op: MailOp, pid: Pid)
    ensures SentTo([op], pid) == if op.Send? && op.pid == pid then [op.message] else []
  {
    assert [op][1..] == [];
  }

  /** First in, first out, exactly once: in any interleaving in which a mailbox is not created
      anew, what its process got, then what it has fetched, then what is in the box, is what there
      was at first and what has been sent since; and no less unless the box was deleted. */
  lemma {:induction false} Delivery(m: Mail, ops: seq<MailOp>, pid: Pid)
    requires Create(pid) !in ops
    ensures var m' := MailRun(m, ops);
            var after := AllGot(m, ops, pid) + m'.Queued(pid) + m'.Boxed(pid);
            var before := m.Queued(pid) + m.Boxed(pid) + SentTo(ops, pid);
            && (pid in m.boxes ==> after <= before)
            && (pid in m.boxes && Delete(pid) !in ops ==> after == before && pid in m'.boxes)
            && (pid !in m.boxes
                ==> pid !in m'.boxes && AllGot(m, ops, pid) == [] && m'.Queued(pid) == m.Queued(pid))
    decreases ops
  {
    if ops == [] {
      assert MailRun(m, ops) == m && AllGot(m, ops, pid) == [] && SentTo(ops, pid) == [];
      assert [] + m.Queued(pid) + m.Boxed(pid) == m.Queued(pid) + m.Boxed(pid) + [];
    } else {
      var op, rest := ops[0], ops[1..];
      var m1 := MailStep(m, op);
      Unfold(m, ops, pid);
      hide Got, MailStep, MailRun, AllGot, SentTo, Mail.Queued, Mail.Boxed;
      DeliveryStep(m, op, pid);
      Delivery(m1, rest, pid);
      var end := MailRun(m1, rest);
      if pid in m1.boxes {
        Chain(Got(m, op, pid), AllGot(m1, rest, pid), m1.Queued(pid), m1.Boxed(pid),
              end.Queued(pid), end.Boxed(pid), m.Queued(pid), m.Boxed(pid), SentTo([op], pid), SentTo(rest, pid));
      } else if pid in m.boxes {
        Dropped(Got(m, op, pid), m1.Queued(pid), m1.Boxed(pid), m.Queued(pid), m.Boxed(pid),
                SentTo([op], pid), SentTo(rest, pid));
        NoBox(end, pid);
        NoBox(m1, pid);
      }
      assert pid !in m.boxes ==> Got(m, op, pid) + AllGot(m1, rest, pid) == [];
    }
  }

  lemma {:induction false} NoBox(m: Mail, pid: Pid)
    requires pid !in m.boxes
    ensures m.Boxed(pid) == []
  {
  }

  lemma {:induction false} Unfold(m: Mail, ops: seq<MailOp>, pid: Pid)
    requires ops != []
    ensures var m1 := MailStep(m, ops[0]);
            && MailRun(m, ops) == MailRun(m1, ops[1..])
            && AllGot(m, ops, pid) == Got(m, ops[0], pid) + AllGot(m1, ops[1..], pid)
            && SentTo(ops, pid) == SentTo([ops[0]], pid) + SentTo(ops[1..], pid)
    ensures ops[0] in ops && forall op :: op in ops[1..] ==> op in ops
  {
    hide Got, MailStep;
    SentToOne(ops[0], pid);
  }

  /** How two stretches of a run fit together. */
  lemma {:induction false} Chain<T>(got: seq<T>, later: seq<T>, q1: seq<T>, b1: seq<T>, q2: seq<T>, b2: seq<T>,
                                    q0: seq<T>, b0: seq<T>, s1: seq<T>, s2: seq<T>)
    requires got + q1 + b1 == q0 + b0 + s1
    ensures later + q2 + b2 <= q1 + b1 + s2 ==> (got + later) + q2 + b2 <= q0 + b0 + (s1 + s2)
    ensures later + q2 + b2 == q1 + b1 + s2 ==> (got + later) + q2 + b2 == q0 + b0 + (s1 + s2)
  {
    assert (got + later) + q2 + b2 == got + (later + q2 + b2);
    assert q0 + b0 + (s1 + s2) == (got + q1 + b1) + s2 == got + (q1 + b1 + s2);
  }

  lemma {:induction false} Dropped<T>(got: seq<T>, q1: seq<T>, b1: seq<T>,
                                      q0: seq<T>, b0: seq<T>, s1: seq<T>, s2: seq<T>)
    requires got + q1 + b1 <= q0 + b0 + s1 && b1 == []
    ensures (got + []) + q1 + [] <= q0 + b0 + (s1 + s2)
  {
    assert (got + []) + q1 + [] == got + q1 + b1;
    assert q0 + b0 + (s1 + s2) == (q0 + b0 + s1) + s2;
  }

  /** There is a mailbox after a run exactly if one has been created, or was there, and none deleted since. */
  lemma {:induction false} BoxExistsIff(m: Mail, ops: seq<MailOp>, pid: Pid)
    ensures pid in MailRun(m, ops).boxes
            <==> || (pid in m.boxes && Delete(pid) !in ops)
                 || exists j :: 0 <= j < |ops| && ops[j] == Create(pid) && Delete(pid) !in ops[j..]
    decreases ops
  {
    if ops != [] {
      var op, rest := ops[0], ops[1..];
      var m1 := MailStep(m, op);
      assert pid in m1.boxes <==> op == Create(pid) || (pid in m.boxes && op != Delete(pid));
      hide MailStep;
      BoxExistsIff(m1, rest, pid);
      assert ops == [op] + rest && ops[0..] == ops;
      if j :| 0 <= j < |rest| && rest[j] == Create(pid) && Delete(pid) !in rest[j..] {
        assert ops[j + 1] == rest[j] && ops[j + 1..] == rest[j..];
      }
      if j :| 0 < j < |ops| && ops[j] == Create(pid) && Delete(pid) !in ops[j..] {
        assert rest[j - 1] == ops[j] && rest[j - 1..] == ops[j..];
      }
    }
  }

  /** A message to an unknown address changes nothing at all. */
  lemma {:induction false} SendToNobody(m: Mail, pid: Pid, message: Value)
    ensures MailStep(m, Send(pid, message)) == m <==> pid !in m.boxes
  {
    if pid in m.boxes {
      assert MailStep(m, Send(pid, message)).boxes[pid] == m.boxes[pid] + [message];
    }
  }

  lemma {:induction false} MailRunAppend(m: Mail, a: seq<MailOp>, b: seq<MailOp>, pid: Pid)
    ensures MailRun(m, a + b) == MailRun(MailRun(m, a), b)
    ensures AllGot(m, a + b, pid) == AllGot(m, a, pid) + AllGot(MailRun(m, a), b, pid)
    decreases a
  {
    if a == [] {
      assert a + b == b;
    } else {
      assert (a + b)[0] == a[0] && (a + b)[1..] == a[1..] + b;
      var m1 := MailStep(m, a[0]);
      Unfold(m, a, pid);
      Unfold(m, a + b, pid);
      hide Got, MailStep, MailRun, AllGot, SentTo;
      MailRunAppend(m1, a[1..], b, pid);
      Associates(Got(m, a[0], pid), AllGot(m1, a[1..], pid), AllGot(MailRun(m1, a[1..]), b, pid));
    }
  }

  lemma {:induction false} Associates<T>(a: seq<T>, b: seq<T>, c: seq<T>)
    ensures a + (b + c) == a + b + c
  {
  }

  /** The whole life of a process: it sees exactly the beginning of what is sent to it between the
      creation and the deletion of its mailbox, and nothing sent earlier. */
  lemma {:induction false} MailLife(m: Mail, earlier: seq<MailOp>, life: seq<MailOp>, pid: Pid)
    requires pid !in m.boxes && m.Queued(pid) == []
    requires Create(pid) !in earlier && Create(pid) !in life
    ensures AllGot(m, earlier + [Create(pid)] + life, pid) <= SentTo(life, pid)
    ensures Delete(pid) !in life
            ==> var m' := MailRun(m, earlier + [Create(pid)] + life);
                AllGot(m, earlier + [Create(pid)] + life, pid) + m'.Queued(pid) + m'.Boxed(pid) == SentTo(life, pid)
  {
    hide Got, MailStep, MailRun, AllGot, SentTo, Mail.Queued, Mail.Boxed;
    var m1 := MailRun(m, earlier);
    Delivery(m, earlier, pid);
    var m2 := MailStep(m1, Create(pid));
    CreateStep(m1, pid);
    MailRunAppend(m, earlier, [Create(pid)], pid);
    MailRunAppend(m, earlier + [Create(pid)], life, pid);
    Delivery(m2, life, pid);
    assert [] + [] + AllGot(m2, life, pid) == AllGot(m2, life, pid);
    assert [] + [] + SentTo(life, pid) == SentTo(life, pid);
  }

  lemma {:induction false} CreateStep(m: Mail, pid: Pid)
    requires pid !in m.boxes
    ensures var m' := MailStep(m, Create(pid));
            m'.Boxed(pid) == [] && pid in m'.boxes && m'.Queued(pid) == m.Queued(pid)
    ensures MailRun(m, [Create(pid)]) == MailStep(m, Create(pid))
    ensures AllGot(m, [Create(pid)], pid) == []
  {
    Unfold(m, [Create(pid)], pid);
    assert [Create(pid)][1..] == [];
  }

  // ---------------------------------------------------------------- results

  /** How a process ended: with a value, perhaps none, or with an exception. */
  datatype Ending = Returned(result: Option<Value>) | Raised(exception: Value)

  datatype Slot = Slot(value: Option<Value>, exception: Option<Value>, done: bool)

  type Slots = map<Pid, Slot>

  datatype ResultOp =
    | CreateSlot(pid: Pid)
    | Detach(pid: Pid)
    | Record(pid: Pid, ending: Ending)
    | TakeException(pid: Pid)
    | TakeResult(pid: Pid)

  function Filled(ending: Ending): (s: Slot) {
    match ending
    case Returned(result) => Slot(result, None, true)
    case Raised(exception) => Slot(None, Some(exception), true)
  }

  function ResultStep(rs: Slots, op: ResultOp): (r: Slots) {
    match op
    case CreateSlot(pid) => if pid in rs then rs else rs[pid := Slot(None, None, false)]
    case Detach(pid) => rs - {pid}
    case Record(pid, ending) =>
      if pid !in rs || rs[pid].done then rs
      else (match ending
            case Returned(result) => rs[pid := rs[pid].(value := result, done := true)]
            case Raised(exception) => rs[pid := rs[pid].(exception := Some(exception), done := true)])
    case TakeException(pid) => rs - {pid}
    case TakeResult(pid) => rs - {pid}
  }

  /** What a transfer hands out. */
  function Transferred(rs: Slots, op: ResultOp, pid: Pid): (es: seq<Ending>) {
    if op == TakeException(pid) && pid in rs && rs[pid].exception.Some? then [Raised(rs[pid].exception.value)]
    else if op == TakeResult(pid) && pid in rs && rs[pid].value.Some? then [Returned(rs[pid].value)]
    else []
  }

  function ResultRun(rs: Slots, ops: seq<ResultOp>): (r: Slots)
    decreases ops
  {
    if ops == [] then rs else ResultRun(ResultStep(rs, ops[0]), ops[1..])
  }

  function AllTransferred(rs: Slots, ops: seq<ResultOp>, pid: Pid): (es: seq<Ending>)
    decreases ops
  {
    if ops == [] then []
    else Transferred(rs, ops[0], pid) + AllTransferred(ResultStep(rs, ops[0]), ops[1..], pid)
  }

  /** The life of one result, apart from all others. */
  datatype Phase = Absent | Waiting | Holding(ending: Ending) | Gone

  function PhaseStep(ph: Phase, op: ResultOp, pid: Pid): (r: Phase) {
    if op.pid != pid then ph else
      match op
      case CreateSlot(_) => if ph.Absent? then Waiting else ph
      case Record(_, ending) => if ph.Waiting? then Holding(ending) else ph
      case _ => if ph.Waiting? || ph.Holding? then Gone else ph
  }

  function PhaseRun(ph: Phase, ops: seq<ResultOp>, pid: Pid): (r: Phase)
    decreases ops
  {
    if ops == [] then ph else PhaseRun(PhaseStep(ph, ops[0], pid), ops[1..], pid)
  }

  predicate InPhase(rs: Slots, pid: Pid, ph: Phase) {
    match ph
    case Absent => pid !in rs
    case Gone => pid !in rs
    case Waiting => pid in rs && rs[pid] == Slot(None, None, false)
    case Holding(ending) => pid in rs && rs[pid] == Filled(ending)
  }

  function Creations(ops: seq<ResultOp>, pid: Pid): (n: nat) {
    if ops == [] then 0 else (if ops[0] == CreateSlot(pid) then 1 else 0) + Creations(ops[1..], pid)
  }

  /** The first outcome recorded once there is a slot. */
  function FirstRecorded(ops: seq<ResultOp>, pid: Pid, created: bool): (e: Option<Ending>) {
    if ops == [] then None
    else if created && ops[0].Record? && ops[0].pid == pid then Some(ops[0].ending)
    else FirstRecorded(ops[1..], pid, created || ops[0] == CreateSlot(pid))
  }

  lemma {:induction false} PhaseStepRefines(rs: Slots, op: ResultOp, pid: Pid, ph: Phase)
    requires InPhase(rs, pid, ph) && (op == CreateSlot(pid) ==> !ph.Gone?)
    ensures InPhase(ResultStep(rs, op), pid, PhaseStep(ph, op, pid))
    ensures Transferred(rs, op, pid) == []
            || (ph.Holding? && Transferred(rs, op, pid) == [ph.ending] && PhaseStep(ph, op, pid).Gone?)
  {
  }

  /** Over every run in which a slot is created at most once for a process: its slot goes through
      the phases of one result, so it never holds a value and an exception at once, and the first
      outcome recorded is the only one it ever holds; at most that outcome is handed out, once, and
      afterwards the process cannot be joined any more. */
  lemma {:induction false} WrittenOnceReadOnce(rs: Slots, ops: seq<ResultOp>, pid: Pid, ph: Phase)
    requires InPhase(rs, pid, ph)
    requires Creations(ops, pid) <= if ph.Absent? then 1 else 0
    ensures InPhase(ResultRun(rs, ops), pid, PhaseRun(ph, ops, pid))
    ensures var out := AllTransferred(rs, ops, pid);
            || out == []
            || (&& |out| == 1
                && PhaseRun(ph, ops, pid).Gone?
                && match ph
                   case Absent => FirstRecorded(ops, pid, false) == Some(out[0])
                   case Waiting => FirstRecorded(ops, pid, true) == Some(out[0])
                   case Holding(ending) => out[0] == ending
                   case Gone => false)
    decreases ops
  {
    if ops != [] {
      var op, rest := ops[0], ops[1..];
      var ph1 := PhaseStep(ph, op, pid);
      PhaseStepRefines(rs, op, pid, ph);
      CreatedAtMostOnce(ops, pid, ph);
      WrittenOnceReadOnce(ResultStep(rs, op), rest, pid, ph1);
      if Transferred(rs, op, pid) != [] {
        GoneForGood(rest, pid);
        assert AllTransferred(ResultStep(rs, op), rest, pid) == [];
      } else {
        assert AllTransferred(rs, ops, pid) == AllTransferred(ResultStep(rs, op), rest, pid);
      }
    }
  }

  lemma {:induction false} CreatedAtMostOnce(ops: seq<ResultOp>, pid: Pid, ph: Phase)
    requires ops != [] && Creations(ops, pid) <= if ph.Absent? then 1 else 0
    ensures ops[0] == CreateSlot(pid) ==> ph.Absent?
    ensures Creations(ops[1..], pid) <= if PhaseStep(ph, ops[0], pid).Absent? then 1 else 0
  {
  }

  lemma {:induction false} GoneForGood(ops: seq<ResultOp>, pid: Pid)
    ensures PhaseRun(Gone, ops, pid).Gone?
  {
    if ops != [] {
      GoneForGood(ops[1..], pid);
    }
  }

  /** No operation that takes the slot of `pid` away. */
  predicate Untaken(ops: seq<ResultOp>, pid: Pid) {
    forall op :: op in ops && op.pid == pid ==> op.CreateSlot? || op.Record?
  }

  lemma {:induction false} HeldUntilTaken(rs: Slots, ops: seq<ResultOp>, pid: Pid, ph: Phase)
    requires InPhase(rs, pid, ph) && (ph.Waiting? || ph.Holding?) && Untaken(ops, pid)
    ensures var first := if ph.Holding? then Some(ph.ending) else FirstRecorded(ops, pid, true);
            InPhase(ResultRun(rs, ops), pid, if first.Some? then Holding(first.value) else Waiting)
    ensures AllTransferred(rs, ops, pid) == []
    decreases ops
  {
    if ops != [] {
      var op, rest := ops[0], ops[1..];
      assert op in ops;
      PhaseStepRefines(rs, op, pid, ph);
      HeldUntilTaken(ResultStep(rs, op), rest, pid, PhaseStep(ph, op, pid));
      assert Transferred(rs, op, pid) == [];
    }
  }

  lemma {:induction false} TransferAtEnd(rs: Slots, ops: seq<ResultOp>, last: ResultOp, pid: Pid)
    ensures AllTransferred(rs, ops + [last], pid)
            == AllTransferred(rs, ops, pid) + Transferred(ResultRun(rs, ops), last, pid)
    decreases ops
  {
    hide ResultStep, Transferred;
    if ops == [] {
      assert ops + [last] == [last] && [last][1..] == [];
    } else {
      TransferAtEnd(ResultStep(rs, ops[0]), ops[1..], last, pid);
      assert (ops + [last])[1..] == ops[1..] + [last];
    }
  }

  /** What has been recorded first is handed out to the one who asks, if it asks for the right kind. */
  lemma {:induction false} ResultIsHandedOut(rs: Slots, ops: seq<ResultOp>, pid: Pid)
    requires InPhase(rs, pid, Waiting) && Untaken(ops, pid) && FirstRecorded(ops, pid, true).Some?
    ensures var ending := FirstRecorded(ops, pid, true).value;
            && AllTransferred(rs, ops + [TakeException(pid)], pid) == (if ending.Raised? then [ending] else [])
            && AllTransferred(rs, ops + [TakeResult(pid)], pid)
               == if ending.Returned? && ending.result.Some? then [ending] else []
  {
    hide AllTransferred, ResultRun, FirstRecorded, Untaken;
    HeldUntilTaken(rs, ops, pid, Waiting);
    TransferAtEnd(rs, ops, TakeException(pid), pid);
    TransferAtEnd(rs, ops, TakeResult(pid), pid);
  }

  /** A process that was disowned from the start, and never given a slot, never has one. */
  lemma {:induction false} DisownedHasNoSlot(rs: Slots, ops: seq<ResultOp>, pid: Pid)
    requires pid !in rs && Creations(ops, pid) == 0
    ensures pid !in ResultRun(rs, ops) && AllTransferred(rs, ops, pid) == []
  {
    WrittenOnceReadOnce(rs, ops, pid, Gone);
    GoneForGood(ops, pid);
  }

  // ---------------------------------------------------------------- the kernel itself

  /** The kernel object: each method is one critical section of the machines above. */
  class VmKernel {
    var mailboxes: map<Pid, seq<Value>>
    var processResults: Slots
    var runningProcesses: int
    var processSpawnedBy: seq<nat>

    constructor ()
      ensures mailboxes == map[] && processResults == map[] && runningProcesses == 0 && processSpawnedBy == []
    {
      mailboxes, processResults, runningProcesses, processSpawnedBy := map[], map[], 0, [];
    }

    method CreateMailbox(pid: Pid) returns (n: int)
      modifies this`mailboxes, this`runningProcesses
      ensures mailboxes == Created(old(mailboxes), pid)
      ensures n == runningProcesses == old(runningProcesses) + 1
    {
      if pid !in mailboxes {
        mailboxes := mailboxes[pid := []];
      }
      runningProcesses := runningProcesses + 1;
      return runningProcesses;
    }

    method DeleteMailbox(pid: Pid) returns (n: int)
      modifies this`mailboxes, this`runningProcesses
      ensures mailboxes == old(mailboxes) - {pid}
      ensures n == runningProcesses == old(runningProcesses) - 1
    {
      mailboxes := mailboxes - {pid};
      runningProcesses := runningProcesses - 1;
      return runningProcesses;
    }

    method NotifyAboutProcessSpawned(scheduler: nat)
      modifies this`processSpawnedBy, this`runningProcesses
      ensures processSpawnedBy == old(processSpawnedBy) + [scheduler]
      ensures runningProcesses == old(runningProcesses) + 1
    {
      processSpawnedBy := processSpawnedBy + [scheduler];
      runningProcesses := runningProcesses + 1;
    }

    method NotifyAboutProcessDeath()
      modifies this`runningProcesses
      ensures runningProcesses == old(runningProcesses) - 1
    {
      runningProcesses := runningProcesses - 1;
    }

    method Send(pid: Pid, message: Value)
      modifies this`mailboxes
      ensures mailboxes == Sent(old(mailboxes), pid, message)
    {
      if pid !in mailboxes {
        return;
      }
      mailboxes := mailboxes[pid := mailboxes[pid] + [message]];
    }

    /** Moves all messages to the end of a process' own queue; throws for an unknown process. */
    method Receive(pid: Pid, messageQueue: seq<Value>) returns (threw: bool, queue: seq<Value>)
      modifies this`mailboxes
      ensures threw <==> pid !in old(mailboxes)
      ensures threw ==> mailboxes == old(mailboxes) && queue == messageQueue
      ensures !threw ==> mailboxes == old(mailboxes)[pid := []] && queue == messageQueue + old(mailboxes)[pid]
    {
      queue := messageQueue;
      if pid !in mailboxes {
        return true, queue;
      }
      var messages := mailboxes[pid];
      for i := 0 to |messages|
        invariant queue == messageQueue + messages[..i]
      {
        queue := queue + [messages[i]];
      }
      mailboxes := mailboxes[pid := []];
      return false, queue;
    }

    /** The receive instruction: fetch everything, then use the oldest message.  Without one it is
        repeated, which is `Ok(None)`, or throws once its time has `expired`. */
    method OpReceive(pid: Pid, messageQueue: seq<Value>, expired: bool)
      returns (outcome: Outcome<Option<Value>>, queue: seq<Value>)
      modifies this`mailboxes
      ensures var m := Mail(old(mailboxes), map[pid := messageQueue]);
              var m', got := MailStep(m, Take(pid)), Got(m, Take(pid), pid);
              && mailboxes == m'.boxes && queue == m'.Queued(pid)
              && outcome == if pid !in old(mailboxes) then Throw("invalid PID")
                            else if got != [] then Ok(Some(got[0]))
                            else if expired then Throw("no message received") else Ok(None)
    {
      var threw;
      threw, queue := Receive(pid, messageQueue);
      if threw {
        return Throw("invalid PID"), queue;
      }
      if queue != [] {
        outcome := Ok(Some(queue[0]));
        queue := queue[1..];
      } else if expired {
        outcome := Throw("no message received");
      } else {
        outcome := Ok(None);
      }
    }

    method CreateResultSlotFor(pid: Pid)
      modifies this`processResults
      ensures processResults == ResultStep(old(processResults), CreateSlot(pid))
    {
      if pid !in processResults {
        processResults := processResults[pid := Slot(None, None, false)];
      }
    }

    method RecordProcessResult(pid: Pid, ending: Ending)
      modifies this`processResults
      ensures processResults == ResultStep(old(processResults), Record(pid, ending))
    {
      if pid !in processResults {
        return;
      }
      if processResults[pid].done {
        return;
      }
      var slot := processResults[pid];
      if ending.Raised? {
        slot := slot.(exception := Some(ending.exception));
      } else {
        slot := slot.(value := ending.result);
      }
      processResults := processResults[pid := slot.(done := true)];
    }

    /** Hands the exception out and forgets the process; throws for one that has no slot. */
    method TransferExceptionOf(pid: Pid) returns (threw: bool, exception: Option<Value>)
      modifies this`processResults
      ensures threw <==> pid !in old(processResults)
      ensures processResults == ResultStep(old(processResults), TakeException(pid))
      ensures !threw ==> exception == old(processResults)[pid].exception
    {
      if pid !in processResults {
        assert processResults - {pid} == processResults;
        return true, None;
      }
      exception := processResults[pid].exception;
      processResults := processResults - {pid};
      return false, exception;
    }

    method TransferResultOf(pid: Pid) returns (threw: bool, result: Option<Value>)
      modifies this`processResults
      ensures threw <==> pid !in old(processResults)
      ensures processResults == ResultStep(old(processResults), TakeResult(pid))
      ensures !threw ==> result == old(processResults)[pid].value
    {
      if pid !in processResults {
        assert processResults - {pid} == processResults;
        return true, None;
      }
      result := processResults[pid].value;
      processResults := processResults - {pid};
      return false, result;
    }
  }
}
