/**
 * `ElideWorker`: a client that forwards compiles to one resident process and restarts it
 * after any failure. The process is known by what it has been sent and by how many of
 * its replies have been read; it answers each request once and in order.
 */
module ElideWorker {
  import opened Common
  import opened WorkMessages
  import Varint

  /** A request as sent, marked with the number of the call that sent it. */
  datatype Sent = Sent(call: nat, args: seq<string>, inputs: seq<Input>, id: int)

  datatype Answer = Answer(requestId: int, exitCode: int, output: string)

  /** The requests a live process has received and how many replies were taken from it. */
  datatype Process = Process(received: seq<Sent>, read: nat)

  datatype Client = Client(process: Option<Process>, nextId: int, calls: nat)

  /** What one call meets: whether the current process is alive, whether a new one starts,
      whether the request is taken, whether the record sink takes its copy, and whether a
      readable reply arrives. */
  datatype Net = Net(alive: bool, starts: bool, sends: bool, records: bool, delivers: bool)

  datatype Returned = Returned(exitCode: int, output: string) | Threw

  /** `AtomicInteger.getAndIncrement`, wrapping around. */
  function Successor(id: int): int {
    if id == Varint.TWO_TO_31 - 1 then -Varint.TWO_TO_31 else id + 1
  }

  /** `ensureStarted`; `None` when the process cannot be started. */
  function EnsureStarted(c: Client, net: Net): Option<Process> {
    if c.process.Some? && net.alive then c.process
    else if net.starts then Some(Process([], 0))
    else None
  }

  /** The reply a process delivers next: its answer to the first request not answered yet. */
  function Next(resident: Sent -> Answer, p: Process): Option<Answer> {
    if p.read < |p.received| then Some(resident(p.received[p.read])) else None
  }

  /** `compile` */
  function Compile(c: Client, args: seq<string>, inputs: seq<Input>, net: Net, resident: Sent -> Answer)
    : (Client, Returned)
  {
    match EnsureStarted(c, net)
    case None => (c.(calls := c.calls + 1), Threw)
    case Some(p) =>
      var id := c.nextId;
      var killed := Client(None, Successor(id), c.calls + 1);
      var asked := Process(p.received + [Sent(c.calls, args, inputs, id)], p.read);
      if !net.sends || !net.records || !net.delivers then (killed, Threw)
      else
        match Next(resident, asked)
        case None => (killed, Threw)
        case Some(answer) =>
          if answer.requestId == id || answer.requestId == 0 then
            (killed.(process := Some(asked.(read := asked.read + 1))), Returned(answer.exitCode, answer.output))
          else (killed, Threw)
  }

  /** Between calls a process has no reply that was not read. */
  predicate Idle(c: Client) {
    c.process.Some? ==> c.process.value.read == |c.process.value.received|
  }

  datatype Op = Call(args: seq<string>, inputs: seq<Input>, net: Net) | Close

  const START := Client(None, 1, 0)

  function Apply(c: Client, op: Op, resident: Sent -> Answer): (Client, Returned) {
    match op
    case Call(args, inputs, net) => Compile(c, args, inputs, net, resident)
    case Close => (c.(process := None), Threw)
  }

  function After(ops: seq<Op>, resident: Sent -> Answer): Client
    decreases |ops|
  {
    if ops == [] then START
    else Apply(After(ops[..|ops| - 1], resident), ops[|ops| - 1], resident).0
  }

  /** A failed call leaves no process behind, so whatever the next call meets it starts a
      new process if it can; and when no process could be started, the call has changed
      nothing and the next one is as free as it was. */
  lemma FailureRestarts(
    c: Client, args: seq<string>, inputs: seq<Input>, net: Net, resident: Sent -> Answer, later: Net)
    requires Compile(c, args, inputs, net, resident).1.Threw?
    ensures var after := Compile(c, args, inputs, net, resident).0;
            if EnsureStarted(c, net).Some? then
              && after.process == None
              && EnsureStarted(after, later) == (if later.starts then Some(Process([], 0)) else None)
            else
              && after == c.(calls := c.calls + 1)
              && EnsureStarted(after, later) == EnsureStarted(c, later)
  {
  }

  /** So does a closed one, and ids go on from where they were. */
  lemma CloseRestarts(c: Client, resident: Sent -> Answer, later: Net)
    ensures var (after, r) := Apply(c, Close, resident);
            && r.Threw? && after.process == None && after.nextId == c.nextId
            && EnsureStarted(after, later) == if later.starts then Some(Process([], 0)) else None
  {
  }

  lemma {:induction false} ReachableIsIdle(ops: seq<Op>, resident: Sent -> Answer)
    ensures Idle(After(ops, resident))
    decreases |ops|
  {
    if ops == [] {
    } else {
      ReachableIsIdle(ops[..|ops| - 1], resident);
    }
  }

  /** No cross-wired replies. In every run with failures, restarts and closes, what a call
      returns is the resident's answer to that very call, with the arguments and inputs
      it was given; and the accepted id is the call's own or 0. */
  lemma NoCrossWiring(ops: seq<Op>, i: nat, resident: Sent -> Answer)
    requires i < |ops| && ops[i].Call? && Apply(After(ops[..i], resident), ops[i], resident).1.Returned?
    ensures var c := After(ops[..i], resident);
            var own := resident(Sent(c.calls, ops[i].args, ops[i].inputs, c.nextId));
            && Apply(c, ops[i], resident).1 == Returned(own.exitCode, own.output)
            && own.requestId in {c.nextId, 0}
  {
    ReachableIsIdle(ops[..i], resident);
  }

  /** When a call returns, in every run: exactly when a process lives or one starts, the
      request is taken and recorded, a reply arrives, and the resident's answer to this
      very call carries the call's id or 0. The process that was asked then lives on, with
      no reply unread; otherwise none does, or none could be started. */
  lemma ReturnsExactlyWhen(ops: seq<Op>, i: nat, resident: Sent -> Answer)
    requires i < |ops| && ops[i].Call?
    ensures var c, net := After(ops[..i], resident), ops[i].net;
            var (after, r) := Apply(c, ops[i], resident);
            var live := c.process.Some? && net.alive;
            var sent := Sent(c.calls, ops[i].args, ops[i].inputs, c.nextId);
            var received := (if live then c.process.value.received else []) + [sent];
            && (r.Returned? <==>
                  && (live || net.starts) && net.sends && net.records && net.delivers
                  && resident(sent).requestId in {c.nextId, 0})
            && (r.Returned? ==>
                  && r == Returned(resident(sent).exitCode, resident(sent).output)
                  && after.process == Some(Process(received, |received|)))
            && (r.Threw? ==> after.process == if live || net.starts then None else c.process)
  {
    ReachableIsIdle(ops[..i], resident);
  }

  /** Whether an operation takes a request id: a call that has a process does. */
  predicate TakesId(ops: seq<Op>, i: nat, resident: Sent -> Answer)
    requires i < |ops|
  {
    ops[i].Call? && EnsureStarted(After(ops[..i], resident), ops[i].net).Some?
  }

  /** How many ids operations `i` to `j` take. */
  function IdsTaken(ops: seq<Op>, i: nat, j: nat, resident: Sent -> Answer): (n: nat)
    requires i <= j <= |ops|
    ensures n <= j - i
  {
    if i == j then 0
    else IdsTaken(ops, i, j - 1, resident) + if TakesId(ops, j - 1, resident) then 1 else 0
  }

  /** A number as a 32-bit two's complement integer. */
  function Wrapped(n: int): int {
    (n + Varint.TWO_TO_31) % Varint.TWO_TO_32 - Varint.TWO_TO_31
  }

  lemma WrapsAround(n: int, m: nat)
    ensures Successor(Wrapped(n)) == Wrapped(n + 1)
    ensures -Varint.TWO_TO_31 <= Wrapped(n) < Varint.TWO_TO_31
    ensures -Varint.TWO_TO_31 <= n < Varint.TWO_TO_31 ==> Wrapped(n) == n
    ensures 0 < m < Varint.TWO_TO_32 ==> Wrapped(n + m) != Wrapped(n)
  {
  }

  lemma OneMore(ops: seq<Op>, j: nat, resident: Sent -> Answer)
    requires 0 < j <= |ops|
    ensures var c := After(ops[..j - 1], resident);
            After(ops[..j], resident).nextId == if TakesId(ops, j - 1, resident) then Successor(c.nextId) else c.nextId
  {
    hide Successor, Next;
    assert ops[..j][..j - 1] == ops[..j - 1] && ops[..j][j - 1] == ops[j - 1];
  }

  lemma {:induction false} NextIdIsInt(ops: seq<Op>, j: nat, resident: Sent -> Answer)
    requires j <= |ops|
    ensures Wrapped(After(ops[..j], resident).nextId) == After(ops[..j], resident).nextId
    decreases j
  {
    hide TakesId, Successor, Wrapped;
    if j == 0 {
      assert ops[..0] == [];
      WrapsAround(1, 0);
    } else {
      NextIdIsInt(ops, j - 1, resident);
      OneMore(ops, j, resident);
      WrapsAround(After(ops[..j - 1], resident).nextId, 0);
      WrapsAround(After(ops[..j - 1], resident).nextId + 1, 0);
      WrapsAround(Wrapped(After(ops[..j - 1], resident).nextId + 1), 0);
    }
  }

  /** From 1, ids count up by one for each taken and wrap around from 2^31 - 1 to -2^31. */
  lemma {:induction false} IdsCountUp(ops: seq<Op>, i: nat, j: nat, resident: Sent -> Answer)
    requires i <= j <= |ops|
    ensures After(ops[..j], resident).nextId
         == Wrapped(After(ops[..i], resident).nextId + IdsTaken(ops, i, j, resident))
    ensures After(ops[..0], resident).nextId == 1
    decreases j
  {
    assert After([], resident).nextId == 1;
    hide TakesId, Successor, Wrapped, After;
    NextIdIsInt(ops, i, resident);
    if i == j {
    } else {
      IdsCountUp(ops, i, j - 1, resident);
      OneMore(ops, j, resident);
      WrapsAround(After(ops[..i], resident).nextId + IdsTaken(ops, i, j - 1, resident), 0);
    }
  }

  /** Two calls that send a request send different ids, unless 2^32 or more were taken
      between them; and every request sent carries its own number of call. */
  lemma {:induction false} CallsAreNumbered(ops: seq<Op>, i: nat, j: nat, resident: Sent -> Answer)
    requires i < j <= |ops| && ops[i].Call?
    ensures After(ops[..i], resident).calls < After(ops[..j], resident).calls
    ensures TakesId(ops, i, resident) && IdsTaken(ops, i, j, resident) < Varint.TWO_TO_32 ==>
              After(ops[..i], resident).nextId != After(ops[..j], resident).nextId
    decreases j
  {
    hide TakesId, Successor, Wrapped, EnsureStarted, Next;
    assert ops[..j][..j - 1] == ops[..j - 1] && ops[..j][j - 1] == ops[j - 1];
    if i == j - 1 {
    } else {
      CallsAreNumbered(ops, i, j - 1, resident);
    }
    if TakesId(ops, i, resident) {
      NextIdIsInt(ops, i, resident);
      IdsCountUp(ops, i, j, resident);
      OwnIdIsTaken(ops, i, j, resident);
      WrapsAround(After(ops[..i], resident).nextId, IdsTaken(ops, i, j, resident));
    }
  }

  lemma {:induction false} OwnIdIsTaken(ops: seq<Op>, i: nat, j: nat, resident: Sent -> Answer)
    requires i < j <= |ops| && TakesId(ops, i, resident)
    ensures IdsTaken(ops, i, j, resident) > 0
    decreases j
  {
    if i == j - 1 {
    } else {
      OwnIdIsTaken(ops, i, j - 1, resident);
    }
  }

  /** The class itself. */
  class Worker {
    var process: Option<Process>
    var nextId: int
    /** Numbers the calls; nothing depends on it but what is sent. */
    var calls: nat

    ghost function State(): Client
      reads this
    {
      Client(process, nextId, calls)
    }

    constructor ()
      ensures State() == START
    {
      process, nextId, calls := None, 1, 0;
    }

    method Kill()
      modifies this`process
      ensures process == None
    {
      process := None;
    }

    method CloseWorker()
      modifies this`process
      ensures State() == old(State()).(process := None)
    {
      process := None;
    }

    /** False when starting throws. */
    method Start(net: Net) returns (ok: bool)
      modifies this`process
      ensures match EnsureStarted(old(State()), net)
              case Some(p) => ok && process == Some(p)
              case None => !ok && process == old(process)
    {
      if process.Some? && net.alive {
        return true;
      }
      if !net.starts {
        return false;
      }
      process := Some(Process([], 0));
      return true;
    }

    method CompileOn(args: seq<string>, inputs: seq<Input>, net: Net, resident: Sent -> Answer)
      returns (r: Returned)
      modifies this
      ensures (State(), r) == Compile(old(State()), args, inputs, net, resident)
    {
      var call := calls;
      calls := calls + 1;
      var ok := Start(net);
      if !ok {
        return Threw;
      }
      var id := nextId;
      nextId := Successor(nextId);
      if !net.sends {
        Kill();
        return Threw;
      }
      var p := process.value;
      p := p.(received := p.received + [Sent(call, args, inputs, id)]);
      process := Some(p);
      if !net.records || !net.delivers {
        Kill();
        return Threw;
      }
      var answer := Next(resident, p);
      if answer.None? {
        Kill();
        return Threw;
      }
      process := Some(p.(read := p.read + 1));
      if answer.value.requestId != id && answer.value.requestId != 0 {
        Kill();
        return Threw;
      }
      return Returned(answer.value.exitCode, answer.value.output);
    }
  }
}
