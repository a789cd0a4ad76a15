/**
 * `IncrementalWorker` as an object with mutable fields, and the persistent loop of
 * `main`: requests from one stream, responses to another.
 */
module WorkerLoop {
  import opened Common
  import CacheTransparency
  import opened IncrementalWorker
  import opened WorkMessages
  import Framing
  import Signature
  import Utf8
  import Varint
  import Wire

  class Worker {
    const host: Host
    var states: map<string, State>
    /** The unread part of the compiler's standard output, when there is a compiler. */
    var compiler: Option<Bytes>
    var scratch: map<string, Dir>
    var jars: map<string, Bytes>
    /** What has been written to the standard input of the current compiler. */
    var sent: Bytes

    ghost function Snapshot(): World
      reads this
    {
      World(states, compiler, scratch, jars)
    }

    constructor (host: Host, jars: map<string, Bytes>)
      ensures this.host == host && Snapshot() == World(map[], None, map[], jars)
    {
      this.host := host;
      states, compiler, scratch, sent := map[], None, map[], [];
      this.jars := jars;
    }

    /** `compile`; `None` when it throws. */
    method Compile(request: WorkRequest, m: Moment) returns (r: Option<WorkResponse>)
      modifies this`compiler, this`sent
      ensures match Reply(old(compiler), request, m)
              case Some(answer) => r == Some(answer.response) && compiler == Some(answer.unread)
              case None => r == None && compiler == Running(old(compiler), m)
      ensures compiler.Some? && m.sends ==> sent == old(sent) + Framing.Write(Body(request))
    {
      if compiler.None? {
        if !m.starts {
          return None;
        }
        compiler := Some([]);
      }
      if !m.sends {
        return None;
      }
      sent := WriteRequest(sent, request);
      var stdout := new Framing.InputStream(compiler.value + m.stdout);
      var frame := Framing.ReadFrame(stdout);
      if frame.Err? || frame.value.None? {
        return None;
      }
      var response := ReadResponse(frame.value.value);
      if response.Err? || response.value.requestId != request.requestId {
        return None;
      }
      compiler := Some(stdout.remaining);
      return Some(response.value);
    }

    /** The `try` block of `handle`. */
    method Try(request: WorkRequest, args: seq<string>, output: string, state: State, m: Moment)
      returns (handled: Handled)
      requires WellFormed(request.arguments)
      requires args == Rewritten(request.arguments, state.root)
      requires output in states && states[output] == state
      modifies this
      ensures (Snapshot(), handled) == Attempt(host, old(Snapshot()), output, state, request, m)
    {
      hide WithArguments, Rewritten, Reply;
      var forwarded := ReplaceArguments(request, args);
      if forwarded.Err? {
        return Threw(m.failure);
      }
      var response := Compile(forwarded.value, m);
      if response.None? {
        return Threw(m.failure);
      }
      var reply := response.value;
      var log := if state.root in scratch then scratch[state.root].log else [];
      var entry := IncrementalWorker.Compile(request, output, state.signature, reply, reply.exitCode == 0 && m.ioOk);
      scratch := scratch[state.root := Dir(m.classes, log + [entry])];
      if reply.exitCode == 0 {
        if !m.ioOk {
          if m.partialJar.Some? {
            jars := jars[output := m.partialJar.value];
          }
          return Threw(m.failure);
        }
        jars := jars[output := host.pack(m.classes)];
      } else {
        states := states - {output};
        if !m.ioOk {
          return Threw(m.failure);
        }
        scratch := scratch - {state.root};
      }
      return Replied(reply);
    }

    /** The fresh start of `handle`: the old root, if any, is removed and a new one made. */
    method StartOver(output: string, signature: string, m: Moment) returns (state: State)
      modifies this`states, this`scratch
      ensures state == State(signature, m.freshRoot)
      ensures Snapshot() == Open(Drop(old(Snapshot()), output), output, state)
    {
      if output in states {
        scratch := scratch - {states[output].root};
      }
      state := State(signature, m.freshRoot);
      scratch := scratch[state.root := Dir(map[], [])];
      states := states[output := state];
      assert states == (old(states) - {output})[output := state];
    }

    /** The edits that `handle` makes to its copy of the arguments. */
    static method Redirect(arguments: seq<string>, separator: int, destination: int, root: string)
      returns (args: seq<string>)
      requires WellFormed(arguments)
      requires separator == Separator(arguments) && destination == Destination(arguments)
      ensures args == Rewritten(arguments, root)
    {
      hide IndexOf;
      args := arguments[destination + 1 := Classes(root)];
      args := args[..separator] + ["--incremental", "--incremental-cache-dir", Cache(root)] + args[separator..];
    }

    /** `handle` */
    method Handle(request: WorkRequest, m: Moment) returns (handled: Handled)
      modifies this
      ensures (Snapshot(), handled) == Step(host, old(Snapshot()), request, m)
    {
      hide Attempt, Signature.Preimage, IndexOf, Open, Drop, Rewritten;
      var args := request.arguments;
      var separator, destination := IndexOf(args, "--"), IndexOf(args, "-d");
      if separator < 0 || destination <= separator || destination + 1 >= |args| {
        return Threw(m.failure);
      }
      var output := host.resolve(args[destination + 1]);
      var signature := Signature.ComputeSignature(request, host.digest);
      var state: State;
      if output !in states || signature != states[output].signature || |request.inputs| == 0 {
        state := StartOver(output, signature, m);
        Opened(Drop(old(Snapshot()), output), output, state);
      } else {
        state := states[output];
      }
      args := Redirect(args, separator, destination, state.root);
      assert (Snapshot(), state) == Prepared(host, old(Snapshot()), request, m);
      handled := Try(request, args, output, state, m);
      if handled.Threw? {
        states := map[];
        compiler, sent := None, [];
        scratch := map[];
      }
    }
  }

  lemma Opened(w: World, output: string, state: State)
    ensures output in Open(w, output, state).states && Open(w, output, state).states[output] == state
  {
  }

  // --------------------------------------------------------------- the loop

  /** What the loop writes for a request: the forwarded response, or an error made from
      the exception. */
  function Respond(r: WorkRequest, handled: Handled): Result<WorkResponse> {
    match handled
    case Replied(response) => Ok(response)
    case Threw(message) => ErrorResponse(r.requestId, message)
  }

  /** `finished` is false when an exception left the loop. */
  datatype Served = Served(world: World, replies: seq<WorkResponse>, finished: bool)

  function Serve(host: Host, w: World, s: Bytes, moments: nat -> Moment, k: nat): Served
    decreases |s|
  {
    match Framing.Read(s)
    case Eof => Served(w, [], true)
    case Broken(_) => Served(w, [], false)
    case Message(body, rest) =>
      match ParseRequest(body)
      case Err(_) => Served(w, [], false)
      case Ok(r) =>
        var (after, handled) := Step(host, w, r, moments(k));
        match Respond(r, handled)
        case Err(_) => Served(after, [], false)
        case Ok(reply) =>
          var more := Serve(host, after, rest, moments, k + 1);
          more.(replies := [reply] + more.replies)
  }

  /** The requests that the stream delivers before it ends or breaks, and whether it
      ends cleanly: no worker involved. */
  function Requests(s: Bytes): (seq<WorkRequest>, bool)
    decreases |s|
  {
    match Framing.Read(s)
    case Eof => ([], true)
    case Broken(_) => ([], false)
    case Message(body, rest) =>
      match ParseRequest(body)
      case Err(_) => ([], false)
      case Ok(r) =>
        var more := Requests(rest);
        ([r] + more.0, more.1)
  }

  /** The requests of a stream are those of its frames, as far as they are requests. */
  lemma {:induction false} RequestsOfFrames(bodies: seq<Bytes>, tail: Bytes)
    requires forall b :: b in bodies ==> |b| <= Framing.MAX_MESSAGE && ParseRequest(b).Ok?
    ensures var (rs, ended) := Requests(Framing.WriteAll(bodies) + tail);
            && |rs| == |bodies| + |Requests(tail).0|
            && (forall i :: 0 <= i < |bodies| ==> ParseRequest(bodies[i]) == Ok(rs[i]))
            && rs[|bodies|..] == Requests(tail).0
            && ended == Requests(tail).1
    decreases |bodies|
  {
    hide Framing.Read, Framing.Write, ParseRequest;
    if bodies == [] {
      assert Framing.WriteAll(bodies) + tail == tail;
    } else {
      var more := Framing.WriteAll(bodies[1..]) + tail;
      assert Framing.WriteAll(bodies) + tail == Framing.Write(bodies[0]) + more;
      Framing.RoundTrip(bodies[0], more);
      RequestsOfFrames(bodies[1..], tail);
      var r := ParseRequest(bodies[0]).value;
      assert Requests(Framing.WriteAll(bodies) + tail) == ([r] + Requests(more).0, Requests(more).1);
      assert ([r] + Requests(more).0)[|bodies|..] == Requests(more).0[|bodies[1..]|..];
    }
  }

  /** Behind them the stream ends cleanly only if nothing follows: a frame cut short, or one
      that holds no request, breaks it. */
  lemma StreamEndsOrBreaks(body: Bytes, k: nat, rest: Bytes)
    requires |body| <= Framing.MAX_MESSAGE
    ensures Requests([]) == ([], true)
    ensures 0 < k < |Framing.Write(body)| ==> Requests(Framing.Write(body)[..k]) == ([], false)
    ensures ParseRequest(body).Err? ==> Requests(Framing.Write(body) + rest) == ([], false)
  {
    hide Framing.Read, Framing.Write, ParseRequest;
    Framing.EmptyIsEof();
    Framing.RoundTrip(body, rest);
    if 0 < k < |Framing.Write(body)| {
      Framing.PrefixIsBroken(body, k);
    }
  }

  function ReplyBytes(replies: seq<WorkResponse>): seq<Bytes>
    decreases |replies|
  {
    if replies == [] then [] else [replies[0].bytes] + ReplyBytes(replies[1..])
  }

  /** A request from the stream is small enough for everything that handles it. */
  lemma StreamRequestIsReceived(s: Bytes)
    requires Framing.Read(s).Message? && ParseRequest(Framing.Read(s).body).Ok?
    ensures var r := ParseRequest(Framing.Read(s).body).value;
            Received(r) && Signature.Representable(r.arguments, r.inputs)
  {
    hide ParseRequest, Utf8.Encode;
    var body := Framing.Read(s).body;
    var r := ParseRequest(body).value;
    RequestIsWithin(body);
    PrintsBack(body);
    assert forall x :: x in r.inputs ==> InputWithin(x, |body|);
  }

  lemma PrintsBack(body: Bytes)
    requires ParseRequest(body).Ok?
    ensures Parsed(ParseRequest(body).value)
  {
    ParsedPrintsBack(body);
  }

  ghost predicate AllRootsFit(w: World) {
    forall o :: o in w.states ==> RootFits(w.states[o].root)
  }

  lemma StepKeepsFit(host: Host, w: World, r: WorkRequest, m: Moment)
    requires AllRootsFit(w) && RootFits(m.freshRoot)
    ensures AllRootsFit(Step(host, w, r, m).0)
    ensures WellFormed(r.arguments) ==> RootFits(Prepared(host, w, r, m).1.root)
  {
    hide Attempt, Prepared, RootFits;
    if WellFormed(r.arguments) {
      PreparedFits(host, w, r, m);
      var (ready, state) := Prepared(host, w, r, m);
      StatesOnlyShrink(host, ready, OutputOf(host, r), state, r, m);
    }
  }

  lemma PreparedFits(host: Host, w: World, r: WorkRequest, m: Moment)
    requires AllRootsFit(w) && RootFits(m.freshRoot) && WellFormed(r.arguments)
    ensures AllRootsFit(Prepared(host, w, r, m).0) && RootFits(Prepared(host, w, r, m).1.root)
  {
    hide RootFits, SignatureOf;
  }

  lemma StatesOnlyShrink(host: Host, w: World, output: string, state: State, r: WorkRequest, m: Moment)
    requires WellFormed(r.arguments)
    ensures forall o :: o in Attempt(host, w, output, state, r, m).0.states ==>
              o in w.states && Attempt(host, w, output, state, r, m).0.states[o] == w.states[o]
  {
    hide WithArguments, Reply, Rewritten;
  }

  lemma ReplyIsParsed(compiler: Option<Bytes>, forwarded: WorkRequest, m: Moment)
    requires Reply(compiler, forwarded, m).Some?
    ensures var reply := Reply(compiler, forwarded, m).value.response;
            && reply.requestId == forwarded.requestId
            && ParseResponse(reply.bytes) == Ok(reply)
            && |reply.bytes| <= Framing.MAX_MESSAGE
  {
    hide Wire.Fields, AbsorbReplies;
    var body := Framing.Read(Running(compiler, m).value + m.stdout).body;
    ReplyKeepsBytes(WorkResponse(body, 0, 0, ""), Wire.Fields(body).value);
  }

  lemma StepRepliesMatch(host: Host, w: World, r: WorkRequest, m: Moment)
    requires Received(r) && AllRootsFit(w) && RootFits(m.freshRoot)
    requires Step(host, w, r, m).1.Replied?
    ensures var reply := Step(host, w, r, m).1.response;
            && reply.requestId == r.requestId
            && ParseResponse(reply.bytes) == Ok(reply)
            && |reply.bytes| <= Framing.MAX_MESSAGE
  {
    hide WithArguments, Rewritten, Reply, Received, RootFits, ParseResponse, Prepared;
    var (ready, state) := Prepared(host, w, r, m);
    StepKeepsFit(host, w, r, m);
    ForwardedIs(r, state.root);
    var forwarded := WithArguments(r, Rewritten(r.arguments, state.root)).value;
    ReplyIsParsed(ready.compiler, forwarded, m);
  }

  /** Exception texts that fit in a message together with the rest of an error reply. */
  predicate TextFits(m: Moment) {
    |Utf8.Encode(m.failure)| + 64 <= Framing.MAX_MESSAGE
  }

  lemma ErrorSize(requestId: int, message: string)
    requires Fits(message)
    ensures |ErrorBytes(requestId, message)| <= |Utf8.Encode(message)| + 64
  {
    hide Varint.Write, Utf8.Encode, Varint.Read;
    Varint.RoundTrip(8, []);
    Varint.RoundTrip(1, []);
    Varint.RoundTrip(18, []);
    Varint.RoundTrip(24, []);
    Varint.RoundTrip(|Utf8.Encode(message)|, []);
    Varint.RoundTrip(Varint.FromInt(requestId), []);
  }

  lemma ThrowsItsFailure(host: Host, w: World, r: WorkRequest, m: Moment)
    ensures Step(host, w, r, m).1.Threw? ==> Step(host, w, r, m).1.message == m.failure
  {
    hide WithArguments, Rewritten, Reply, Prepared;
  }

  /** A reply with the request's id, readable as written. */
  predicate Matches(reply: WorkResponse, r: WorkRequest) {
    reply.requestId == r.requestId && ParseResponse(reply.bytes) == Ok(reply)
  }

  /** One request, one reply with its id: the compiler's own response, or exit code 1 and the
      text of the exception. The exit code is 0 exactly when the request succeeded. */
  lemma RespondMatches(host: Host, w: World, r: WorkRequest, m: Moment)
    requires Received(r) && AllRootsFit(w) && RootFits(m.freshRoot) && Fits(m.failure)
    ensures var reply := Respond(r, Step(host, w, r, m).1);
            && reply.Ok? && Matches(reply.value, r)
            && (TextFits(m) ==> |reply.value.bytes| <= Framing.MAX_MESSAGE)
            && (reply.value.exitCode == 0 <==> CacheTransparency.Succeeded(Step(host, w, r, m).1))
            && (Step(host, w, r, m).1.Replied? ==> reply.value == Step(host, w, r, m).1.response)
            && (Step(host, w, r, m).1.Threw? ==> reply.value.exitCode == 1 && reply.value.output == m.failure)
  {
    hide Step, Received, RootFits, ErrorBytes, Utf8.Encode;
    ThrowsItsFailure(host, w, r, m);
    CacheTransparency.ReceivedIdIsInt(r);
    if Step(host, w, r, m).1.Replied? {
      StepRepliesMatch(host, w, r, m);
    } else {
      ErrorRoundTrip(r.requestId, m.failure);
      ErrorSize(r.requestId, m.failure);
    }
  }

  /** Request/response pairing. Over every input stream the loop writes exactly one reply
      per parsed request, in order, each with its request's id and readable as written;
      and it ends normally exactly when the stream does. */
  lemma {:induction false} Pairing(host: Host, w: World, s: Bytes, moments: nat -> Moment, k: nat)
    requires AllRootsFit(w)
    requires forall i :: i >= k ==> RootFits(moments(i).freshRoot) && Fits(moments(i).failure)
    ensures var served, requests := Serve(host, w, s, moments, k), Requests(s);
            && |served.replies| == |requests.0|
            && served.finished == requests.1
            && forall i :: 0 <= i < |requests.0| ==> Matches(served.replies[i], requests.0[i])
    decreases |s|
  {
    hide Step, Respond, Framing.Read, ParseRequest, Received, RootFits, Matches;
    var frame := Framing.Read(s);
    if frame.Message? && ParseRequest(frame.body).Ok? {
      var r, m := ParseRequest(frame.body).value, moments(k);
      StreamRequestIsReceived(s);
      RespondMatches(host, w, r, m);
      StepKeepsFit(host, w, r, m);
      ReadShrinks(s);
      Pairing(host, Step(host, w, r, m).0, frame.rest, moments, k + 1);
    }
  }

  lemma ReadShrinks(s: Bytes)
    requires Framing.Read(s).Message?
    ensures |Framing.Read(s).rest| < |s|
  {
  }

  /** Where exception texts fit in a message, every reply does. */
  lemma {:induction false} RepliesFit(host: Host, w: World, s: Bytes, moments: nat -> Moment, k: nat)
    requires AllRootsFit(w)
    requires forall i :: i >= k ==> RootFits(moments(i).freshRoot) && TextFits(moments(i))
    ensures forall b :: b in ReplyBytes(Serve(host, w, s, moments, k).replies) ==> |b| <= Framing.MAX_MESSAGE
    decreases |s|
  {
    hide Step, Respond, Framing.Read, ParseRequest, Received, RootFits, TextFits, Matches, Fits;
    var frame := Framing.Read(s);
    if frame.Message? && ParseRequest(frame.body).Ok? {
      var r, m := ParseRequest(frame.body).value, moments(k);
      StreamRequestIsReceived(s);
      FailureFits(m);
      RespondMatches(host, w, r, m);
      StepKeepsFit(host, w, r, m);
      ReadShrinks(s);
      var (after, handled) := Step(host, w, r, m);
      RepliesFit(host, after, frame.rest, moments, k + 1);
      FirstBytes(Respond(r, handled).value, Serve(host, after, frame.rest, moments, k + 1).replies);
    }
  }

  lemma FirstBytes(reply: WorkResponse, more: seq<WorkResponse>)
    ensures ReplyBytes([reply] + more) == [reply.bytes] + ReplyBytes(more)
  {
    assert ([reply] + more)[1..] == more;
  }

  /** Whoever reads the output stream back gets the replies and a clean end. */
  lemma OutputReadsBack(host: Host, w: World, s: Bytes, moments: nat -> Moment)
    requires AllRootsFit(w)
    requires forall i :: i >= 0 ==> RootFits(moments(i).freshRoot) && TextFits(moments(i))
    ensures var bodies := ReplyBytes(Serve(host, w, s, moments, 0).replies);
            Framing.ReadAll(Framing.WriteAll(bodies)) == (bodies, true)
  {
    hide Serve, Framing.ReadAll, Framing.WriteAll, RootFits, TextFits;
    RepliesFit(host, w, s, moments, 0);
    Framing.StreamRoundTrip(ReplyBytes(Serve(host, w, s, moments, 0).replies));
  }

  // ------------------------------------------- transparency of the whole loop

  /** The run that the loop makes: one turn per request, each in the world before it. */
  function Turns(host: Host, w: World, s: Bytes, moments: nat -> Moment, k: nat): seq<CacheTransparency.Turn>
    decreases |s|
  {
    match Framing.Read(s)
    case Eof => []
    case Broken(_) => []
    case Message(body, rest) =>
      match ParseRequest(body)
      case Err(_) => []
      case Ok(r) =>
        var t := CacheTransparency.TurnOf(host, w, r, moments(k));
        [t] + Turns(host, t.after, rest, moments, k + 1)
  }

  /** A turn of the loop is made by the worker in the world that the turn before left. */
  predicate Chained(host: Host, w: World, turns: seq<CacheTransparency.Turn>, moments: nat -> Moment, k: nat, i: nat)
    requires i < |turns|
  {
    var t := turns[i];
    && (t.after, t.handled) == Step(host, t.before, t.request, t.moment)
    && t.moment == moments(k + i)
    && t.before == (if i == 0 then w else turns[i - 1].after)
  }

  lemma {:induction false} TurnsAreChained(host: Host, w: World, s: Bytes, moments: nat -> Moment, k: nat, i: nat)
    requires i < |Turns(host, w, s, moments, k)|
    ensures Chained(host, w, Turns(host, w, s, moments, k), moments, k, i)
    decreases |s|
  {
    hide Step, Framing.Read, ParseRequest;
    var frame := Framing.Read(s);
    ReadShrinks(s);
    var turns := Turns(host, w, s, moments, k);
    var t := turns[0];
    var rest := Turns(host, t.after, frame.rest, moments, k + 1);
    assert turns == [t] + rest;
    if i == 0 {
    } else {
      TurnsAreChained(host, t.after, frame.rest, moments, k + 1, i - 1);
      assert turns[i] == rest[i - 1];
      assert i > 1 ==> turns[i - 1] == rest[i - 2];
    }
  }

  /** The loop runs `handle` on its requests, one turn each, and replies what each turn
      came to. */
  lemma {:induction false} LoopRunsItsRequests(host: Host, w: World, s: Bytes, moments: nat -> Moment, k: nat)
    requires AllRootsFit(w)
    requires forall i :: i >= k ==> RootFits(moments(i).freshRoot) && Fits(moments(i).failure)
    ensures var served, rs, turns := Serve(host, w, s, moments, k), Requests(s).0, Turns(host, w, s, moments, k);
            && |turns| == |served.replies| == |rs|
            && served.world == (if turns == [] then w else turns[|turns| - 1].after)
            && forall i :: 0 <= i < |rs| ==>
                 turns[i].request == rs[i] && Respond(rs[i], turns[i].handled) == Ok(served.replies[i])
    decreases |s|
  {
    hide Step, Respond, Framing.Read, ParseRequest, Received, RootFits, Matches;
    var frame := Framing.Read(s);
    if frame.Message? && ParseRequest(frame.body).Ok? {
      var r, m := ParseRequest(frame.body).value, moments(k);
      StreamRequestIsReceived(s);
      RespondMatches(host, w, r, m);
      StepKeepsFit(host, w, r, m);
      ReadShrinks(s);
      LoopRunsItsRequests(host, Step(host, w, r, m).0, frame.rest, moments, k + 1);
    }
  }

  lemma {:induction false} RequestsAreReceived(s: Bytes)
    ensures forall r :: r in Requests(s).0 ==> Received(r) && Signature.Representable(r.arguments, r.inputs)
    decreases |s|
  {
    hide Framing.Read, ParseRequest, Received, Signature.Representable;
    var frame := Framing.Read(s);
    if frame.Message? && ParseRequest(frame.body).Ok? {
      StreamRequestIsReceived(s);
      ReadShrinks(s);
      RequestsAreReceived(frame.rest);
    }
  }

  /** The error reply has exit code 1, so exit code 0 comes from the compiler. */
  lemma ZeroMeansSuccess(r: WorkRequest, handled: Handled, reply: WorkResponse)
    requires Received(r) && Respond(r, handled) == Ok(reply) && reply.exitCode == 0
    requires handled.Threw? ==> Fits(handled.message)
    ensures CacheTransparency.Succeeded(handled)
  {
    hide Received, ErrorResponse;
    CacheTransparency.ReceivedIdIsInt(r);
    if handled.Threw? {
      ErrorRoundTrip(r.requestId, handled.message);
    }
  }

  /** What the file system and the compiler guarantee of a turn. */
  ghost predicate Guaranteed(clean: CacheTransparency.Compiler, host: Host, t: CacheTransparency.Turn) {
    Fresh(host, t.before, t.request, t.moment) && CacheTransparency.Honest(clean, host, t)
  }

  lemma LoopIsLegal(clean: CacheTransparency.Compiler, host: Host, w: World, s: Bytes, moments: nat -> Moment)
    requires w == Reset(w)
    requires forall j :: j >= 0 ==> RootFits(moments(j).freshRoot) && Fits(moments(j).failure)
    requires forall t :: t in Turns(host, w, s, moments, 0) ==> Guaranteed(clean, host, t)
    ensures CacheTransparency.LegalRun(clean, host, Turns(host, w, s, moments, 0))
  {
    hide Step, Serve, Requests, Turns, Received, RootFits, Signature.Representable, Fresh, Respond,
         CacheTransparency.Honest;
    var turns, rs := Turns(host, w, s, moments, 0), Requests(s).0;
    RequestsAreReceived(s);
    LoopRunsItsRequests(host, w, s, moments, 0);
    forall i | 0 <= i < |turns|
      ensures CacheTransparency.GoodTurn(clean, host, turns, i)
    {
      TurnsAreChained(host, w, s, moments, 0, i);
      assert turns[i].request == rs[i] && rs[i] in rs;
      assert turns[i] in turns;
    }
  }

  /** End to end: started empty, the persistent loop answers with exit code 0 only when
      the jar it has just published is the clean compile of that request, whatever the
      stream holds, given fresh directory names, an honest compiler and the two side
      conditions on signatures. */
  lemma LoopIsTransparent(
    clean: CacheTransparency.Compiler, host: Host, w: World, s: Bytes, moments: nat -> Moment,
    turns: seq<CacheTransparency.Turn>, replies: seq<WorkResponse>, i: nat)
    requires w == Reset(w)
    requires forall j :: j >= 0 ==> RootFits(moments(j).freshRoot) && Fits(moments(j).failure)
    requires turns == Turns(host, w, s, moments, 0) && replies == Serve(host, w, s, moments, 0).replies
    requires CacheTransparency.NoCollision(host, turns) && CacheTransparency.CountsAgree(host, turns)
    requires forall t :: t in turns ==> Guaranteed(clean, host, t)
    requires i < |replies| && replies[i].exitCode == 0
    ensures |turns| == |replies| == |Requests(s).0|
    ensures turns[i].request == Requests(s).0[i]
    ensures CacheTransparency.PublishesClean(clean, host, turns[i])
  {
    hide Step, Serve, Requests, Turns, Received, RootFits, Signature.Representable, Guaranteed, Respond,
         CacheTransparency.NoCollision, CacheTransparency.CountsAgree, CacheTransparency.LegalRun;
    var rs := Requests(s).0;
    RequestsAreReceived(s);
    LoopRunsItsRequests(host, w, s, moments, 0);
    TurnsAreChained(host, w, s, moments, 0, i);
    LoopIsLegal(clean, host, w, s, moments);
    var t := turns[i];
    assert t.request == rs[i] && rs[i] in rs;
    ThrowsItsFailure(host, t.before, t.request, t.moment);
    assert t.moment == moments(i);
    ZeroMeansSuccess(rs[i], t.handled, replies[i]);
    CacheTransparency.CacheTransparency(clean, host, turns, i);
  }

  lemma FailureFits(m: Moment)
    requires TextFits(m)
    ensures Fits(m.failure)
  {
  }

  lemma {:induction false} WriteAllAppend(bodies: seq<Bytes>, last: Bytes)
    ensures Framing.WriteAll(bodies + [last]) == Framing.WriteAll(bodies) + Framing.Write(last)
    decreases |bodies|
  {
    hide Framing.Write;
    if bodies == [] {
      assert [last][1..] == [];
    } else {
      calc {
        Framing.WriteAll(bodies + [last]);
        { assert (bodies + [last])[0] == bodies[0] && (bodies + [last])[1..] == bodies[1..] + [last]; }
        Framing.Write(bodies[0]) + Framing.WriteAll(bodies[1..] + [last]);
        { WriteAllAppend(bodies[1..], last); }
        Framing.Write(bodies[0]) + (Framing.WriteAll(bodies[1..]) + Framing.Write(last));
        Framing.WriteAll(bodies) + Framing.Write(last);
      }
    }
  }

  lemma {:induction false} ReplyBytesAppend(replies: seq<WorkResponse>, last: WorkResponse)
    ensures ReplyBytes(replies + [last]) == ReplyBytes(replies) + [last.bytes]
    decreases |replies|
  {
    if replies == [] {
      assert [last][1..] == [];
    } else {
      ReplyBytesAppend(replies[1..], last);
      assert (replies + [last])[0] == replies[0] && (replies + [last])[1..] == replies[1..] + [last];
    }
  }

  lemma NothingWritten()
    ensures Framing.WriteAll(ReplyBytes([])) == []
  {
  }

  /** The persistent loop of `main`. */
  method ServeRequests(worker: Worker, input: Framing.InputStream, moments: nat -> Moment)
    returns (output: Bytes, finished: bool)
    modifies worker, input
    ensures var served := Serve(worker.host, old(worker.Snapshot()), old(input.remaining), moments, 0);
            && worker.Snapshot() == served.world
            && output == Framing.WriteAll(ReplyBytes(served.replies))
            && finished == served.finished
  {
    hide Step, Respond, Framing.Read, ParseRequest, Framing.Write, Framing.WriteAll, ReplyBytes;
    NothingWritten();
    ghost var whole := Serve(worker.host, worker.Snapshot(), input.remaining, moments, 0);
    ghost var replies: seq<WorkResponse> := [];
    output := [];
    var k := 0;
    assert forall rest: seq<WorkResponse> :: [] + rest == rest;
    while true
      invariant output == Framing.WriteAll(ReplyBytes(replies))
      invariant var more := Serve(worker.host, worker.Snapshot(), input.remaining, moments, k);
                whole == more.(replies := replies + more.replies)
      decreases |input.remaining|
    {
      ghost var s := input.remaining;
      assert replies + [] == replies;
      var frame := Framing.ReadFrame(input);
      if frame.Err? {
        finished := false;
        return;
      }
      if frame.value.None? {
        finished := true;
        return;
      }
      var request := ReadRequest(frame.value.value);
      if request.Err? {
        finished := false;
        return;
      }
      var handled := worker.Handle(request.value, moments(k));
      var response := Send(request.value, handled);
      if response.Err? {
        finished := false;
        return;
      }
      output := WriteResponse(output, response.value);
      WriteAllAppend(ReplyBytes(replies), response.value.bytes);
      ReplyBytesAppend(replies, response.value);
      assert forall rest: seq<WorkResponse> :: replies + ([response.value] + rest) == replies + [response.value] + rest;
      replies := replies + [response.value];
      k := k + 1;
      ReadShrinks(s);
    }
  }

  /** The response of one round, the `catch` of the loop included. */
  method Send(request: WorkRequest, handled: Handled) returns (response: Result<WorkResponse>)
    ensures response == Respond(request, handled)
  {
    match handled
    case Replied(r) => response := Ok(r);
    case Threw(message) => response := MakeError(request.requestId, message);
  }
}
