/**
 * The promise of `IncrementalWorker.handle` over whole runs: reusing compiler state is
 * invisible in the published jars.
 */
module CacheTransparency {
  import opened Common
  import opened IncrementalWorker
  import opened WorkMessages
  import Framing
  import GenWorkRequest
  import Signature
  import Utf8
  import Varint
  import Wire

  predicate Succeeded(handled: Handled) {
    handled.Replied? && handled.response.exitCode == 0
  }

  /** A clean compile: the tree that compiling into an empty root leaves. */
  type Compiler = (seq<string>, seq<Input>) -> Tree

  /** One call of `handle` in a run, with the worlds around it. */
  datatype Turn = Turn(request: WorkRequest, moment: Moment, before: World, handled: Handled, after: World)

  /** A root in which the native compiler promises a result as if it were empty: it is,
      or all compiles in it succeeded and the last had the same arguments and the same
      untracked inputs. */
  ghost predicate Compatible(log: seq<Compile>, r: WorkRequest) {
    log == [] ||
    (var last := log[|log| - 1].request;
     && (forall c :: c in log ==> c.reply.exitCode == 0)
     && last.arguments == r.arguments
     && Signature.SameElements(Signature.Untracked(r.arguments, last.inputs),
                               Signature.Untracked(r.arguments, r.inputs)))
  }

  /** The native compiler keeps its promise in this turn. */
  ghost predicate Honest(clean: Compiler, host: Host, t: Turn) {
    WellFormed(t.request.arguments) && Succeeded(t.handled) ==>
      var (ready, state) := Prepared(host, t.before, t.request, t.moment);
      Compatible(LogOf(ready, state.root), t.request) ==>
        t.moment.classes == clean(t.request.arguments, t.request.inputs)
  }

  /** What the world outside the worker guarantees of a turn. */
  ghost predicate Legal(clean: Compiler, host: Host, t: Turn) {
    && Received(t.request)
    && Signature.Representable(t.request.arguments, t.request.inputs)
    && Fresh(host, t.before, t.request, t.moment)
    && Honest(clean, host, t)
  }

  /** A turn is what the worker makes of its request in the world the turn before left;
      the first finds the worker empty. */
  predicate Follows(host: Host, turns: seq<Turn>, i: nat)
    requires i < |turns|
  {
    var t := turns[i];
    && (t.after, t.handled) == Step(host, t.before, t.request, t.moment)
    && (if i == 0 then t.before == Reset(t.before) else t.before == turns[i - 1].after)
  }

  ghost predicate GoodTurn(clean: Compiler, host: Host, turns: seq<Turn>, i: nat)
    requires i < |turns|
  {
    Follows(host, turns, i) && Legal(clean, host, turns[i])
  }

  ghost predicate LegalRun(clean: Compiler, host: Host, turns: seq<Turn>) {
    forall i :: 0 <= i < |turns| ==> GoodTurn(clean, host, turns, i)
  }

  /** No two requests of the run have the same signature by accident of the hash. */
  ghost predicate NoCollision(host: Host, turns: seq<Turn>) {
    forall a, b :: a in turns && b in turns && SignatureOf(host, a.request) == SignatureOf(host, b.request) ==>
      Signature.Preimage(a.request.arguments, a.request.inputs)
      == Signature.Preimage(b.request.arguments, b.request.inputs)
  }

  /** Two requests for one output that hash the same bytes. */
  predicate Confusable(host: Host, a: WorkRequest, b: WorkRequest) {
    && WellFormed(a.arguments) && WellFormed(b.arguments) && OutputOf(host, a) == OutputOf(host, b)
    && Signature.Preimage(a.arguments, a.inputs) == Signature.Preimage(b.arguments, b.inputs)
  }

  /** A request with inputs has as many arguments as any earlier one for the same output
      that hashes the same bytes. */
  ghost predicate CountsAgree(host: Host, turns: seq<Turn>) {
    forall i, j :: 0 <= i < j < |turns| && Confusable(host, turns[i].request, turns[j].request)
                   && turns[j].request.inputs != [] ==>
      |turns[i].request.arguments| == |turns[j].request.arguments|
  }

  ghost predicate Occurs(r: WorkRequest, turns: seq<Turn>) {
    exists t :: t in turns && t.request == r
  }

  /** Every logged compile was for a request of the run. */
  ghost predicate LogsFrom(w: World, turns: seq<Turn>) {
    forall o, c :: o in w.states && c in LogOf(w, w.states[o].root) ==> Occurs(c.request, turns)
  }

  lemma HitState(host: Host, w: World, r: WorkRequest, m: Moment)
    requires WellFormed(r.arguments) && Coherent(host, w) && Fresh(host, w, r, m)
    ensures var (ready, state) := Prepared(host, w, r, m);
            LogOf(ready, state.root) != [] ==>
              ready == w && OutputOf(host, r) in w.states && w.states[OutputOf(host, r)] == state
  {
  }

  lemma StepKeepsOrigins(host: Host, w: World, turns: seq<Turn>, r: WorkRequest, m: Moment)
    requires Coherent(host, w) && Fresh(host, w, r, m) && LogsFrom(w, turns) && Occurs(r, turns)
    ensures LogsFrom(Step(host, w, r, m).0, turns)
  {
    hide OneRootEach, SoundLog, Step, Fresh, Prepared, Occurs, SignatureOf;
    var (after, handled) := Step(host, w, r, m);
    StepEffect(host, w, r, m);
    if WellFormed(r.arguments) && handled.Replied? {
      var output := OutputOf(host, r);
      var (ready, state) := Prepared(host, w, r, m);
      StartsFreshUnlessHit(host, w, r, m);
      HitState(host, w, r, m);
      forall o, c | o in after.states && c in LogOf(after, after.states[o].root)
        ensures Occurs(c.request, turns)
      {
        if o != output {
          assert Untouched(w, after, o);
        } else if c in LogOf(ready, state.root) {
          assert ready == w && w.states[output] == state;
        }
      }
    }
  }

  lemma LaterLogs(w: World, turns: seq<Turn>, i: nat)
    requires i < |turns| && LogsFrom(w, turns[..i])
    ensures LogsFrom(w, turns[..i + 1])
  {
    forall o, c | o in w.states && c in LogOf(w, w.states[o].root)
      ensures Occurs(c.request, turns[..i + 1])
    {
      assert Occurs(c.request, turns[..i]);
      var t :| t in turns[..i] && t.request == c.request;
      assert t in turns[..i + 1];
    }
  }

  lemma TurnParts(clean: Compiler, host: Host, turns: seq<Turn>, i: nat)
    requires LegalRun(clean, host, turns) && i < |turns|
    ensures Follows(host, turns, i)
    ensures Received(turns[i].request) && Fresh(host, turns[i].before, turns[i].request, turns[i].moment)
    ensures Signature.Representable(turns[i].request.arguments, turns[i].request.inputs)
    ensures Honest(clean, host, turns[i])
    ensures Occurs(turns[i].request, turns[..i + 1])
  {
    hide Step, Received, Fresh, Signature.Representable, Honest;
    assert GoodTurn(clean, host, turns, i) && turns[i] in turns[..i + 1];
  }

  lemma StartsEmpty(host: Host, w: World, turns: seq<Turn>)
    requires w == Reset(w)
    ensures Coherent(host, w) && LogsFrom(w, turns)
  {
  }

  lemma FollowsStep(host: Host, turns: seq<Turn>, i: nat)
    requires i < |turns| && Follows(host, turns, i)
    ensures turns[i].after == Step(host, turns[i].before, turns[i].request, turns[i].moment).0
    ensures turns[i].handled == Step(host, turns[i].before, turns[i].request, turns[i].moment).1
    ensures i == 0 ==> turns[i].before == Reset(turns[i].before)
    ensures i > 0 ==> turns[i].before == turns[i - 1].after
  {
    hide Step;
  }

  /** Every state that a run reaches is coherent, and its logs hold only requests of the
      run up to then. */
  lemma {:induction false} ReachableIsCoherent(clean: Compiler, host: Host, turns: seq<Turn>, i: nat)
    requires LegalRun(clean, host, turns) && i < |turns|
    ensures Coherent(host, turns[i].before) && LogsFrom(turns[i].before, turns[..i])
    ensures Coherent(host, turns[i].after) && LogsFrom(turns[i].after, turns[..i + 1])
    decreases i
  {
    hide Coherent, LogsFrom, Step, LegalRun, Follows, Received, Fresh, Signature.Representable, Honest, Occurs;
    var t := turns[i];
    TurnParts(clean, host, turns, i);
    FollowsStep(host, turns, i);
    if i == 0 {
      StartsEmpty(host, t.before, turns[..0]);
    } else {
      ReachableIsCoherent(clean, host, turns, i - 1);
    }
    StepKeepsCoherent(host, t.before, t.request, t.moment);
    LaterLogs(t.before, turns, i);
    StepKeepsOrigins(host, t.before, turns[..i + 1], t.request, t.moment);
  }

  /** A hit means what it should: the root was last used for the same arguments and the
      same untracked inputs. */
  lemma HitIsFaithful(host: Host, w: World, turns: seq<Turn>, i: nat)
    requires i < |turns| && Coherent(host, w) && LogsFrom(w, turns[..i])
    requires NoCollision(host, turns) && CountsAgree(host, turns)
    requires forall t :: t in turns ==> Signature.Representable(t.request.arguments, t.request.inputs)
    requires WellFormed(turns[i].request.arguments) && Hit(host, w, turns[i].request)
    ensures Compatible(LogOf(w, w.states[OutputOf(host, turns[i].request)].root), turns[i].request)
  {
    hide Signature.Preimage, Signature.Hashed, Signature.Untracked, Signature.Representable, OneRootEach;
    var r := turns[i].request;
    var output := OutputOf(host, r);
    var log := LogOf(w, w.states[output].root);
    assert SoundLog(host, w, output);
    var last := log[|log| - 1];
    assert last in log && Sound(host, output, w.states[output], last);
    assert Occurs(last.request, turns[..i]);
    var a :| a in turns[..i] && a.request == last.request;
    var k :| 0 <= k < i && turns[k] == a;
    var earlier := a.request;
    assert a in turns && turns[i] in turns;
    assert Confusable(host, earlier, r);
    Signature.PreimageDecides(earlier.arguments, earlier.inputs, r.arguments, r.inputs);
    SameHashedSameUntracked(r.arguments, earlier.inputs, r.inputs);
  }

  lemma SameHashedSameUntracked(args: seq<string>, inputs: seq<Input>, inputs': seq<Input>)
    requires Signature.Hashed(args, inputs) == Signature.Hashed(args, inputs')
    ensures Signature.SameElements(Signature.Untracked(args, inputs), Signature.Untracked(args, inputs'))
  {
    hide Signature.Hashed, Signature.Tracked;
    Signature.HashedElements(args, inputs);
    Signature.HashedElements(args, inputs');
    forall x
      ensures x in Signature.Untracked(args, inputs) <==> x in Signature.Untracked(args, inputs')
    {
      assert x in Signature.Hashed(args, inputs) <==> x in Signature.Hashed(args, inputs');
    }
  }

  lemma CoherentRoots(host: Host, w: World)
    requires Coherent(host, w)
    ensures OneRootEach(w)
  {
  }

  lemma NothingIsCompatible(r: WorkRequest)
    ensures Compatible([], r)
  {
  }

  lemma AllRepresentable(clean: Compiler, host: Host, turns: seq<Turn>)
    requires LegalRun(clean, host, turns)
    ensures forall t :: t in turns ==> Signature.Representable(t.request.arguments, t.request.inputs)
  {
    hide LegalRun, Signature.Representable, Received, Honest, Follows, Fresh;
    forall t | t in turns
      ensures Signature.Representable(t.request.arguments, t.request.inputs)
    {
      var i :| 0 <= i < |turns| && turns[i] == t;
      TurnParts(clean, host, turns, i);
    }
  }

  /** The root that a turn starts from is one in which the compiler's promise holds. */
  lemma StartIsCompatible(clean: Compiler, host: Host, turns: seq<Turn>, i: nat)
    requires LegalRun(clean, host, turns) && NoCollision(host, turns) && CountsAgree(host, turns)
    requires i < |turns| && WellFormed(turns[i].request.arguments)
    ensures var t := turns[i];
            var (ready, state) := Prepared(host, t.before, t.request, t.moment);
            Compatible(LogOf(ready, state.root), t.request)
  {
    hide Coherent, LogsFrom, Prepared, Compatible, Hit, NoCollision, CountsAgree, OneRootEach, Fresh, Follows,
         LegalRun, Occurs, Received, Signature.Representable, Honest;
    var t := turns[i];
    TurnParts(clean, host, turns, i);
    ReachableIsCoherent(clean, host, turns, i);
    StartsFreshUnlessHit(host, t.before, t.request, t.moment);
    if Hit(host, t.before, t.request) {
      AllRepresentable(clean, host, turns);
      HitIsFaithful(host, t.before, turns, i);
      HitState(host, t.before, t.request, t.moment);
    } else {
      NothingIsCompatible(t.request);
    }
  }

  /** The jar in place after the turn is that of a clean compile of its own arguments and
      inputs. */
  ghost predicate PublishesClean(clean: Compiler, host: Host, t: Turn) {
    && WellFormed(t.request.arguments)
    && OutputOf(host, t.request) in t.after.jars
    && t.after.jars[OutputOf(host, t.request)] == host.pack(clean(t.request.arguments, t.request.inputs))
  }

  /** Cache transparency. Over any run that mixes outputs, successes, compile failures and
      exceptions, each request that succeeds publishes the jar of a clean compile of its
      own arguments and inputs, given an honest compiler, a hash without collisions in
      the run, and, for requests with inputs, argument counts that agree with earlier ones
      where the hashed bytes do. */
  lemma CacheTransparency(clean: Compiler, host: Host, turns: seq<Turn>, i: nat)
    requires LegalRun(clean, host, turns)
    requires NoCollision(host, turns) && CountsAgree(host, turns)
    requires i < |turns| && Succeeded(turns[i].handled)
    ensures PublishesClean(clean, host, turns[i])
  {
    hide Coherent, LogsFrom, Step, Prepared, Compatible, NoCollision, CountsAgree, OneRootEach, Fresh, Follows,
         LegalRun, Occurs, Received, Signature.Representable;
    var t := turns[i];
    TurnParts(clean, host, turns, i);
    FollowsStep(host, turns, i);
    ReachableIsCoherent(clean, host, turns, i);
    CoherentRoots(host, t.before);
    StepEffect(host, t.before, t.request, t.moment);
    StartIsCompatible(clean, host, turns, i);
  }

  /** No unread answers. With a compiler that answers each request once, its output holds
      nothing unread between the calls of a run, and each reply is the answer given in its
      own call. */
  lemma {:induction false} RepliesAreOwn(host: Host, turns: seq<Turn>, i: nat)
    requires i < |turns| && forall j :: 0 <= j <= i ==> Follows(host, turns, j) && AnswersOnce(turns[j].moment)
    ensures Quiet(turns[i].before) && Quiet(turns[i].after)
    ensures var stdout := Framing.Read(turns[i].moment.stdout);
            turns[i].handled.Replied? ==> stdout.Message? && ParseResponse(stdout.body) == Ok(turns[i].handled.response)
    decreases i
  {
    hide Step, AnswersOnce, ParseResponse, Framing.Read;
    var t := turns[i];
    FollowsStep(host, turns, i);
    if i == 0 {
    } else {
      RepliesAreOwn(host, turns, i - 1);
    }
    StepKeepsQuiet(host, t.before, t.request, t.moment);
  }

  // --------------------------------------------- the side condition is needed

  /** A success with the given id and nothing else. */
  function PlainReply(requestId: int): Bytes {
    ScalarField(3, Varint.FromInt(requestId)).raw
  }

  lemma PlainReplyParses(requestId: int)
    requires -Varint.TWO_TO_31 <= requestId < Varint.TWO_TO_31
    ensures ParseResponse(PlainReply(requestId)) == Ok(WorkResponse(PlainReply(requestId), 0, requestId, ""))
    ensures |PlainReply(requestId)| <= 20
  {
    hide Wire.Parse, Varint.Write, Wire.Standalone;
    var id := Varint.FromInt(requestId);
    var f := ScalarField(3, id);
    ScalarFieldStands(3, id);
    Varint.IntSurvives(requestId);
    Varint.RoundTrip(id, []);
    Varint.RoundTrip(24, []);
    assert [f][1..] == [];
    assert Wire.Raw([f]) == f.raw;
    Wire.RawParsesBack([f]);
    var r := WorkResponse(f.raw, 0, 0, "");
    assert AbsorbReply(r, f) == Ok(r.(requestId := requestId));
    assert AbsorbReplies(r.(requestId := requestId), []) == Ok(r.(requestId := requestId));
  }

  /** A call in which everything goes well and the compiler leaves `classes`. */
  function SmoothMoment(requestId: int, classes: Tree): Moment {
    Moment("t", true, true, Framing.Write(PlainReply(requestId)), classes, true, None, "")
  }

  lemma SmoothSucceeds(host: Host, w: World, r: WorkRequest, classes: Tree)
    requires OneRootEach(w) && Quiet(w) && Received(r) && WellFormed(r.arguments)
    requires Fresh(host, w, r, SmoothMoment(r.requestId, classes))
    ensures Succeeded(Step(host, w, r, SmoothMoment(r.requestId, classes)).1)
    ensures Quiet(Step(host, w, r, SmoothMoment(r.requestId, classes)).0)
  {
    hide Step, OneRootEach, PlainReply, Fresh, Received;
    var m := SmoothMoment(r.requestId, classes);
    ReceivedIdIsInt(r);
    PlainReplyParses(r.requestId);
    Framing.RoundTrip(PlainReply(r.requestId), []);
    assert m.stdout + [] == m.stdout && [] + m.stdout == m.stdout;
    SucceedsExactlyWhen(host, w, r, m);
    StepKeepsQuiet(host, w, r, m);
  }

  lemma ReceivedIdIsInt(r: WorkRequest)
    requires Received(r)
    ensures -Varint.TWO_TO_31 <= r.requestId < Varint.TWO_TO_31
  {
    RequestIdIsInt(Body(r));
  }

  lemma ShortRootFits()
    ensures RootFits("t")
  {
    Utf8.EncodeSize(Classes("t"));
    Utf8.EncodeSize(Cache("t"));
  }

  function TurnOf(host: Host, w: World, r: WorkRequest, m: Moment): Turn {
    var (after, handled) := Step(host, w, r, m);
    Turn(r, m, w, handled, after)
  }

  lemma CleanIsHonest(clean: Compiler, host: Host, t: Turn)
    requires t.moment.classes == clean(t.request.arguments, t.request.inputs)
    ensures Honest(clean, host, t)
  {
  }

  /** What a first success leaves behind. */
  lemma FirstLeaves(host: Host, w0: World, r: WorkRequest, classes: Tree)
    requires w0 == Reset(w0) && Received(r) && WellFormed(r.arguments)
    ensures var m := SmoothMoment(r.requestId, classes);
            var w1 := Step(host, w0, r, m).0;
            var output := OutputOf(host, r);
            && Fresh(host, w0, r, m) && Coherent(host, w1) && Quiet(w1)
            && output in w1.states && w1.states[output] == State(SignatureOf(host, r), "t")
            && (var log := LogOf(w1, "t"); log != [] && log[|log| - 1].request == r)
  {
    hide Coherent, Step, Received, OneRootEach, PlainReply, SignatureOf, RootFits;
    var m := SmoothMoment(r.requestId, classes);
    ShortRootFits();
    EmptyIsCoherent(host, w0);
    CoherentRoots(host, w0);
    SmoothSucceeds(host, w0, r, classes);
    StepEffect(host, w0, r, m);
    StepKeepsCoherent(host, w0, r, m);
  }

  lemma FirstIsLegal(clean: Compiler, host: Host, w0: World, a: WorkRequest)
    requires w0 == Reset(w0) && Received(a) && WellFormed(a.arguments)
    requires Signature.Representable(a.arguments, a.inputs)
    ensures var t := TurnOf(host, w0, a, SmoothMoment(a.requestId, clean(a.arguments, a.inputs)));
            var output := OutputOf(host, a);
            && Legal(clean, host, t)
            && Coherent(host, t.after) && Quiet(t.after)
            && output in t.after.states && t.after.states[output] == State(SignatureOf(host, a), "t")
            && (var log := LogOf(t.after, "t"); log != [] && log[|log| - 1].request == a)
  {
    hide Coherent, Step, Received, Signature.Representable, PlainReply, SignatureOf, Honest, Fresh, LogOf, Quiet;
    var tree := clean(a.arguments, a.inputs);
    FirstLeaves(host, w0, a, tree);
    CleanIsHonest(clean, host, TurnOf(host, w0, a, SmoothMoment(a.requestId, tree)));
  }

  lemma SecondIsLegal(clean: Compiler, host: Host, w1: World, b: WorkRequest, tree: Tree)
    requires Coherent(host, w1) && Quiet(w1) && Received(b) && WellFormed(b.arguments)
    requires Signature.Representable(b.arguments, b.inputs)
    requires Hit(host, w1, b) && w1.states[OutputOf(host, b)].root == "t"
    requires var log := LogOf(w1, "t"); log != [] && log[|log| - 1].request.arguments != b.arguments
    ensures var t := TurnOf(host, w1, b, SmoothMoment(b.requestId, tree));
            && Legal(clean, host, t)
            && Succeeded(t.handled)
            && OutputOf(host, b) in t.after.jars && t.after.jars[OutputOf(host, b)] == host.pack(tree)
  {
    hide Coherent, Step, Received, Signature.Representable, OneRootEach, PlainReply, SignatureOf;
    var m := SmoothMoment(b.requestId, tree);
    ShortRootFits();
    CoherentRoots(host, w1);
    DropKeepsRoots(w1, OutputOf(host, b));
    SmoothSucceeds(host, w1, b, tree);
    StepEffect(host, w1, b, m);
  }

  lemma LegalPair(clean: Compiler, host: Host, first: Turn, second: Turn)
    requires Legal(clean, host, first) && Legal(clean, host, second)
    requires first == TurnOf(host, first.before, first.request, first.moment)
    requires second == TurnOf(host, first.after, second.request, second.moment)
    requires first.before == Reset(first.before)
    ensures LegalRun(clean, host, [first, second])
  {
    hide Step, Legal;
  }

  /** Without agreeing counts nothing is promised. For any two requests for one output
      that hash the same bytes but differ in their number of arguments, the second with
      inputs, there is a legal run of just these two, with a compiler that honours its
      contract throughout, in which the second succeeds and publishes the jar of any
      tree whatever. */
  lemma CountsAreNeeded(clean: Compiler, host: Host, a: WorkRequest, b: WorkRequest, tree: Tree)
    returns (turns: seq<Turn>)
    requires Received(a) && Received(b)
    requires Signature.Representable(a.arguments, a.inputs) && Signature.Representable(b.arguments, b.inputs)
    requires Confusable(host, a, b) && |a.arguments| != |b.arguments| && b.inputs != []
    ensures |turns| == 2 && turns[0].request == a && turns[1].request == b
    ensures LegalRun(clean, host, turns) && Succeeded(turns[1].handled)
    ensures var jars := turns[1].after.jars;
            OutputOf(host, b) in jars && jars[OutputOf(host, b)] == host.pack(tree)
  {
    hide Coherent, Step, Received, Legal, Signature.Representable, Signature.Preimage, LegalRun;
    var w0 := World(map[], None, map[], map[]);
    var first := TurnOf(host, w0, a, SmoothMoment(a.requestId, clean(a.arguments, a.inputs)));
    var second := TurnOf(host, first.after, b, SmoothMoment(b.requestId, tree));
    turns := [first, second];
    FirstIsLegal(clean, host, w0, a);
    SecondIsLegal(clean, host, first.after, b, tree);
    LegalPair(clean, host, first, second);
  }

  /** A legal run of `a` and then `b` in which `b` succeeds and its jar is wrong. */
  ghost predicate Misleads(clean: Compiler, host: Host, turns: seq<Turn>, a: WorkRequest, b: WorkRequest) {
    && |turns| == 2 && turns[0].request == a && turns[1].request == b
    && LegalRun(clean, host, turns) && Succeeded(turns[1].handled) && !PublishesClean(clean, host, turns[1])
  }

  /** What the side condition shuts out, and nothing else: one request can mislead the
      worker about the next exactly when the two are for one output, hash the same bytes,
      differ in their number of arguments, and the second has inputs. */
  lemma MisleadsExactlyWhen(clean: Compiler, host: Host, a: WorkRequest, b: WorkRequest, tree: Tree)
    requires Received(a) && Received(b)
    requires Signature.Representable(a.arguments, a.inputs) && Signature.Representable(b.arguments, b.inputs)
    requires host.pack(tree) != host.pack(clean(b.arguments, b.inputs))
    requires SignatureOf(host, a) == SignatureOf(host, b) ==>
               Signature.Preimage(a.arguments, a.inputs) == Signature.Preimage(b.arguments, b.inputs)
    ensures (exists turns :: Misleads(clean, host, turns, a, b)) <==>
            Confusable(host, a, b) && |a.arguments| != |b.arguments| && b.inputs != []
  {
    hide LegalRun, Received, Signature.Representable, Confusable, Succeeded, SignatureOf;
    if Confusable(host, a, b) && |a.arguments| != |b.arguments| && b.inputs != [] {
      var turns := CountsAreNeeded(clean, host, a, b, tree);
      assert Misleads(clean, host, turns, a, b);
    }
    if turns :| Misleads(clean, host, turns, a, b) {
      if !(Confusable(host, a, b) && |a.arguments| != |b.arguments| && b.inputs != []) {
        PairIsSafe(host, turns, a, b);
        CacheTransparency(clean, host, turns, 1);
        assert false;
      }
    }
  }

  lemma PairIsSafe(host: Host, turns: seq<Turn>, a: WorkRequest, b: WorkRequest)
    requires |turns| == 2 && turns[0].request == a && turns[1].request == b
    requires !(Confusable(host, a, b) && |a.arguments| != |b.arguments| && b.inputs != [])
    requires SignatureOf(host, a) == SignatureOf(host, b) ==>
               Signature.Preimage(a.arguments, a.inputs) == Signature.Preimage(b.arguments, b.inputs)
    ensures NoCollision(host, turns) && CountsAgree(host, turns)
  {
    hide Confusable, SignatureOf, Signature.Preimage;
  }

  // ----------------------------------------------- and it fails on real requests

  /** The argument list of both requests, up to where they differ. */
  const ARGUMENTS := ["--", "-d", "o"]

  /** Two requests as a client encodes them: five arguments and no input, and three with
      one input whose path and digest are the other two. */
  lemma ConfusablePair(host: Host) returns (a: WorkRequest, b: WorkRequest)
    ensures Received(a) && Received(b)
    ensures Signature.Representable(a.arguments, a.inputs) && Signature.Representable(b.arguments, b.inputs)
    ensures a.arguments == ARGUMENTS + ["p", "q"] && a.inputs == []
    ensures b.arguments == ARGUMENTS && b.inputs == [Input("p", Utf8.Encode("q"))]
    ensures Confusable(host, a, b) && |a.arguments| != |b.arguments| && b.inputs != []
  {
    hide Utf8.Encode, Signature.Preimage, Signature.Tracked, GenWorkRequest.Message, Parsed, ParseRequest;
    var long, input := ARGUMENTS + ["p", "q"], Input("p", Utf8.Encode("q"));
    ShortTextsFit();
    a := EncodedIsReceived(long, []);
    b := EncodedIsReceived(ARGUMENTS, [input]);
    NotTracked();
    Signature.BoundaryIsNotHashed(ARGUMENTS, "p", "q");
    SameOutput(host, a, b);
  }

  lemma ShortTextsFit()
    ensures forall s :: s in ["--", "-d", "o", "p", "q"] ==> |Utf8.Encode(s)| <= 8
  {
    hide Utf8.Encode;
    Utf8.EncodeSize("--");
    Utf8.EncodeSize("-d");
    Utf8.EncodeSize("o");
    Utf8.EncodeSize("p");
    Utf8.EncodeSize("q");
  }

  lemma EncodedIsReceived(arguments: seq<string>, inputs: seq<Input>) returns (r: WorkRequest)
    requires forall a :: a in arguments ==> Fits(a)
    requires forall x :: x in inputs ==> GenWorkRequest.EntryFits(x)
    ensures Received(r) && Signature.Representable(r.arguments, r.inputs)
    ensures r.arguments == arguments && r.inputs == inputs
  {
    hide GenWorkRequest.Message, Parsed, ParseRequest, TextFields, GenWorkRequest.InputFields, Fits;
    var message := GenWorkRequest.Message(arguments, inputs);
    GenWorkRequest.MessageIsUnderstood(arguments, inputs);
    r := ParseRequest(message).value;
    assert Parsed(r) by { ParsedPrintsBack(message); }
    assert forall x :: x in inputs ==> GenWorkRequest.EntryFits(x);
  }

  lemma NotTracked()
    ensures !Signature.Tracked(ARGUMENTS, "p")
  {
    assert "p"[0] != ".jar"[0];
    Signature.TrackedIsExact(ARGUMENTS, "p");
  }

  lemma SameOutput(host: Host, a: WorkRequest, b: WorkRequest)
    requires a.arguments == ARGUMENTS + ["p", "q"] && b.arguments == ARGUMENTS
    ensures WellFormed(a.arguments) && WellFormed(b.arguments) && OutputOf(host, a) == OutputOf(host, b)
  {
    IndexOfIs(a.arguments, "--", 0);
    IndexOfIs(a.arguments, "-d", 1);
    IndexOfIs(b.arguments, "--", 0);
    IndexOfIs(b.arguments, "-d", 1);
  }

  /** So on every platform and with every honest compiler, these two requests publish any
      jar whatever for the second. */
  lemma WrongJarIsPublished(clean: Compiler, host: Host, tree: Tree) returns (turns: seq<Turn>)
    ensures |turns| == 2 && turns[0].request.arguments == ARGUMENTS + ["p", "q"]
    ensures turns[1].request.arguments == ARGUMENTS && |turns[1].request.inputs| == 1
    ensures LegalRun(clean, host, turns) && Succeeded(turns[1].handled)
    ensures var jars := turns[1].after.jars;
            var output := host.resolve("o");
            output in jars && jars[output] == host.pack(tree)
  {
    hide LegalRun, Succeeded, Received, Signature.Representable, Confusable;
    var a, b := ConfusablePair(host);
    turns := CountsAreNeeded(clean, host, a, b, tree);
    assert OutputOf(host, b) == host.resolve("o") by { OutputIs(host, b); }
  }

  lemma OutputIs(host: Host, b: WorkRequest)
    requires b.arguments == ARGUMENTS
    ensures WellFormed(b.arguments) && OutputOf(host, b) == host.resolve("o")
  {
    IndexOfIs(b.arguments, "--", 0);
    IndexOfIs(b.arguments, "-d", 1);
  }
}
