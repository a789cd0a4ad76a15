/**
 * `IncrementalWorker`: the cache of private compiler roots behind the incremental Kotlin
 * worker, and the loop that serves requests with it. What one call meets outside the
 * worker (the file system, the compiler process) is a `Moment`; paths, SHA-256 and zip
 * packing are a `Host`.
 */
module IncrementalWorker {
  import opened Common
  import opened WorkMessages
  import Framing
  import Signature
  import Utf8

  /** The class files below a root's `classes` directory, by relative path. */
  type Tree = map<string, Bytes>

  /** Functions of the platform: absolute normalised paths, Base64 of SHA-256, and the
      jar made of a tree. */
  datatype Host = Host(resolve: string -> string, digest: Bytes -> string, pack: Tree -> Bytes)

  datatype State = State(signature: string, root: string)

  /** One compile that ran in a root, with what came of it. */
  datatype Compile = Compile(
    request: WorkRequest, output: string, signature: string, reply: WorkResponse, published: bool)

  /** A directory below `scratch`. Its incremental cache is whatever the compiles logged
      there, in order, have left in it. */
  datatype Dir = Dir(classes: Tree, log: seq<Compile>)

  /** The worker's fields, directories and jars; of the compiler, when there is one, what
      its standard output holds that was not read yet. */
  datatype World = World(
    states: map<string, State>, compiler: Option<Bytes>, scratch: map<string, Dir>, jars: map<string, Bytes>)

  /** What one call of `handle` meets: the name `createTempDirectory` picks, whether the
      compiler starts and takes the request, what it then adds to its standard output, the
      class files it leaves, whether packing or removal succeeds, what a failed packing
      leaves in place of the jar if it touches it, and the text of an exception. */
  datatype Moment = Moment(
    freshRoot: string, starts: bool, sends: bool, stdout: Bytes, classes: Tree,
    ioOk: bool, partialJar: Option<Bytes>, failure: string)

  datatype Handled = Replied(response: WorkResponse) | Threw(message: string)

  // ------------------------------------------------------- argument rewriting

  function Separator(args: seq<string>): int {
    IndexOf(args, "--")
  }

  function Destination(args: seq<string>): int {
    IndexOf(args, "-d")
  }

  predicate WellFormed(args: seq<string>) {
    0 <= Separator(args) < Destination(args) && Destination(args) + 1 < |args|
  }

  function Classes(root: string): string {
    root + "/classes"
  }

  function Cache(root: string): string {
    root + "/cache"
  }

  function Inserted(root: string): seq<string> {
    ["--incremental", "--incremental-cache-dir", Cache(root)]
  }

  function Rewritten(args: seq<string>, root: string): seq<string>
    requires WellFormed(args)
  {
    var redirected := args[Destination(args) + 1 := Classes(root)];
    redirected[..Separator(args)] + Inserted(root) + redirected[Separator(args)..]
  }

  /** The rewritten arguments, element by element. */
  lemma RewritingAt(args: seq<string>, root: string, i: nat)
    requires WellFormed(args) && i < |args| + 3
    ensures var sep, dest, to := Separator(args), Destination(args), Rewritten(args, root);
            && |to| == |args| + 3
            && to[i] == if i < sep then args[i]
                        else if i < sep + 3 then Inserted(root)[i - sep]
                        else if i == dest + 4 then Classes(root)
                        else args[i - 3]
  {
  }

  /** A flag that is absent from the arguments before index `k` is absent from the
      rewritten ones before index `k + 3`. */
  lemma NoFlagBefore(args: seq<string>, root: string, flag: string, k: nat)
    requires WellFormed(args) && flag in {"--", "-d"} && Separator(args) <= k <= Destination(args)
    requires flag !in args[..k]
    ensures k + 3 <= |Rewritten(args, root)| && flag !in Rewritten(args, root)[..k + 3]
  {
    hide Rewritten, Classes, Separator, Destination;
    RewritingAt(args, root, 0);
    forall i | 0 <= i < k + 3
      ensures Rewritten(args, root)[i] != flag
    {
      RewritingAt(args, root, i);
      assert |Cache(root)| >= 6;
      assert i < Separator(args) ==> args[i] == args[..k][i];
      assert i >= Separator(args) + 3 ==> args[i - 3] == args[..k][i - 3];
    }
  }

  lemma FlagMoves(args: seq<string>, root: string, flag: string)
    requires WellFormed(args) && flag in {"--", "-d"}
    ensures IndexOf(Rewritten(args, root), flag) == IndexOf(args, flag) + 3
  {
    hide Rewritten, Classes;
    var k := IndexOf(args, flag);
    RewritingAt(args, root, k + 3);
    NoFlagBefore(args, root, flag, k);
    IndexOfIs(Rewritten(args, root), flag, k + 3);
  }

  /** The rewriting inserts the three tokens right before the first `--` and replaces the
      value of the first `-d`; the rest keeps its order, and undoing the two edits gives
      the original back. */
  lemma RewritingKeepsTheRest(args: seq<string>, root: string)
    requires WellFormed(args)
    ensures var sep, dest, to := Separator(args), Destination(args), Rewritten(args, root);
            && |to| == |args| + 3
            && Separator(to) == sep + 3 && to[sep..sep + 3] == Inserted(root)
            && Destination(to) == dest + 3 && to[dest + 4] == Classes(root)
            && (to[..sep] + to[sep + 3..])[dest + 1 := args[dest + 1]] == args
  {
    hide Rewritten, Classes, Inserted, IndexOf;
    var sep, dest, to := Separator(args), Destination(args), Rewritten(args, root);
    FlagMoves(args, root, "--");
    FlagMoves(args, root, "-d");
    RewritingAt(args, root, dest + 4);
    RewritingUndone(args, root);
  }

  lemma RewritingUndone(args: seq<string>, root: string)
    requires WellFormed(args)
    ensures var sep, dest, to := Separator(args), Destination(args), Rewritten(args, root);
            && |to| == |args| + 3
            && to[sep..sep + 3] == Inserted(root)
            && (to[..sep] + to[sep + 3..])[dest + 1 := args[dest + 1]] == args
  {
    hide IndexOf, Classes, Cache;
    var sep, dest, to := Separator(args), Destination(args), Rewritten(args, root);
    var redirected := args[dest + 1 := Classes(root)];
    assert to[..sep] == redirected[..sep];
    assert to[sep + 3..] == redirected[sep..];
    assert to[..sep] + to[sep + 3..] == redirected;
  }

  /** The arguments around the first `--` and the first `-d`, which comes behind it. */
  predicate Shaped(args: seq<string>, before: seq<string>, between: seq<string>, jar: string, behind: seq<string>) {
    && args == before + ["--"] + between + ["-d", jar] + behind
    && "--" !in before && "-d" !in before && "-d" !in between
  }

  /** Accepted are exactly the argument lists with a `--`, a first `-d` behind it, and a
      value behind that. */
  lemma AcceptedExactlyWhen(args: seq<string>)
    ensures WellFormed(args) <==> exists before, between, jar, behind :: Shaped(args, before, between, jar, behind)
  {
    hide IndexOf;
    if WellFormed(args) {
      var sep, dest := Separator(args), Destination(args);
      var before, between := args[..sep], args[sep + 1..dest];
      assert before == args[..dest][..sep] && between == args[..dest][sep + 1..];
      assert args[dest] == "-d";
      assert args == before + ["--"] + between + ["-d", args[dest + 1]] + args[dest + 2..];
      assert Shaped(args, before, between, args[dest + 1], args[dest + 2..]);
    }
    if before, between, jar, behind :| Shaped(args, before, between, jar, behind) {
      ShapeIsFound(args, before, between, jar, behind);
    }
  }

  lemma ShapeIsFound(args: seq<string>, before: seq<string>, between: seq<string>, jar: string, behind: seq<string>)
    requires Shaped(args, before, between, jar, behind)
    ensures WellFormed(args)
    ensures Separator(args) == |before| && Destination(args) == |before| + 1 + |between|
    ensures args[Destination(args) + 1] == jar
  {
    hide IndexOf;
    var sep, dest := |before|, |before| + 1 + |between|;
    assert args[sep] == "--" && args[..sep] == before;
    assert args[dest] == "-d" && args[..dest] == before + ["--"] + between;
    IndexOfIs(args, "--", sep);
    IndexOfIs(args, "-d", dest);
  }

  /** What the rewriting gives, written out. */
  lemma RewrittenIs(
    args: seq<string>, before: seq<string>, between: seq<string>, jar: string, behind: seq<string>, root: string)
    requires Shaped(args, before, between, jar, behind)
    ensures WellFormed(args)
    ensures Rewritten(args, root) ==
            before + ["--incremental", "--incremental-cache-dir", root + "/cache", "--"]
            + between + ["-d", root + "/classes"] + behind
    ensures forall host: Host, r: WorkRequest :: r.arguments == args ==> OutputOf(host, r) == host.resolve(jar)
  {
    hide IndexOf;
    ShapeIsFound(args, before, between, jar, behind);
    var sep, dest := |before|, |before| + 1 + |between|;
    var redirected := args[dest + 1 := Classes(root)];
    assert redirected == before + ["--"] + between + ["-d", Classes(root)] + behind;
    assert redirected[..sep] == before;
    assert redirected[sep..] == ["--"] + between + ["-d", Classes(root)] + behind;
  }

  // ------------------------------------------------------------- one request

  function OutputOf(host: Host, r: WorkRequest): string
    requires WellFormed(r.arguments)
  {
    host.resolve(r.arguments[Destination(r.arguments) + 1])
  }

  function SignatureOf(host: Host, r: WorkRequest): string {
    host.digest(Signature.Preimage(r.arguments, r.inputs))
  }

  /** Whether the request may start from the state that an earlier one left. */
  predicate Hit(host: Host, w: World, r: WorkRequest)
    requires WellFormed(r.arguments)
  {
    var output := OutputOf(host, r);
    output in w.states && w.states[output].signature == SignatureOf(host, r) && r.inputs != []
  }

  /** The world without an output's state and without its root. */
  function Drop(w: World, output: string): World {
    if output !in w.states then w
    else w.(states := w.states - {output}, scratch := w.scratch - {w.states[output].root})
  }

  /** The world with a new, empty root for an output. */
  function Open(w: World, output: string, state: State): World {
    w.(states := w.states[output := state], scratch := w.scratch[state.root := Dir(map[], [])])
  }

  /** The world with other contents in one root. */
  function Fill(w: World, root: string, dir: Dir): World {
    w.(scratch := w.scratch[root := dir])
  }

  /** The world in which the compile starts, and the state it starts from. */
  function Prepared(host: Host, w: World, r: WorkRequest, m: Moment): (World, State)
    requires WellFormed(r.arguments)
  {
    var output := OutputOf(host, r);
    if Hit(host, w, r) then (w, w.states[output])
    else
      var state := State(SignatureOf(host, r), m.freshRoot);
      (Open(Drop(w, output), output, state), state)
  }

  /** The response that `compile` returns, and what it leaves unread behind it. */
  datatype Answer = Answer(response: WorkResponse, unread: Bytes)

  function Running(compiler: Option<Bytes>, m: Moment): Option<Bytes> {
    if compiler.None? && m.starts then Some([]) else compiler
  }

  /** `compile`; `None` when it throws. */
  function Reply(compiler: Option<Bytes>, forwarded: WorkRequest, m: Moment): Option<Answer> {
    if Running(compiler, m).None? || !m.sends then None
    else
      match Framing.Read(Running(compiler, m).value + m.stdout)
      case Eof => None
      case Broken(_) => None
      case Message(body, rest) =>
        match ParseResponse(body)
        case Err(_) => None
        case Ok(reply) => if reply.requestId == forwarded.requestId then Some(Answer(reply, rest)) else None
  }

  function LogOf(w: World, root: string): seq<Compile> {
    if root in w.scratch then w.scratch[root].log else []
  }

  /** The `try` block of `handle`. */
  function Attempt(host: Host, w: World, output: string, state: State, r: WorkRequest, m: Moment)
    : (World, Handled)
    requires WellFormed(r.arguments)
  {
    match WithArguments(r, Rewritten(r.arguments, state.root))
    case Err(_) => (w, Threw(m.failure))
    case Ok(forwarded) =>
      match Reply(w.compiler, forwarded, m)
      case None => (w.(compiler := Running(w.compiler, m)), Threw(m.failure))
      case Some(Answer(reply, unread)) =>
        var answered := w.(compiler := Some(unread));
        var entry := Compile(r, output, state.signature, reply, reply.exitCode == 0 && m.ioOk);
        var ran := Fill(answered, state.root, Dir(m.classes, LogOf(w, state.root) + [entry]));
        if reply.exitCode == 0 then
          if m.ioOk then (ran.(jars := w.jars[output := host.pack(m.classes)]), Replied(reply))
          else (ran.(jars := if m.partialJar.Some? then w.jars[output := m.partialJar.value] else w.jars),
                Threw(m.failure))
        else if m.ioOk then (Drop(ran, output), Replied(reply))
        else (ran.(states := w.states - {output}), Threw(m.failure))
  }

  /** The `catch` block of `handle`. */
  function Reset(w: World): World {
    w.(states := map[], compiler := None, scratch := map[])
  }

  /** `handle` */
  function Step(host: Host, w: World, r: WorkRequest, m: Moment): (World, Handled) {
    if !WellFormed(r.arguments) then (w, Threw(m.failure))
    else
      var (ready, state) := Prepared(host, w, r, m);
      var (after, handled) := Attempt(host, ready, OutputOf(host, r), state, r, m);
      if handled.Threw? then (Reset(after), handled) else (after, handled)
  }

  // ------------------------------------------------------- reachable states

  /** The paths below a root fit in a Java array once encoded. */
  predicate RootFits(root: string) {
    Fits(Classes(root)) && Fits(Cache(root))
  }

  /** `createTempDirectory` returns a directory that was not there. */
  predicate Fresh(host: Host, w: World, r: WorkRequest, m: Moment) {
    WellFormed(r.arguments) ==> RootFits(m.freshRoot) && m.freshRoot !in Drop(w, OutputOf(host, r)).scratch
  }

  /** A request as the stream delivers them. */
  predicate Received(r: WorkRequest) {
    Parsed(r) && forall a :: a in r.arguments ==> Fits(a)
  }

  predicate Owns(w: World, output: string, root: string) {
    output in w.states && w.states[output].root == root
  }

  /** Every state has a root of its own, and `scratch` holds nothing else. */
  ghost predicate OneRootEach(w: World) {
    && (forall o :: o in w.states ==> w.states[o].root in w.scratch && RootFits(w.states[o].root))
    && (forall root :: root in w.scratch ==> exists o :: Owns(w, o, root))
    && (forall o, p, root :: Owns(w, o, root) && Owns(w, p, root) ==> o == p)
  }

  /** A compile whose traces may be built upon by later ones for `output`. */
  predicate Sound(host: Host, output: string, state: State, c: Compile) {
    && c.output == output
    && c.signature == state.signature == SignatureOf(host, c.request)
    && WellFormed(c.request.arguments) && OutputOf(host, c.request) == output
    && c.reply.exitCode == 0
    && c.reply.requestId == c.request.requestId
    && c.published
  }

  ghost predicate SoundLog(host: Host, w: World, output: string)
    requires output in w.states
  {
    forall c :: c in LogOf(w, w.states[output].root) ==> Sound(host, output, w.states[output], c)
  }

  /** What holds between requests: roots are neither leaked nor shared, and a root that
      may be reused has seen nothing but successful, published compiles for its output
      under its signature, and at least one. */
  ghost predicate Coherent(host: Host, w: World) {
    && OneRootEach(w)
    && (forall o :: o in w.states ==> SoundLog(host, w, o))
    && (forall o :: o in w.states ==> LogOf(w, w.states[o].root) != [])
  }

  /** An output's state, root, contents of the root, and jar are as they were. */
  predicate Untouched(w: World, w': World, o: string) {
    && (o in w.states <==> o in w'.states)
    && (o in w.states ==>
          && w'.states[o] == w.states[o]
          && w.states[o].root in w.scratch && w.states[o].root in w'.scratch
          && w'.scratch[w.states[o].root] == w.scratch[w.states[o].root])
    && (o in w.jars <==> o in w'.jars)
    && (o in w.jars ==> w'.jars[o] == w.jars[o])
  }

  ghost predicate OthersUntouched(w: World, w': World, output: string) {
    forall o :: o != output ==> Untouched(w, w', o)
  }

  lemma DropKeepsRoots(w: World, output: string)
    requires OneRootEach(w)
    ensures OneRootEach(Drop(w, output)) && OthersUntouched(w, Drop(w, output), output)
    ensures output !in Drop(w, output).states
    ensures output in w.states ==> w.states[output].root !in Drop(w, output).scratch
  {
    hide RootFits;
    var w' := Drop(w, output);
    forall o | o in w.states && o != output && output in w.states
      ensures w.states[o].root != w.states[output].root
    {
      assert Owns(w, o, w.states[o].root) && Owns(w, output, w.states[output].root);
    }
    forall root | root in w'.scratch
      ensures exists o :: Owns(w', o, root)
    {
      var o :| Owns(w, o, root);
      assert Owns(w', o, root);
    }
    forall o, p, root | Owns(w', o, root) && Owns(w', p, root)
      ensures o == p
    {
      assert Owns(w, o, root) && Owns(w, p, root);
    }
  }

  lemma OpenKeepsRoots(w: World, output: string, state: State)
    requires OneRootEach(w) && output !in w.states
    requires state.root !in w.scratch && RootFits(state.root)
    ensures OneRootEach(Open(w, output, state)) && OthersUntouched(w, Open(w, output, state), output)
  {
    hide RootFits;
    var w' := Open(w, output, state);
    forall root | root in w'.scratch
      ensures exists o :: Owns(w', o, root)
    {
      if root == state.root {
        assert Owns(w', output, root);
      } else {
        var o :| Owns(w, o, root);
        assert Owns(w', o, root);
      }
    }
    forall o, p, root | Owns(w', o, root) && Owns(w', p, root)
      ensures o == p
    {
      assert o != output ==> Owns(w, o, root);
      assert p != output ==> Owns(w, p, root);
    }
  }

  lemma FillKeepsRoots(w: World, output: string, dir: Dir)
    requires OneRootEach(w) && output in w.states
    ensures OneRootEach(Fill(w, w.states[output].root, dir))
    ensures OthersUntouched(w, Fill(w, w.states[output].root, dir), output)
  {
    hide RootFits;
    var w' := Fill(w, w.states[output].root, dir);
    forall o | o in w.states && o != output
      ensures w.states[o].root != w.states[output].root
    {
      assert Owns(w, o, w.states[o].root) && Owns(w, output, w.states[output].root);
    }
    forall root | root in w'.scratch
      ensures exists o :: Owns(w', o, root)
    {
      var o :| Owns(w, o, root);
      assert Owns(w', o, root);
    }
    forall o, p, root | Owns(w', o, root) && Owns(w', p, root)
      ensures o == p
    {
      assert Owns(w, o, root) && Owns(w, p, root);
    }
  }

  /** Only `states` and `scratch` matter to the ownership of roots. */
  lemma SameRoots(w: World, w': World)
    requires OneRootEach(w) && w'.states == w.states && w'.scratch == w.scratch
    ensures OneRootEach(w')
  {
    hide RootFits;
    forall root | root in w'.scratch
      ensures exists o :: Owns(w', o, root)
    {
      var o :| Owns(w, o, root);
      assert Owns(w', o, root);
    }
    forall o, p, root | Owns(w', o, root) && Owns(w', p, root)
      ensures o == p
    {
      assert Owns(w, o, root) && Owns(w, p, root);
    }
  }

  lemma UntouchedTwice(a: World, b: World, c: World, output: string)
    requires OthersUntouched(a, b, output) && OthersUntouched(b, c, output)
    ensures OthersUntouched(a, c, output)
  {
    forall o | o != output
      ensures Untouched(a, c, o)
    {
      assert Untouched(a, b, o) && Untouched(b, c, o);
    }
  }

  /** Preparing a request leaves every other output alone and gives its own output a
      state with a root of its own under the request's signature. */
  lemma PreparedRoots(host: Host, w: World, r: WorkRequest, m: Moment)
    requires WellFormed(r.arguments) && OneRootEach(w) && Fresh(host, w, r, m)
    ensures var (ready, state) := Prepared(host, w, r, m);
            var output := OutputOf(host, r);
            && OneRootEach(ready) && OthersUntouched(w, ready, output)
            && output in ready.states && ready.states[output] == state
            && state.signature == SignatureOf(host, r)
            && ready.jars == w.jars
  {
    hide OneRootEach, RootFits;
    var output := OutputOf(host, r);
    if Hit(host, w, r) {
      assert OneRootEach(w) ==> OthersUntouched(w, w, output) by { NothingTouched(w, output); }
    } else {
      var state := State(SignatureOf(host, r), m.freshRoot);
      DropKeepsRoots(w, output);
      OpenKeepsRoots(Drop(w, output), output, state);
      UntouchedTwice(w, Drop(w, output), Open(Drop(w, output), output, state), output);
    }
  }

  lemma NothingTouched(w: World, output: string)
    requires OneRootEach(w)
    ensures OthersUntouched(w, w, output)
  {
  }

  /** A request starts from an existing root exactly when it has inputs and the last state
      of its output carries its signature; otherwise the root is empty and the old root
      of its output is gone. */
  lemma StartsFreshUnlessHit(host: Host, w: World, r: WorkRequest, m: Moment)
    requires WellFormed(r.arguments) && Coherent(host, w) && Fresh(host, w, r, m)
    ensures var (ready, state) := Prepared(host, w, r, m);
            && (LogOf(ready, state.root) != [] <==> Hit(host, w, r))
            && (Hit(host, w, r) <==>
                  && r.inputs != [] && OutputOf(host, r) in w.states
                  && w.states[OutputOf(host, r)].signature == SignatureOf(host, r))
            && (Hit(host, w, r) ==> ready == w)
            && (!Hit(host, w, r) ==>
                  && state.root !in Drop(w, OutputOf(host, r)).scratch
                  && ready == Open(Drop(w, OutputOf(host, r)), OutputOf(host, r), state))
    ensures r.inputs == [] ==> !Hit(host, w, r)
  {
    hide OneRootEach, SoundLog, SignatureOf;
  }

  lemma ForwardedIs(r: WorkRequest, root: string)
    requires Received(r) && WellFormed(r.arguments) && RootFits(root)
    ensures WithArguments(r, Rewritten(r.arguments, root)) == Ok(Replaced(r, Rewritten(r.arguments, root)))
  {
    hide WithArguments, Replaced, Utf8.Encode;
    var to := Rewritten(r.arguments, root);
    Utf8.EncodeSize("--incremental");
    Utf8.EncodeSize("--incremental-cache-dir");
    forall a | a in to
      ensures Fits(a)
    {
    }
    ReplacementKeepsTheRest(r, to);
  }

  /** What the compiler receives for a request: one frame, whose message parses to the
      rewritten arguments and to the original inputs, id and other fields, bytes and
      order included. */
  lemma ForwardingPreservesMeaning(r: WorkRequest, root: string, rest: Bytes)
    requires Received(r) && WellFormed(r.arguments) && RootFits(root)
    ensures var sent := WithArguments(r, Rewritten(r.arguments, root));
            && sent.Ok?
            && ParseRequest(Body(sent.value)) == sent
            && sent.value.arguments == Rewritten(r.arguments, root)
            && sent.value.inputs == r.inputs
            && sent.value.requestId == r.requestId
            && Others(sent.value.fields) == Others(r.fields)
            && (|Body(sent.value)| <= Framing.MAX_MESSAGE ==>
                  Framing.Read(Framing.Write(Body(sent.value)) + rest) == Framing.Message(Body(sent.value), rest))
  {
    hide ParseRequest, Body, Others, TextFields;
    ForwardedIs(r, root);
    var to := Rewritten(r.arguments, root);
    OthersOfReplaced(to, r.fields);
    var sent := WithArguments(r, to).value;
    assert sent == Replaced(r, to);
    assert Parsed(sent) by { ReplacedIsParsed(r, root); }
    if |Body(sent)| <= Framing.MAX_MESSAGE {
      Framing.RoundTrip(Body(sent), rest);
    }
  }

  lemma ReplacedIsParsed(r: WorkRequest, root: string)
    requires Received(r) && WellFormed(r.arguments) && RootFits(root)
    ensures Parsed(Replaced(r, Rewritten(r.arguments, root)))
  {
    hide WithArguments, Utf8.Encode;
    var to := Rewritten(r.arguments, root);
    Utf8.EncodeSize("--incremental");
    Utf8.EncodeSize("--incremental-cache-dir");
    ReplacementKeepsTheRest(r, to);
  }

  /** The answer behind an attempt that replied. */
  function Answered(w: World, state: State, r: WorkRequest, m: Moment): Answer
    requires WellFormed(r.arguments)
    requires var sent := WithArguments(r, Rewritten(r.arguments, state.root));
             sent.Ok? && Reply(w.compiler, sent.value, m).Some?
  {
    Reply(w.compiler, WithArguments(r, Rewritten(r.arguments, state.root)).value, m).value
  }

  lemma AttemptEffect(host: Host, w: World, output: string, state: State, r: WorkRequest, m: Moment)
    requires WellFormed(r.arguments) && OneRootEach(w)
    requires output in w.states && w.states[output] == state
    ensures var (after, handled) := Attempt(host, w, output, state, r, m);
            && (handled.Threw? ==> after.jars - {output} == w.jars - {output})
            && (handled.Replied? ==> OneRootEach(after) && OthersUntouched(w, after, output))
            && (handled.Replied? && handled.response.exitCode == 0 ==>
                  && after.states == w.states
                  && after.scratch == w.scratch[state.root := Dir(m.classes,
                       LogOf(w, state.root) + [Compile(r, output, state.signature, handled.response, true)])]
                  && after.jars == w.jars[output := host.pack(m.classes)])
            && (handled.Replied? && handled.response.exitCode != 0 ==>
                  output !in after.states && state.root !in after.scratch && after.jars == w.jars)
  {
    hide WithArguments, Reply, Rewritten, OneRootEach, RootFits;
    var (after, handled) := Attempt(host, w, output, state, r, m);
    if handled.Replied? {
      var reply := handled.response;
      var entry := Compile(r, output, state.signature, reply, reply.exitCode == 0);
      var dir := Dir(m.classes, LogOf(w, state.root) + [entry]);
      var filled := Fill(w, state.root, dir);
      FillKeepsRoots(w, output, dir);
      if reply.exitCode == 0 {
        SameRoots(filled, after);
        JarOnly(w, filled, after, output, host.pack(m.classes));
      } else {
        var ran := filled.(compiler := Some(Answered(w, state, r, m).unread));
        SameRoots(filled, ran);
        DropKeepsRoots(ran, output);
        JarOnly(w, filled, ran, output, []);
        UntouchedTwice(w, ran, after, output);
      }
    }
  }

  lemma JarOnly(w: World, filled: World, after: World, output: string, jar: Bytes)
    requires OthersUntouched(w, filled, output)
    requires after.states == filled.states && after.scratch == filled.scratch
    requires filled.jars == w.jars && (after.jars == w.jars || after.jars == w.jars[output := jar])
    ensures OthersUntouched(w, after, output)
  {
    forall o | o != output
      ensures Untouched(w, after, o)
    {
      assert Untouched(w, filled, o);
    }
  }

  /** What a request changes, by how it ends. A success adds one compile to its own root
      and publishes its own jar; a non-zero exit drops its own output's state and root;
      both leave every other output alone. An exception drops every state and root and
      the compiler, and an argument list that is refused changes nothing. */
  lemma StepEffect(host: Host, w: World, r: WorkRequest, m: Moment)
    requires OneRootEach(w) && Fresh(host, w, r, m)
    ensures var (after, handled) := Step(host, w, r, m);
            if !WellFormed(r.arguments) then after == w && handled.Threw?
            else
              var output := OutputOf(host, r);
              var (ready, state) := Prepared(host, w, r, m);
              && (handled.Threw? ==> after == Reset(after) && after.jars - {output} == w.jars - {output})
              && (handled.Replied? ==> OneRootEach(after) && OthersUntouched(w, after, output))
              && (handled.Replied? && handled.response.exitCode == 0 ==>
                    && output in after.states && after.states[output] == state
                    && after.jars == w.jars[output := host.pack(m.classes)]
                    && LogOf(after, state.root) == LogOf(ready, state.root)
                         + [Compile(r, output, state.signature, handled.response, true)])
              && (handled.Replied? && handled.response.exitCode != 0 ==>
                    output !in after.states && state.root !in after.scratch && after.jars == w.jars)
  {
    hide Attempt, OneRootEach, Prepared, OthersUntouched, Fresh;
    if WellFormed(r.arguments) {
      var (ready, state) := Prepared(host, w, r, m);
      PreparedRoots(host, w, r, m);
      AttemptEffect(host, ready, OutputOf(host, r), state, r, m);
      if Step(host, w, r, m).1.Replied? {
        UntouchedTwice(w, ready, Step(host, w, r, m).0, OutputOf(host, r));
      }
    }
  }

  /** The compiler takes the request, and the next message in its output is a success under
      the request's id. */
  predicate AnswersZero(compiler: Option<Bytes>, r: WorkRequest, m: Moment) {
    && (compiler.Some? || m.starts) && m.sends
    && var frame := Framing.Read((if compiler.Some? then compiler.value else []) + m.stdout);
       frame.Message? && ParseResponse(frame.body).Ok?
       && ParseResponse(frame.body).value.requestId == r.requestId
       && ParseResponse(frame.body).value.exitCode == 0
  }

  /** When a request succeeds, over everything that its call may meet. */
  lemma SucceedsExactlyWhen(host: Host, w: World, r: WorkRequest, m: Moment)
    requires OneRootEach(w) && Received(r) && Fresh(host, w, r, m)
    ensures var handled := Step(host, w, r, m).1;
            handled.Replied? && handled.response.exitCode == 0 <==>
            WellFormed(r.arguments) && AnswersZero(w.compiler, r, m) && m.ioOk
  {
    hide WithArguments, Rewritten, OneRootEach, Parsed, Fits, Fresh, RootFits, ParseResponse, Framing.Read, Hit;
    if WellFormed(r.arguments) {
      var (ready, state) := Prepared(host, w, r, m);
      PreparedRoots(host, w, r, m);
      RootsFit(ready, OutputOf(host, r));
      ForwardedIs(r, state.root);
      assert ready.compiler == w.compiler;
    }
  }

  /** The bytes from which the response is read. */
  function Output(w: World, m: Moment): Bytes {
    (if w.compiler.Some? then w.compiler.value else []) + m.stdout
  }

  /** The compiler runs and takes the request, and the next message in its output is a
      response under the request's id, whatever its exit code. */
  predicate Delivered(w: World, r: WorkRequest, m: Moment) {
    && (w.compiler.Some? || m.starts) && m.sends
    && Framing.Read(Output(w, m)).Message?
    && ParseResponse(Framing.Read(Output(w, m)).body).Ok?
    && ParseResponse(Framing.Read(Output(w, m)).body).value.requestId == r.requestId
  }

  lemma AttemptIs(host: Host, w: World, output: string, state: State, r: WorkRequest, m: Moment)
    requires WellFormed(r.arguments) && Received(r) && RootFits(state.root)
    ensures var (after, handled) := Attempt(host, w, output, state, r, m);
            if !Delivered(w, r, m) then
              handled == Threw(m.failure) && after.jars == w.jars
            else
              var frame := Framing.Read(Output(w, m));
              var reply := ParseResponse(frame.body).value;
              var entry := Compile(r, output, state.signature, reply, reply.exitCode == 0 && m.ioOk);
              var dir := Dir(m.classes, LogOf(w, state.root) + [entry]);
              var ran := Fill(w, state.root, dir).(compiler := Some(frame.rest));
              if !m.ioOk then
                && handled == Threw(m.failure)
                && after.jars == (if reply.exitCode == 0 && m.partialJar.Some? then w.jars[output := m.partialJar.value]
                                  else w.jars)
              else
                && handled == Replied(reply)
                && after == if reply.exitCode != 0 then Drop(ran, output)
                            else ran.(jars := w.jars[output := host.pack(m.classes)])
  {
    hide WithArguments, Rewritten, Parsed, Fits, RootFits, ParseResponse, Framing.Read, Drop, LogOf;
    ForwardedIs(r, state.root);
  }

  /** When a request is answered, over everything that its call may meet: exactly when its
      arguments are accepted, a response under its id is delivered, and the files are in
      order; and then the answer is that response, whatever its exit code, and the
      compiler lives on behind it. */
  lemma RepliesExactlyWhen(host: Host, w: World, r: WorkRequest, m: Moment)
    requires OneRootEach(w) && Received(r) && Fresh(host, w, r, m)
    ensures var (after, handled) := Step(host, w, r, m);
            && (handled.Replied? <==> WellFormed(r.arguments) && Delivered(w, r, m) && m.ioOk)
            && (handled.Replied? ==>
                  && handled == Replied(ParseResponse(Framing.Read(Output(w, m)).body).value)
                  && after.compiler == Some(Framing.Read(Output(w, m)).rest))
            && (handled.Threw? ==> handled.message == m.failure)
  {
    hide OneRootEach, Received, Fresh, RootFits, ParseResponse, Framing.Read, Hit, Attempt, Fill, LogOf;
    if WellFormed(r.arguments) {
      var (ready, state) := Prepared(host, w, r, m);
      PreparedRoots(host, w, r, m);
      RootsFit(ready, OutputOf(host, r));
      assert ready.compiler == w.compiler && ready.jars == w.jars;
      AttemptIs(host, ready, OutputOf(host, r), state, r, m);
    }
  }

  /** A compile that is answered with a non-zero exit code costs its own output's state and
      root, and nothing else: jars, other states, their roots and the compiler are kept. */
  lemma FailureKeepsTheRest(host: Host, w: World, r: WorkRequest, m: Moment)
    requires OneRootEach(w) && Received(r) && Fresh(host, w, r, m) && WellFormed(r.arguments)
    requires Delivered(w, r, m) && m.ioOk
    requires ParseResponse(Framing.Read(Output(w, m)).body).value.exitCode != 0
    ensures var (after, handled) := Step(host, w, r, m);
            var output := OutputOf(host, r);
            && handled == Replied(ParseResponse(Framing.Read(Output(w, m)).body).value)
            && after.states == w.states - {output}
            && after.scratch == w.scratch - (if output in w.states then {w.states[output].root} else {})
            && after.compiler == Some(Framing.Read(Output(w, m)).rest)
            && after.jars == w.jars
            && OthersUntouched(w, after, output)
  {
    hide OneRootEach, Received, RootFits, ParseResponse, Framing.Read, Hit, Attempt, OthersUntouched, SignatureOf;
    var output := OutputOf(host, r);
    var (ready, state) := Prepared(host, w, r, m);
    PreparedRoots(host, w, r, m);
    RootsFit(ready, output);
    assert ready.compiler == w.compiler;
    AttemptIs(host, ready, output, state, r, m);
    StepEffect(host, w, r, m);
  }

  /** An exception costs every state and root and the compiler, and of the jars none but
      the one being packed, and that only when a successful compile could not be packed. */
  lemma ExceptionStartsOver(host: Host, w: World, r: WorkRequest, m: Moment)
    requires OneRootEach(w) && Received(r) && Fresh(host, w, r, m) && WellFormed(r.arguments)
    requires !Delivered(w, r, m) || !m.ioOk
    ensures var (after, handled) := Step(host, w, r, m);
            && handled == Threw(m.failure)
            && after.states == map[] && after.scratch == map[] && after.compiler == None
            && after.jars ==
               if Delivered(w, r, m) && m.partialJar.Some?
                  && ParseResponse(Framing.Read(Output(w, m)).body).value.exitCode == 0
               then w.jars[OutputOf(host, r) := m.partialJar.value] else w.jars
  {
    hide OneRootEach, Received, RootFits, ParseResponse, Framing.Read, Hit, Attempt, Fill, LogOf, SignatureOf;
    var output := OutputOf(host, r);
    var (ready, state) := Prepared(host, w, r, m);
    PreparedRoots(host, w, r, m);
    RootsFit(ready, output);
    assert ready.compiler == w.compiler && ready.jars == w.jars;
    AttemptIs(host, ready, output, state, r, m);
  }

  /** Between calls the compiler's output holds nothing unread. */
  predicate Quiet(w: World) {
    w.compiler.Some? ==> w.compiler.value == []
  }

  /** In one call the compiler adds one message to its output, or none. */
  predicate AnswersOnce(m: Moment) {
    Framing.Read(m.stdout).Message? ==> Framing.Read(m.stdout).rest == []
  }

  /** A compiler that answers each request once has nothing unread between calls, whatever
      fails, and a reply is what it answered in that very call. */
  lemma StepKeepsQuiet(host: Host, w: World, r: WorkRequest, m: Moment)
    requires Quiet(w) && AnswersOnce(m)
    ensures Quiet(Step(host, w, r, m).0)
    ensures var handled := Step(host, w, r, m).1;
            handled.Replied? ==>
              && Framing.Read(m.stdout).Message?
              && ParseResponse(Framing.Read(m.stdout).body) == Ok(handled.response)
  {
    hide WithArguments, Rewritten, ParseResponse, Framing.Read, Hit;
    assert [] + m.stdout == m.stdout;
    if WellFormed(r.arguments) {
      assert Prepared(host, w, r, m).0.compiler == w.compiler;
    }
  }

  lemma RepliesMatch(host: Host, w: World, output: string, state: State, r: WorkRequest, m: Moment)
    requires WellFormed(r.arguments) && Received(r) && RootFits(state.root)
    requires Attempt(host, w, output, state, r, m).1.Replied?
    ensures Attempt(host, w, output, state, r, m).1.response.requestId == r.requestId
  {
    hide WithArguments, Rewritten, Parsed, Fits;
    ForwardedIs(r, state.root);
  }

  lemma RootsFit(w: World, output: string)
    requires OneRootEach(w) && output in w.states
    ensures RootFits(w.states[output].root)
  {
  }

  /** Every compile logged in the root that a success leaves behind is sound. */
  lemma OwnLogIsSound(host: Host, w: World, r: WorkRequest, m: Moment)
    requires Coherent(host, w) && Received(r) && Fresh(host, w, r, m) && WellFormed(r.arguments)
    requires Step(host, w, r, m).1.Replied? && Step(host, w, r, m).1.response.exitCode == 0
    ensures var state := Prepared(host, w, r, m).1;
            forall c :: c in LogOf(Step(host, w, r, m).0, state.root) ==> Sound(host, OutputOf(host, r), state, c)
  {
    hide Attempt, OneRootEach, Prepared, Received, RootFits, Fresh, OthersUntouched, SignatureOf;
    var (ready, state) := Prepared(host, w, r, m);
    var output := OutputOf(host, r);
    PreparedRoots(host, w, r, m);
    RootsFit(ready, output);
    RepliesMatch(host, ready, output, state, r, m);
    StepEffect(host, w, r, m);
    StartsFreshUnlessHit(host, w, r, m);
    if Hit(host, w, r) {
      assert SoundLog(host, w, output);
    }
  }

  /** Every request leaves the cache coherent, however it ends. */
  lemma StepKeepsCoherent(host: Host, w: World, r: WorkRequest, m: Moment)
    requires Coherent(host, w) && Received(r) && Fresh(host, w, r, m)
    ensures Coherent(host, Step(host, w, r, m).0)
  {
    hide OneRootEach, Sound, Step, Received, Fresh, Prepared;
    var (after, handled) := Step(host, w, r, m);
    StepEffect(host, w, r, m);
    if WellFormed(r.arguments) {
      if handled.Threw? {
        EmptyIsCoherent(host, after);
      } else {
        var output := OutputOf(host, r);
        if handled.response.exitCode == 0 {
          OwnLogIsSound(host, w, r, m);
        }
        forall o | o in after.states
          ensures SoundLog(host, after, o) && LogOf(after, after.states[o].root) != []
        {
          if o != output {
            assert Untouched(w, after, o);
            assert SoundLog(host, w, o);
          }
        }
      }
    }
  }

  lemma EmptyIsCoherent(host: Host, w: World)
    requires w == Reset(w)
    ensures Coherent(host, w)
  {
  }
}
