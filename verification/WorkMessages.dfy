/**
 * `WorkerProtocol.WorkRequest` and `WorkResponse`: typed views that keep every field's
 * raw bytes, so that unknown fields survive forwarding.
 */
module WorkMessages {
  import opened Common
  import Framing
  import Utf8
  import Varint
  import Wire

  datatype Input = Input(path: string, digest: Bytes)

  datatype WorkRequest = WorkRequest(
    fields: seq<Wire.Field>,
    arguments: seq<string>,
    inputs: seq<Input>,
    requestId: int)

  datatype WorkResponse = WorkResponse(bytes: Bytes, exitCode: int, requestId: int, output: string)

  predicate IsArgument(f: Wire.Field) {
    f.number == 1 && f.wire == 2
  }

  // ---------------------------------------------------------------- parsing

  function AbsorbEntry(input: Input, f: Wire.Field): Result<Input> {
    if f.number == 1 && f.wire == 2 then
      var path :- Utf8.Decode(f.bytes);
      Ok(input.(path := path))
    else if f.number == 2 && f.wire == 2 then Ok(input.(digest := f.bytes))
    else Ok(input)
  }

  function AbsorbEntries(input: Input, fs: seq<Wire.Field>): Result<Input>
    decreases |fs|
  {
    if fs == [] then Ok(input)
    else
      var next :- AbsorbEntry(input, fs[0]);
      AbsorbEntries(next, fs[1..])
  }

  function ParseInput(bytes: Bytes): Result<Input> {
    var fs :- Wire.Fields(bytes);
    AbsorbEntries(Input("", []), fs)
  }

  /** What the constructor has gathered from the fields seen so far. */
  datatype Gathered = Gathered(arguments: seq<string>, inputs: seq<Input>, requestId: int)

  const NOTHING := Gathered([], [], 0)

  function Absorb(g: Gathered, f: Wire.Field): Result<Gathered> {
    if f.number == 1 && f.wire == 2 then
      var argument :- Utf8.Decode(f.bytes);
      Ok(g.(arguments := g.arguments + [argument]))
    else if f.number == 3 && f.wire == 0 then Ok(g.(requestId := Varint.ToInt(f.scalar)))
    else if f.number == 2 && f.wire == 2 then
      var input :- ParseInput(f.bytes);
      Ok(g.(inputs := g.inputs + [input]))
    else Ok(g)
  }

  function AbsorbAll(g: Gathered, fs: seq<Wire.Field>): Result<Gathered>
    decreases |fs|
  {
    if fs == [] then Ok(g)
    else
      var next :- Absorb(g, fs[0]);
      AbsorbAll(next, fs[1..])
  }

  function ParseRequest(bytes: Bytes): Result<WorkRequest> {
    var fs :- Wire.Fields(bytes);
    var g :- AbsorbAll(NOTHING, fs);
    Ok(WorkRequest(fs, g.arguments, g.inputs, g.requestId))
  }

  /** The message a request stands for on the wire. */
  function Body(r: WorkRequest): Bytes {
    Wire.Raw(r.fields)
  }

  /** A request as the parser makes them. */
  predicate Parsed(r: WorkRequest) {
    ParseRequest(Body(r)) == Ok(r)
  }

  function AbsorbReply(r: WorkResponse, f: Wire.Field): Result<WorkResponse> {
    if f.number == 1 && f.wire == 0 then Ok(r.(exitCode := Varint.ToInt(f.scalar)))
    else if f.number == 2 && f.wire == 2 then
      var output :- Utf8.Decode(f.bytes);
      Ok(r.(output := output))
    else if f.number == 3 && f.wire == 0 then Ok(r.(requestId := Varint.ToInt(f.scalar)))
    else Ok(r)
  }

  function AbsorbReplies(r: WorkResponse, fs: seq<Wire.Field>): Result<WorkResponse>
    decreases |fs|
  {
    if fs == [] then Ok(r)
    else
      var next :- AbsorbReply(r, fs[0]);
      AbsorbReplies(next, fs[1..])
  }

  function ParseResponse(bytes: Bytes): Result<WorkResponse> {
    var fs :- Wire.Fields(bytes);
    AbsorbReplies(WorkResponse(bytes, 0, 0, ""), fs)
  }

  // --------------------------------------------------------------- printing

  /** One length-delimited field. */
  function BytesField(number: nat, bytes: Bytes): Bytes {
    Varint.Write(number * 8 + 2) + Varint.Write(|bytes|) + bytes
  }

  /** What `WorkerProtocol.string` prints. */
  function StringField(number: nat, s: string): Bytes {
    BytesField(number, Utf8.Encode(s))
  }

  function ArgumentFields(args: seq<string>): Bytes {
    if args == [] then [] else StringField(1, args[0]) + ArgumentFields(args[1..])
  }

  function Others(fs: seq<Wire.Field>): (others: seq<Wire.Field>)
    ensures forall f :: f in others ==> f in fs && !IsArgument(f)
  {
    if fs == [] then []
    else if IsArgument(fs[0]) then Others(fs[1..])
    else [fs[0]] + Others(fs[1..])
  }

  function ReplacedBody(r: WorkRequest, args: seq<string>): Bytes {
    ArgumentFields(args) + Wire.Raw(Others(r.fields))
  }

  function WithArguments(r: WorkRequest, args: seq<string>): Result<WorkRequest> {
    ParseRequest(ReplacedBody(r, args))
  }

  function ErrorBytes(requestId: int, message: string): Bytes {
    Varint.Write(8) + Varint.Write(1) + StringField(2, message)
    + Varint.Write(24) + Varint.Write(Varint.FromInt(requestId))
  }

  function ErrorResponse(requestId: int, message: string): Result<WorkResponse> {
    ParseResponse(ErrorBytes(requestId, message))
  }

  /** Every string fits in a Java array once encoded. */
  predicate Fits(s: string) {
    |Utf8.Encode(s)| < Varint.TWO_TO_31
  }

  // ------------------------------------------------- what a printed field is

  /** The field that a printed byte array parses to. */
  function DelimitedField(number: nat, bytes: Bytes): Wire.Field {
    Wire.Field(number, 2, 0, bytes, BytesField(number, bytes))
  }

  function TextField(number: nat, s: string): Wire.Field {
    DelimitedField(number, Utf8.Encode(s))
  }

  function ScalarField(number: nat, v: nat): Wire.Field {
    Wire.Field(number, 0, v, [], Varint.Write(number * 8) + Varint.Write(v))
  }

  lemma TagWritten(number: nat, wire: nat, t: Bytes)
    requires 1 <= number < 0x2000_0000 && wire < 8
    ensures Wire.Tag(Varint.Write(number * 8 + wire) + t)
         == Ok(Varint.Scanned(number * 8 + wire, |Varint.Write(number * 8 + wire)|))
  {
    Varint.RoundTrip(number * 8 + wire, t);
  }

  lemma DelimitedWritten(bytes: Bytes, t: Bytes)
    requires |bytes| < Varint.TWO_TO_31
    ensures Wire.Delimited(Varint.Write(|bytes|) + bytes + t)
         == Ok(Wire.Payload(0, bytes, |Varint.Write(|bytes|)| + |bytes|))
  {
    hide Varint.Read, Varint.Write;
    var prefix := Varint.Write(|bytes|);
    Varint.RoundTrip(|bytes|, bytes + t);
    assert prefix + bytes + t == prefix + (bytes + t);
    DropPrefix(prefix, bytes + t, |prefix|);
    assert prefix[|prefix|..] + (bytes + t) == bytes + t;
    assert (bytes + t)[..|bytes|] == bytes;
  }

  /** A tag, and a payload that the parser reads back, make a field that stands alone. */
  lemma PrintedField(number: nat, wire: nat, p: Wire.Payload, body: Bytes)
    requires 1 <= number < 0x2000_0000 && wire in {0, 2}
    requires Wire.Body(body, wire) == Ok(p) && p.size == |body|
    ensures var f := Wire.Field(number, wire, p.scalar, p.bytes, Varint.Write(number * 8 + wire) + body);
            Wire.Standalone(f)
  {
    hide Varint.Write, Wire.Tag, Wire.Body;
    var tag := Varint.Write(number * 8 + wire);
    TagWritten(number, wire, body);
    assert (tag + body)[|tag|..] == body;
    assert (tag + body)[..|tag| + |body|] == tag + body;
  }

  lemma DelimitedFieldStands(number: nat, bytes: Bytes)
    requires 1 <= number < 0x2000_0000 && |bytes| < Varint.TWO_TO_31
    ensures Wire.Standalone(DelimitedField(number, bytes))
  {
    hide Varint.Write, Wire.Delimited, Wire.Parse;
    var body := Varint.Write(|bytes|) + bytes;
    DelimitedWritten(bytes, []);
    assert body + [] == body;
    PrintedField(number, 2, Wire.Payload(0, bytes, |body|), body);
    assert Varint.Write(number * 8 + 2) + body == BytesField(number, bytes);
  }

  lemma ScalarFieldStands(number: nat, v: nat)
    requires 1 <= number < 0x2000_0000 && v < Varint.TWO_TO_64
    ensures Wire.Standalone(ScalarField(number, v))
  {
    hide Varint.Write, Varint.Read, Wire.Parse;
    var body := Varint.Write(v);
    Varint.RoundTrip(v, []);
    assert body + [] == body;
    PrintedField(number, 0, Wire.Payload(v, [], |body|), body);
  }

  function TextFields(args: seq<string>): (fs: seq<Wire.Field>)
    ensures |fs| == |args|
  {
    if args == [] then [] else [TextField(1, args[0])] + TextFields(args[1..])
  }

  lemma {:induction false} ArgumentFieldsParse(args: seq<string>)
    requires forall a :: a in args ==> Fits(a)
    ensures Wire.Raw(TextFields(args)) == ArgumentFields(args)
    ensures forall f :: f in TextFields(args) ==> Wire.Standalone(f) && IsArgument(f)
  {
    hide Wire.Parse, Utf8.Encode, BytesField;
    if args == [] {
    } else {
      ArgumentFieldsParse(args[1..]);
      assert Fits(args[0]);
      DelimitedFieldStands(1, Utf8.Encode(args[0]));
      assert ([TextField(1, args[0])] + TextFields(args[1..]))[1..] == TextFields(args[1..]);
    }
  }

  // ------------------------------------------------------ argument replacement

  lemma {:induction false} AbsorbConcat(g: Gathered, a: seq<Wire.Field>, b: seq<Wire.Field>)
    ensures AbsorbAll(g, a + b) == match AbsorbAll(g, a)
                                   case Ok(h) => AbsorbAll(h, b)
                                   case Err(e) => Err(e)
    decreases |a|
  {
    hide Absorb;
    if a == [] {
      assert a + b == b;
    } else {
      assert (a + b)[0] == a[0] && (a + b)[1..] == a[1..] + b;
      if Absorb(g, a[0]).Ok? {
        AbsorbConcat(Absorb(g, a[0]).value, a[1..], b);
      }
    }
  }

  lemma {:induction false} AbsorbArguments(g: Gathered, args: seq<string>)
    ensures AbsorbAll(g, TextFields(args)) == Ok(g.(arguments := g.arguments + args))
    decreases |args|
  {
    hide Utf8.Encode, Utf8.Decode, BytesField;
    if args == [] {
      assert g.arguments + args == g.arguments;
    } else {
      var f := TextField(1, args[0]);
      var next := g.(arguments := g.arguments + [args[0]]);
      Utf8.RoundTrip(args[0]);
      assert Absorb(g, f) == Ok(next);
      AbsorbArguments(next, args[1..]);
      assert ([f] + TextFields(args[1..]))[1..] == TextFields(args[1..]);
      assert g.arguments + [args[0]] + args[1..] == g.arguments + args;
    }
  }

  /** Dropping the argument fields leaves the inputs and the id as they were. */
  lemma {:induction false} AbsorbOthers(g: Gathered, h: Gathered, fs: seq<Wire.Field>)
    requires AbsorbAll(g, fs).Ok?
    requires h.inputs == g.inputs && h.requestId == g.requestId
    ensures AbsorbAll(h, Others(fs)) == Ok(AbsorbAll(g, fs).value.(arguments := h.arguments))
    decreases |fs|
  {
    hide ParseInput, Utf8.Decode;
    if fs == [] {
    } else {
      var g' := Absorb(g, fs[0]).value;
      if IsArgument(fs[0]) {
        AbsorbOthers(g', h, fs[1..]);
      } else {
        var h' := g'.(arguments := h.arguments);
        assert Absorb(h, fs[0]) == Ok(h');
        AbsorbOthers(g', h', fs[1..]);
        assert ([fs[0]] + Others(fs[1..]))[1..] == Others(fs[1..]);
      }
    }
  }

  /** The result of argument replacement, field by field: new argument fields first, and
      behind them every other field of the original with its bytes, in order. */
  function Replaced(r: WorkRequest, args: seq<string>): WorkRequest {
    WorkRequest(TextFields(args) + Others(r.fields), args, r.inputs, r.requestId)
  }

  lemma ReplacedParses(r: WorkRequest, args: seq<string>)
    requires Parsed(r) && forall a :: a in args ==> Fits(a)
    ensures Body(Replaced(r, args)) == ReplacedBody(r, args)
    ensures Wire.Fields(ReplacedBody(r, args)) == Ok(TextFields(args) + Others(r.fields))
  {
    hide Wire.Parse, TextFields, Others, ArgumentFields;
    var fs := TextFields(args) + Others(r.fields);
    ArgumentFieldsParse(args);
    Wire.ParsedFieldsStandAlone(Body(r));
    Wire.RawConcat(TextFields(args), Others(r.fields));
    Wire.RawParsesBack(fs);
  }

  /** Replacing the arguments of any parsed request succeeds. The result parses to the
      new arguments; inputs, id and every other field keep their value, bytes and order;
      and the result is again a request the parser could have made. */
  lemma ReplacementKeepsTheRest(r: WorkRequest, args: seq<string>)
    requires Parsed(r) && forall a :: a in args ==> Fits(a)
    ensures WithArguments(r, args) == Ok(Replaced(r, args))
    ensures Replaced(r, args) == WorkRequest(TextFields(args) + Others(r.fields), args, r.inputs, r.requestId)
    ensures Parsed(Replaced(r, args))
    ensures Others(Replaced(r, args).fields) == Others(r.fields)
  {
    hide Wire.Fields, ReplacedBody;
    ReplacedParses(r, args);
    var replaced := Replaced(r, args);
    var g := AbsorbAll(NOTHING, r.fields).value;
    AbsorbArguments(NOTHING, args);
    var h := NOTHING.(arguments := [] + args);
    assert [] + args == args;
    AbsorbOthers(NOTHING, h, r.fields);
    AbsorbConcat(NOTHING, TextFields(args), Others(r.fields));
    OthersOfReplaced(args, r.fields);
  }

  lemma {:induction false} OthersConcat(a: seq<Wire.Field>, b: seq<Wire.Field>)
    ensures Others(a + b) == Others(a) + Others(b)
  {
    if a == [] {
      assert a + b == b;
    } else {
      assert (a + b)[0] == a[0] && (a + b)[1..] == a[1..] + b;
      OthersConcat(a[1..], b);
    }
  }

  lemma {:induction false} NoOthers(fs: seq<Wire.Field>)
    requires forall f :: f in fs ==> IsArgument(f)
    ensures Others(fs) == []
  {
    if fs == [] {
    } else {
      NoOthers(fs[1..]);
    }
  }

  lemma {:induction false} AllOthers(fs: seq<Wire.Field>)
    requires forall f :: f in fs ==> !IsArgument(f)
    ensures Others(fs) == fs
  {
    if fs == [] {
    } else {
      AllOthers(fs[1..]);
    }
  }

  lemma {:induction false} TextFieldsAreArguments(args: seq<string>)
    ensures forall f :: f in TextFields(args) ==> IsArgument(f)
  {
    if args == [] {
    } else {
      TextFieldsAreArguments(args[1..]);
    }
  }

  lemma OthersOfReplaced(args: seq<string>, fs: seq<Wire.Field>)
    ensures Others(TextFields(args) + Others(fs)) == Others(fs)
  {
    TextFieldsAreArguments(args);
    OthersConcat(TextFields(args), Others(fs));
    NoOthers(TextFields(args));
    AllOthers(Others(fs));
  }

  /** The last replacement wins: an earlier one leaves no trace in the bytes. */
  lemma LastReplacementWins(r: WorkRequest, first: seq<string>, second: seq<string>)
    requires Parsed(r)
    requires (forall a :: a in first ==> Fits(a)) && forall a :: a in second ==> Fits(a)
    ensures WithArguments(r, first).Ok?
    ensures ReplacedBody(WithArguments(r, first).value, second) == ReplacedBody(r, second)
    ensures WithArguments(WithArguments(r, first).value, second) == WithArguments(r, second)
  {
    ReplacementKeepsTheRest(r, first);
  }

  /** `WorkRequest.create`: a request made from nothing holds exactly the arguments. */
  lemma CreatedFromNothing(args: seq<string>)
    requires forall a :: a in args ==> Fits(a)
    ensures ParseRequest([]) == Ok(WorkRequest([], [], [], 0))
    ensures WithArguments(ParseRequest([]).value, args) == Ok(WorkRequest(TextFields(args), args, [], 0))
  {
    var r := WorkRequest([], [], [], 0);
    assert Body(r) == [] && Parsed(r);
    ReplacementKeepsTheRest(r, args);
    assert TextFields(args) + [] == TextFields(args);
  }

  /** Parsing yields a request that prints back to the very bytes it came from. */
  lemma ParsedPrintsBack(bytes: Bytes)
    requires ParseRequest(bytes).Ok?
    ensures Body(ParseRequest(bytes).value) == bytes && Parsed(ParseRequest(bytes).value)
  {
    Wire.Tiling(bytes);
  }

  // ----------------------------------------------------------- error responses

  function ErrorFields(requestId: int, message: string): seq<Wire.Field> {
    [ScalarField(1, 1), TextField(2, message), ScalarField(3, Varint.FromInt(requestId))]
  }

  lemma ErrorFieldsParse(requestId: int, message: string)
    requires Fits(message)
    ensures Wire.Fields(ErrorBytes(requestId, message)) == Ok(ErrorFields(requestId, message))
    ensures forall f :: f in ErrorFields(requestId, message) && f.number == 1 ==> f.wire == 0
  {
    hide Wire.Parse, Varint.Write, Utf8.Encode, BytesField, Wire.Standalone;
    ScalarFieldStands(1, 1);
    DelimitedFieldStands(2, Utf8.Encode(message));
    ScalarFieldStands(3, Varint.FromInt(requestId));
    Wire.RawParsesBack(ErrorFields(requestId, message));
    ErrorBytesAreFields(requestId, message);
  }

  /** The reply for a failed request reads back as exit code 1, the same message and the
      same id, for every signed 32-bit id. */
  lemma ErrorRoundTrip(requestId: int, message: string)
    requires -Varint.TWO_TO_31 <= requestId < Varint.TWO_TO_31 && Fits(message)
    ensures ErrorResponse(requestId, message)
         == Ok(WorkResponse(ErrorBytes(requestId, message), 1, requestId, message))
  {
    hide Wire.Fields, ErrorBytes, Utf8.Encode, Utf8.Decode, BytesField;
    ErrorFieldsParse(requestId, message);
    Varint.IntSurvives(requestId);
    Utf8.RoundTrip(message);
    AbsorbErrorFields(ErrorBytes(requestId, message), Varint.FromInt(requestId), message);
  }

  lemma ErrorBytesAreFields(requestId: int, message: string)
    ensures Wire.Raw(ErrorFields(requestId, message)) == ErrorBytes(requestId, message)
  {
    hide Varint.Write, BytesField;
    var a, b, c := ScalarField(1, 1), TextField(2, message), ScalarField(3, Varint.FromInt(requestId));
    assert [a, b, c][1..] == [b, c] && [b, c][1..] == [c] && [c][1..] == [];
    assert Wire.Raw([c]) == c.raw;
    assert Wire.Raw([b, c]) == b.raw + c.raw;
    assert Wire.Raw([a, b, c]) == a.raw + (b.raw + c.raw);
  }

  lemma AbsorbErrorFields(bytes: Bytes, id: nat, message: string)
    requires Utf8.Decode(Utf8.Encode(message)) == Ok(message)
    ensures AbsorbReplies(WorkResponse(bytes, 0, 0, ""),
                          [ScalarField(1, 1), TextField(2, message), ScalarField(3, id)])
         == Ok(WorkResponse(bytes, 1, Varint.ToInt(id), message))
  {
    hide Varint.Write, Utf8.Encode, Utf8.Decode, BytesField;
    var a, b, c := ScalarField(1, 1), TextField(2, message), ScalarField(3, id);
    assert [a, b, c][1..] == [b, c] && [b, c][1..] == [c] && [c][1..] == [];
    var r0 := WorkResponse(bytes, 0, 0, "");
    var r1 := r0.(exitCode := 1);
    var r2 := r1.(output := message);
    assert AbsorbReply(r0, a) == Ok(r1) && AbsorbReply(r1, b) == Ok(r2);
    assert AbsorbReplies(r2, [c]) == Ok(r2.(requestId := Varint.ToInt(id)));
  }

  /** The ids of a parsed request and of a parsed response are signed 32-bit numbers. */
  lemma {:induction false} IdIsInt(g: Gathered, fs: seq<Wire.Field>)
    requires -Varint.TWO_TO_31 <= g.requestId < Varint.TWO_TO_31 && AbsorbAll(g, fs).Ok?
    ensures -Varint.TWO_TO_31 <= AbsorbAll(g, fs).value.requestId < Varint.TWO_TO_31
    decreases |fs|
  {
    hide Utf8.Decode, ParseInput, Varint.ToInt;
    if fs == [] {
    } else {
      IdIsInt(Absorb(g, fs[0]).value, fs[1..]);
    }
  }

  lemma RequestIdIsInt(bytes: Bytes)
    requires ParseRequest(bytes).Ok?
    ensures -Varint.TWO_TO_31 <= ParseRequest(bytes).value.requestId < Varint.TWO_TO_31
  {
    IdIsInt(NOTHING, Wire.Fields(bytes).value);
  }

  /** A parsed response remembers the bytes it came from. */
  lemma {:induction false} ReplyKeepsBytes(r: WorkResponse, fs: seq<Wire.Field>)
    requires AbsorbReplies(r, fs).Ok?
    ensures AbsorbReplies(r, fs).value.bytes == r.bytes
    decreases |fs|
  {
    hide Utf8.Decode;
    if fs == [] {
    } else {
      ReplyKeepsBytes(AbsorbReply(r, fs[0]).value, fs[1..]);
    }
  }

  // ---------------------------------------------------------- size of the parts

  lemma FieldIsWithin(s: Bytes, depth: nat)
    requires Wire.Parse(s, depth).Ok?
    ensures |Wire.Parse(s, depth).value.bytes| <= |s|
  {
    hide Wire.Group, Varint.Read;
  }

  lemma {:induction false} FieldsAreWithin(s: Bytes)
    requires Wire.Fields(s).Ok?
    ensures forall f :: f in Wire.Fields(s).value ==> |f.bytes| <= |s|
  {
    hide Wire.Parse;
    if s == [] {
    } else {
      FieldIsWithin(s, 0);
      FieldsAreWithin(s[|Wire.Parse(s, 0).value.raw|..]);
    }
  }

  /** No path or digest longer than `n` bytes. */
  predicate InputWithin(input: Input, n: nat) {
    |Utf8.Encode(input.path)| <= n && |input.digest| <= n
  }

  predicate Within(g: Gathered, n: nat) {
    && (forall a :: a in g.arguments ==> |Utf8.Encode(a)| <= n)
    && forall x :: x in g.inputs ==> InputWithin(x, n)
  }

  lemma {:induction false} EntriesAreWithin(input: Input, fs: seq<Wire.Field>, n: nat)
    requires AbsorbEntries(input, fs).Ok? && InputWithin(input, n)
    requires forall f :: f in fs ==> |f.bytes| <= n
    ensures InputWithin(AbsorbEntries(input, fs).value, n)
    decreases |fs|
  {
    hide Utf8.Encode, Utf8.Decode;
    if fs == [] {
    } else {
      if fs[0].number == 1 && fs[0].wire == 2 {
        Utf8.DecodeIsCanonical(fs[0].bytes);
      }
      EntriesAreWithin(AbsorbEntry(input, fs[0]).value, fs[1..], n);
    }
  }

  lemma InputIsWithin(bytes: Bytes)
    requires ParseInput(bytes).Ok?
    ensures InputWithin(ParseInput(bytes).value, |bytes|)
  {
    hide Wire.Fields;
    FieldsAreWithin(bytes);
    assert Utf8.Encode("") == [];
    EntriesAreWithin(Input("", []), Wire.Fields(bytes).value, |bytes|);
  }

  lemma {:induction false} GatheredIsWithin(g: Gathered, fs: seq<Wire.Field>, n: nat)
    requires AbsorbAll(g, fs).Ok? && Within(g, n)
    requires forall f :: f in fs ==> |f.bytes| <= n
    ensures Within(AbsorbAll(g, fs).value, n)
    decreases |fs|
  {
    hide Utf8.Encode, Utf8.Decode, ParseInput, Varint.ToInt;
    if fs == [] {
    } else {
      if fs[0].number == 1 && fs[0].wire == 2 {
        Utf8.DecodeIsCanonical(fs[0].bytes);
      }
      if fs[0].number == 2 && fs[0].wire == 2 {
        InputIsWithin(fs[0].bytes);
      }
      GatheredIsWithin(Absorb(g, fs[0]).value, fs[1..], n);
    }
  }

  /** Nothing in a parsed request is longer than the message it came from. */
  lemma RequestIsWithin(bytes: Bytes)
    requires ParseRequest(bytes).Ok?
    ensures var r := ParseRequest(bytes).value;
            Within(Gathered(r.arguments, r.inputs, r.requestId), |bytes|)
  {
    hide Wire.Fields;
    FieldsAreWithin(bytes);
    GatheredIsWithin(NOTHING, Wire.Fields(bytes).value, |bytes|);
  }

  // ------------------------------------------------------- the streaming code

  /** The inner loop of the `WorkRequest` constructor. */
  method ReadInput(bytes: Bytes) returns (r: Result<Input>)
    ensures r == ParseInput(bytes)
  {
    hide AbsorbEntry;
    var entries :- Wire.ReadFields(bytes);
    var input := Input("", []);
    for i := 0 to |entries|
      invariant AbsorbEntries(Input("", []), entries) == AbsorbEntries(input, entries[i..])
    {
      assert entries[i..][1..] == entries[i + 1..];
      input :- AbsorbEntry(input, entries[i]);
    }
    return Ok(input);
  }

  /** The `WorkRequest` constructor. */
  method ReadRequest(bytes: Bytes) returns (r: Result<WorkRequest>)
    ensures r == ParseRequest(bytes)
  {
    hide Wire.Fields, ParseInput, Utf8.Decode;
    var fields :- Wire.ReadFields(bytes);
    var arguments: seq<string>, inputs: seq<Input>, requestId := [], [], 0;
    for i := 0 to |fields|
      invariant AbsorbAll(NOTHING, fields)
             == AbsorbAll(Gathered(arguments, inputs, requestId), fields[i..])
    {
      var field := fields[i];
      assert fields[i..][0] == field && fields[i..][1..] == fields[i + 1..];
      if field.number == 1 && field.wire == 2 {
        var argument :- Utf8.Decode(field.bytes);
        arguments := arguments + [argument];
      }
      if field.number == 3 && field.wire == 0 {
        requestId := Varint.ToInt(field.scalar);
      }
      if field.number == 2 && field.wire == 2 {
        var input :- ReadInput(field.bytes);
        inputs := inputs + [input];
      }
    }
    return Ok(WorkRequest(fields, arguments, inputs, requestId));
  }

  /** The `WorkResponse` constructor. */
  method ReadResponse(bytes: Bytes) returns (r: Result<WorkResponse>)
    ensures r == ParseResponse(bytes)
  {
    hide Wire.Fields, Utf8.Decode;
    var fields :- Wire.ReadFields(bytes);
    var response := WorkResponse(bytes, 0, 0, "");
    for i := 0 to |fields|
      invariant AbsorbReplies(WorkResponse(bytes, 0, 0, ""), fields)
             == AbsorbReplies(response, fields[i..])
    {
      var field := fields[i];
      assert fields[i..][0] == field && fields[i..][1..] == fields[i + 1..];
      if field.number == 1 && field.wire == 0 {
        response := response.(exitCode := Varint.ToInt(field.scalar));
      }
      if field.number == 2 && field.wire == 2 {
        var output :- Utf8.Decode(field.bytes);
        response := response.(output := output);
      }
      if field.number == 3 && field.wire == 0 {
        response := response.(requestId := Varint.ToInt(field.scalar));
      }
    }
    return Ok(response);
  }

  /** `WorkerProtocol.string`. */
  method WriteString(output: Bytes, number: nat, value: string) returns (written: Bytes)
    ensures written == output + StringField(number, value)
  {
    var bytes := Utf8.Encode(value);
    written := Varint.WriteTo(output, number * 8 + 2);
    written := Varint.WriteTo(written, |bytes|);
    written := written + bytes;
  }

  lemma {:induction false} ArgumentFieldsAppend(args: seq<string>, last: string)
    ensures ArgumentFields(args + [last]) == ArgumentFields(args) + StringField(1, last)
  {
    hide BytesField;
    if args == [] {
      assert [last][1..] == [];
    } else {
      ArgumentFieldsAppend(args[1..], last);
      assert (args + [last])[0] == args[0] && (args + [last])[1..] == args[1..] + [last];
    }
  }

  lemma RawOthersAppend(fs: seq<Wire.Field>, last: Wire.Field)
    ensures Wire.Raw(Others(fs + [last]))
         == Wire.Raw(Others(fs)) + (if IsArgument(last) then [] else last.raw)
  {
    OthersConcat(fs, [last]);
    Wire.RawConcat(Others(fs), Others([last]));
    assert [last][1..] == [];
  }

  /** `WorkRequest.withArguments`. */
  method ReplaceArguments(r: WorkRequest, args: seq<string>) returns (replaced: Result<WorkRequest>)
    ensures replaced == WithArguments(r, args)
  {
    hide BytesField, Wire.Raw, Others, ArgumentFields, IsArgument;
    var output: Bytes := [];
    NothingPrinted();
    for i := 0 to |args|
      invariant output == ArgumentFields(args[..i])
    {
      ArgumentFieldsAppend(args[..i], args[i]);
      assert args[..i + 1] == args[..i] + [args[i]];
      output := WriteString(output, 1, args[i]);
    }
    assert args[..|args|] == args;
    for i := 0 to |r.fields|
      invariant output == ArgumentFields(args) + Wire.Raw(Others(r.fields[..i]))
    {
      RawOthersAppend(r.fields[..i], r.fields[i]);
      assert r.fields[..i + 1] == r.fields[..i] + [r.fields[i]];
      if !IsArgument(r.fields[i]) {
        output := output + r.fields[i].raw;
      }
    }
    assert r.fields[..|r.fields|] == r.fields;
    replaced := ReadRequest(output);
  }

  lemma NothingPrinted()
    ensures ArgumentFields([]) == [] && Wire.Raw(Others([])) == [] && Wire.Raw([]) == []
  {
  }

  /** `WorkRequest.writeDelimitedTo`. */
  method WriteRequest(output: Bytes, r: WorkRequest) returns (written: Bytes)
    ensures written == output + Framing.Write(Body(r))
  {
    hide Wire.Raw, Varint.Write;
    NothingPrinted();
    var length := 0;
    for i := 0 to |r.fields|
      invariant length == |Wire.Raw(r.fields[..i])|
    {
      RawAppend(r.fields[..i], r.fields[i]);
      assert r.fields[..i + 1] == r.fields[..i] + [r.fields[i]];
      length := length + |r.fields[i].raw|;
    }
    assert r.fields[..|r.fields|] == r.fields;
    written := Varint.WriteTo(output, length);
    for i := 0 to |r.fields|
      invariant written == output + Varint.Write(length) + Wire.Raw(r.fields[..i])
    {
      RawAppend(r.fields[..i], r.fields[i]);
      assert r.fields[..i + 1] == r.fields[..i] + [r.fields[i]];
      written := written + r.fields[i].raw;
    }
  }

  lemma RawAppend(fs: seq<Wire.Field>, last: Wire.Field)
    ensures Wire.Raw(fs + [last]) == Wire.Raw(fs) + last.raw
  {
    Wire.RawConcat(fs, [last]);
    assert [last][1..] == [];
  }

  /** `WorkResponse.error`. */
  method MakeError(requestId: int, message: string) returns (r: Result<WorkResponse>)
    ensures r == ErrorResponse(requestId, message)
  {
    hide Varint.Write, ParseResponse, BytesField;
    var output := Varint.WriteTo([], 8);
    assert output == Varint.Write(8);
    output := Varint.WriteTo(output, 1);
    output := WriteString(output, 2, message);
    output := Varint.WriteTo(output, 24);
    output := Varint.WriteTo(output, Varint.FromInt(requestId));
    assert output == ErrorBytes(requestId, message);
    r := ReadResponse(output);
  }

  /** `WorkResponse.writeDelimitedTo`. */
  method WriteResponse(output: Bytes, r: WorkResponse) returns (written: Bytes)
    ensures written == output + Framing.Write(r.bytes)
  {
    written := Varint.WriteTo(output, |r.bytes|);
    assert written + r.bytes == output + (Varint.Write(|r.bytes|) + r.bytes);
    written := written + r.bytes;
  }
}
