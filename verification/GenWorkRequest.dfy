/**
 * The independent codec of `benchmarks/pgo/gen_workrequest.py`: an encoder for requests,
 * a reader for responses that knows only wire types 0 and 2, and the check over a
 * stream of responses. SHA-256 digests of input files are parameters.
 */
module GenWorkRequest {
  import opened Common
  import opened WorkMessages
  import Framing
  import Utf8
  import Varint
  import Wire

  // ---------------------------------------------------------------- encoding

  function Entry(input: Input): Bytes {
    StringField(1, input.path) + BytesField(2, input.digest)
  }

  function EncodedInputs(inputs: seq<Input>): Bytes
    decreases |inputs|
  {
    if inputs == [] then [] else BytesField(2, Entry(inputs[0])) + EncodedInputs(inputs[1..])
  }

  function Message(arguments: seq<string>, inputs: seq<Input>): Bytes {
    ArgumentFields(arguments) + EncodedInputs(inputs)
  }

  function Request(arguments: seq<string>, inputs: seq<Input>): Bytes {
    Framing.Write(Message(arguments, inputs))
  }

  function InputFields(inputs: seq<Input>): seq<Wire.Field>
    decreases |inputs|
  {
    if inputs == [] then [] else [DelimitedField(2, Entry(inputs[0]))] + InputFields(inputs[1..])
  }

  /** An input whose encoded entry, path and digest each fit in a Java array. */
  predicate EntryFits(input: Input) {
    Fits(input.path) && |input.digest| < Varint.TWO_TO_31 && |Entry(input)| < Varint.TWO_TO_31
  }

  /** The nested message of one input parses to that input. */
  lemma EntryParses(input: Input)
    requires EntryFits(input)
    ensures ParseInput(Entry(input)) == Ok(input)
  {
    hide Wire.Parse, Wire.Standalone, BytesField, Utf8.Encode, Utf8.Decode;
    var a, b := TextField(1, input.path), DelimitedField(2, input.digest);
    DelimitedFieldStands(1, Utf8.Encode(input.path));
    DelimitedFieldStands(2, input.digest);
    Wire.RawParsesBack([a, b]);
    assert [a, b][1..] == [b] && [b][1..] == [];
    assert Wire.Raw([b]) == b.raw;
    assert Wire.Raw([a, b]) == a.raw + b.raw;
    Utf8.RoundTrip(input.path);
    var withPath := Input(input.path, []);
    assert AbsorbEntry(Input("", []), a) == Ok(withPath);
    assert AbsorbEntries(withPath, [b]) == Ok(input);
  }

  lemma {:induction false} InputFieldsParse(inputs: seq<Input>)
    requires forall x :: x in inputs ==> EntryFits(x)
    ensures Wire.Raw(InputFields(inputs)) == EncodedInputs(inputs)
    ensures forall f :: f in InputFields(inputs) ==> Wire.Standalone(f)
    decreases |inputs|
  {
    hide Wire.Parse, Entry, BytesField;
    if inputs == [] {
    } else {
      InputFieldsParse(inputs[1..]);
      assert EntryFits(inputs[0]);
      DelimitedFieldStands(2, Entry(inputs[0]));
      var f := DelimitedField(2, Entry(inputs[0]));
      assert ([f] + InputFields(inputs[1..]))[1..] == InputFields(inputs[1..]);
    }
  }

  lemma {:induction false} AbsorbInputs(g: Gathered, inputs: seq<Input>)
    requires forall x :: x in inputs ==> EntryFits(x)
    ensures AbsorbAll(g, InputFields(inputs)) == Ok(g.(inputs := g.inputs + inputs))
    decreases |inputs|
  {
    hide Entry, BytesField, ParseInput;
    if inputs == [] {
      assert g.inputs + inputs == g.inputs;
    } else {
      assert EntryFits(inputs[0]);
      EntryParses(inputs[0]);
      var f := DelimitedField(2, Entry(inputs[0]));
      var next := g.(inputs := g.inputs + [inputs[0]]);
      assert Absorb(g, f) == Ok(next);
      AbsorbInputs(next, inputs[1..]);
      assert ([f] + InputFields(inputs[1..]))[1..] == InputFields(inputs[1..]);
      assert g.inputs + [inputs[0]] + inputs[1..] == g.inputs + inputs;
    }
  }

  /** The Java worker understands the Python encoder: the message parses to exactly the
      given arguments and inputs, in order, with request id 0. */
  lemma MessageIsUnderstood(arguments: seq<string>, inputs: seq<Input>)
    requires forall a :: a in arguments ==> Fits(a)
    requires forall x :: x in inputs ==> EntryFits(x)
    ensures ParseRequest(Message(arguments, inputs))
         == Ok(WorkRequest(TextFields(arguments) + InputFields(inputs), arguments, inputs, 0))
  {
    hide Wire.Parse, TextFields, InputFields, ArgumentFields, EncodedInputs;
    var fs := TextFields(arguments) + InputFields(inputs);
    ArgumentFieldsParse(arguments);
    InputFieldsParse(inputs);
    Wire.RawConcat(TextFields(arguments), InputFields(inputs));
    Wire.RawParsesBack(fs);
    AbsorbArguments(NOTHING, arguments);
    assert [] + arguments == arguments;
    AbsorbInputs(Gathered(arguments, [], 0), inputs);
    assert [] + inputs == inputs;
    AbsorbConcat(NOTHING, TextFields(arguments), InputFields(inputs));
  }

  /** The same through the stream: a request within the limit is one frame, and reading
      it back leaves what follows it untouched. */
  lemma RequestIsUnderstood(arguments: seq<string>, inputs: seq<Input>, rest: Bytes)
    requires forall a :: a in arguments ==> Fits(a)
    requires forall x :: x in inputs ==> EntryFits(x)
    requires |Message(arguments, inputs)| <= Framing.MAX_MESSAGE
    ensures var frame := Framing.Read(Request(arguments, inputs) + rest);
            && frame == Framing.Message(Message(arguments, inputs), rest)
            && var r := ParseRequest(frame.body);
            && r.Ok? && r.value.arguments == arguments && r.value.inputs == inputs && r.value.requestId == 0
  {
    Framing.RoundTrip(Message(arguments, inputs), rest);
    MessageIsUnderstood(arguments, inputs);
  }

  // ---------------------------------------------------------------- decoding

  /** `_read_varint`, `i` bytes in: ten bytes of any value, so up to 70 bits. */
  function ReadVarint(s: Bytes, i: nat): (r: Result<Varint.Scanned>)
    requires i <= 10
    ensures r.Ok? ==> 1 <= r.value.size <= |s|
    decreases 10 - i
  {
    if i == 10 then Err(InvalidVarint)
    else if s == [] then Err(TruncatedVarint)
    else if s[0] < 128 then Ok(Varint.Scanned(s[0], 1))
    else
      var rest :- ReadVarint(s[1..], i + 1);
      Ok(Varint.Scanned(s[0] - 128 + 128 * rest.value, 1 + rest.size))
  }

  datatype Value = Int(n: nat) | Data(bytes: Bytes)

  /** One element that `fields` yields, and the bytes it used up. */
  datatype Record = Record(number: nat, value: Value, size: nat)

  function ReadRecord(s: Bytes): (r: Result<Record>)
    ensures r.Ok? ==> 1 <= r.value.size <= |s|
  {
    var tag :- ReadVarint(s, 0);
    var after := s[tag.size..];
    var value :- ReadVarint(after, 0);
    if tag.value % 8 == 2 then
      var rest := after[value.size..];
      if value.value > |rest| then Err(TruncatedField)
      else Ok(Record(tag.value / 8, Data(rest[..value.value]), tag.size + value.size + value.value))
    else if tag.value % 8 != 0 then Err(InvalidWireType)
    else Ok(Record(tag.value / 8, Int(value.value), tag.size + value.size))
  }

  /** `fields`, exhausted into a list. */
  function Records(s: Bytes): Result<seq<(nat, Value)>> {
    if s == [] then Ok([])
    else
      var r :- ReadRecord(s);
      var rest :- Records(s[r.size..]);
      Ok([(r.number, r.value)] + rest)
  }

  // ------------------------------------------------------- the two parsers agree

  lemma CapSplits(low: nat, v: nat, i: nat)
    requires low < 128 && i < 9
    ensures low + 128 * v < Varint.Cap(i) <==> v < Varint.Cap(i + 1)
    ensures Varint.Cap(i) >= 128 && Varint.Cap(9) == 2
  {
  }

  lemma {:induction false} VarintsAgree(s: Bytes, i: nat)
    requires i <= 9
    ensures Varint.Read(s, i).Ok? <==>
            ReadVarint(s, i).Ok? && ReadVarint(s, i).value.value < Varint.Cap(i)
    ensures Varint.Read(s, i).Ok? ==> ReadVarint(s, i) == Varint.Read(s, i)
    decreases 9 - i
  {
    hide Varint.Cap;
    if i == 9 {
      CapSplits(0, 0, 0);
      LastVarintsAgree(s);
    } else {
      CapSplits(0, 0, i);
      if s != [] && s[0] >= 128 {
        VarintsAgree(s[1..], i + 1);
        var rest := ReadVarint(s[1..], i + 1);
        if rest.Ok? {
          CapSplits(s[0] - 128, rest.value.value, i);
        }
      }
    }
  }

  /** In the tenth byte. */
  lemma LastVarintsAgree(s: Bytes)
    ensures Varint.Read(s, 9).Ok? <==> ReadVarint(s, 9).Ok? && ReadVarint(s, 9).value.value < 2
    ensures Varint.Read(s, 9).Ok? ==> ReadVarint(s, 9) == Varint.Read(s, 9)
  {
    if s != [] && s[0] >= 128 {
      assert ReadVarint(s[1..], 10).Err?;
    }
  }

  lemma Varints64Agree(s: Bytes)
    ensures Varint.Read(s, 0).Ok? <==>
            ReadVarint(s, 0).Ok? && ReadVarint(s, 0).value.value < Varint.TWO_TO_64
    ensures Varint.Read(s, 0).Ok? ==> ReadVarint(s, 0) == Varint.Read(s, 0)
  {
    Varint.CapIs64Bits();
    VarintsAgree(s, 0);
  }

  function AsRecord(f: Wire.Field): (nat, Value) {
    (f.number, if f.wire == 0 then Int(f.scalar) else Data(f.bytes))
  }

  function AsRecords(fs: seq<Wire.Field>): seq<(nat, Value)>
    decreases |fs|
  {
    if fs == [] then [] else [AsRecord(fs[0])] + AsRecords(fs[1..])
  }

  /** What the Java parser asks of a record beyond what the Python one does. */
  predicate Acceptable(record: (nat, Value)) {
    1 <= record.0 < 0x2000_0000 && (record.1.Int? ==> record.1.n < Varint.TWO_TO_64)
  }

  predicate Simple(f: Wire.Field) {
    f.wire == 0 || f.wire == 2
  }

  lemma BodiesAgree(after: Bytes, wire: nat)
    requires |after| < Varint.TWO_TO_31 && wire in {0, 2} && ReadVarint(after, 0).Ok?
    ensures var value := ReadVarint(after, 0).value;
            match Wire.Body(after, wire)
            case Ok(p) =>
              && value.value < Varint.TWO_TO_64
              && (if wire == 0 then p == Wire.Payload(value.value, [], value.size)
                  else value.value <= |after| - value.size
                       && p == Wire.Payload(0, after[value.size..][..value.value], value.size + value.value))
            case Err(_) =>
              if wire == 0 then value.value >= Varint.TWO_TO_64 else value.value > |after| - value.size
  {
    hide Varint.Read, ReadVarint;
    Varints64Agree(after);
  }

  /** On one record the Java parser accepts what the Python parser accepts and finds
      acceptable, with the same number, value and extent. */
  lemma RecordsAgree(s: Bytes)
    requires |s| < Varint.TWO_TO_31
    ensures Wire.Token(s).Ok? && Simple(Wire.Token(s).value) <==>
            ReadRecord(s).Ok? && Acceptable((ReadRecord(s).value.number, ReadRecord(s).value.value))
    ensures Wire.Token(s).Ok? && Simple(Wire.Token(s).value) ==>
              && AsRecord(Wire.Token(s).value) == (ReadRecord(s).value.number, ReadRecord(s).value.value)
              && |Wire.Token(s).value.raw| == ReadRecord(s).value.size
  {
    hide Varint.Read, ReadVarint, Wire.Body;
    Varints64Agree(s);
    var tag := ReadVarint(s, 0);
    if tag.Ok? && tag.value.value % 8 in {0, 2} {
      var after := s[tag.value.size..];
      Varints64Agree(after);
      if ReadVarint(after, 0).Ok? {
        BodiesAgree(after, tag.value.value % 8);
      } else {
        BodyNeedsVarint(after, tag.value.value % 8);
      }
    }
  }

  lemma BodyNeedsVarint(after: Bytes, wire: nat)
    requires wire in {0, 2} && Varint.Read(after, 0).Err?
    ensures Wire.Body(after, wire).Err?
  {
  }

  /** Both parsers agree on whole messages. A message that Java accepts using only wire
      types 0 and 2 is one that Python accepts and whose records are all acceptable; and
      then both see the same numbers and the same values, in the same order. */
  lemma {:induction false} ParsersAgree(s: Bytes)
    requires |s| < Varint.TWO_TO_31
    ensures (Wire.Fields(s).Ok? && forall f :: f in Wire.Fields(s).value ==> Simple(f)) <==>
            (Records(s).Ok? && forall r :: r in Records(s).value ==> Acceptable(r))
    ensures Wire.Fields(s).Ok? && (forall f :: f in Wire.Fields(s).value ==> Simple(f)) ==>
              Records(s) == Ok(AsRecords(Wire.Fields(s).value))
    decreases |s|
  {
    hide Wire.Token, ReadRecord, Acceptable, AsRecord;
    if s == [] {
    } else {
      RecordsAgree(s);
      SimpleHead(s);
      var t, r := Wire.Token(s), ReadRecord(s);
      if t.Ok? && Simple(t.value) {
        var tail := s[|t.value.raw|..];
        ParsersAgree(tail);
        var fs := Wire.Fields(tail);
        if fs.Ok? {
          assert Wire.Fields(s) == Ok([t.value] + fs.value);
          assert ([t.value] + fs.value)[1..] == fs.value;
          assert forall f :: f in [t.value] + fs.value <==> f == t.value || f in fs.value;
        }
        if Records(tail).Ok? {
          var head := (r.value.number, r.value.value);
          assert Records(s) == Ok([head] + Records(tail).value);
          assert forall x :: x in [head] + Records(tail).value <==> x == head || x in Records(tail).value;
        }
      } else {
        HeadDecides(s);
      }
    }
  }

  lemma SimpleHead(s: Bytes)
    ensures Wire.Parse(s, 0).Ok? ==> Wire.Token(s).Ok? && Wire.Parse(s, 0).value.wire == Wire.Token(s).value.wire
    ensures Wire.Token(s).Ok? && Simple(Wire.Token(s).value) ==> Wire.Parse(s, 0) == Wire.Token(s)
  {
    hide Wire.Token, Wire.Group;
  }

  /** The first field or record of a message is in the result. */
  lemma HeadDecides(s: Bytes)
    requires s != []
    ensures Wire.Fields(s).Ok? ==> Wire.Parse(s, 0).Ok? && Wire.Parse(s, 0).value in Wire.Fields(s).value
    ensures Records(s).Ok? ==>
              && ReadRecord(s).Ok?
              && (ReadRecord(s).value.number, ReadRecord(s).value.value) in Records(s).value
  {
    hide Wire.Parse, ReadRecord;
  }

  // ------------------------------------------------------------ check_responses

  /** `dict(...).get(number)`: the last value under a number wins. */
  function Get(records: seq<(nat, Value)>, number: nat): Option<Value>
    decreases |records|
  {
    if records == [] then None
    else
      var later := Get(records[1..], number);
      if later.Some? then later
      else if records[0].0 == number then Some(records[0].1) else None
  }

  /** Python truth of `response.get(number, 0)`. */
  predicate Truthy(v: Option<Value>) {
    match v
    case None => false
    case Some(Int(n)) => n != 0
    case Some(Data(bytes)) => bytes != []
  }

  /** A reply that the check lets pass: readable, exit code 0, not cancelled. */
  predicate Passes(body: Bytes) {
    var r := Records(body);
    r.Ok? && !Truthy(Get(r.value, 1)) && !Truthy(Get(r.value, 4))
  }

  /** The number of replies counted, or the exception. */
  datatype Count = Counted(n: nat) | Raised

  function CountResponses(data: Bytes): Count
    decreases |data|
  {
    if data == [] then Counted(0)
    else
      match ReadVarint(data, 0)
      case Err(_) => Raised
      case Ok(size) =>
        var rest := data[size.size..];
        if size.value > |rest| || !Passes(rest[..size.value]) then Raised
        else
          match CountResponses(rest[size.value..])
          case Raised => Raised
          case Counted(n) => Counted(n + 1)
  }

  lemma CountsOne(body: Bytes, tail: Bytes)
    requires |body| < Varint.TWO_TO_31
    ensures CountResponses(Framing.Write(body) + tail) ==
            if !Passes(body) || CountResponses(tail).Raised? then Raised
            else Counted(CountResponses(tail).n + 1)
  {
    hide Passes, ReadVarint, Varint.Write, Varint.Read;
    var prefix := Varint.Write(|body|);
    var data := prefix + (body + tail);
    Varint.RoundTrip(|body|, body + tail);
    Varints64Agree(data);
    assert Framing.Write(body) + tail == data;
    assert data[|prefix|..] == body + tail;
    assert (body + tail)[..|body|] == body && (body + tail)[|body|..] == tail;
  }

  /** Over a stream of framed replies the check counts them all, and raises as soon as
      one of them is not a plain success. */
  lemma {:induction false} CountsEveryResponse(bodies: seq<Bytes>)
    requires forall b :: b in bodies ==> |b| < Varint.TWO_TO_31
    ensures CountResponses(Framing.WriteAll(bodies)) ==
            if forall b :: b in bodies ==> Passes(b) then Counted(|bodies|) else Raised
    decreases |bodies|
  {
    hide Passes, Framing.Write;
    if bodies == [] {
    } else {
      assert bodies == [bodies[0]] + bodies[1..];
      CountsEveryResponse(bodies[1..]);
      assert bodies[0] in bodies;
      CountsOne(bodies[0], Framing.WriteAll(bodies[1..]));
    }
  }

  /** The last field under a number. */
  predicate LastAt(fs: seq<Wire.Field>, number: nat, i: int) {
    0 <= i < |fs| && fs[i].number == number && forall j :: i < j < |fs| ==> fs[j].number != number
  }

  /** Python's dictionary holds the last field under each number. */
  lemma {:induction false} GetIsLast(fs: seq<Wire.Field>, number: nat)
    ensures match Get(AsRecords(fs), number)
            case None => forall f :: f in fs ==> f.number != number
            case Some(v) => exists i :: LastAt(fs, number, i) && v == AsRecord(fs[i]).1
    decreases |fs|
  {
    if fs == [] {
    } else {
      var head, rest := AsRecord(fs[0]), AsRecords(fs[1..]);
      assert ([head] + rest)[1..] == rest;
      GetIsLast(fs[1..], number);
      if Get(rest, number).Some? {
        var i :| LastAt(fs[1..], number, i) && Get(rest, number).value == AsRecord(fs[1..][i]).1;
        var k := i + 1;
        assert fs[1..][i] == fs[k];
        forall j | k < j < |fs|
          ensures fs[j].number != number
        {
          assert fs[1..][j - 1] == fs[j];
        }
        assert LastAt(fs, number, k);
      } else if fs[0].number == number {
        assert forall j :: 0 < j < |fs| ==> fs[j] == fs[1..][j - 1] && fs[1..][j - 1] in fs[1..];
        assert LastAt(fs, number, 0);
      }
    }
  }

  lemma LastIsOne(fs: seq<Wire.Field>, number: nat, i: int, k: int)
    requires LastAt(fs, number, i) && LastAt(fs, number, k)
    ensures i == k
  {
  }

  /** Zero, or nothing at all. */
  predicate Falsy(f: Wire.Field) {
    if f.wire == 0 then f.scalar == 0 else f.bytes == []
  }

  predicate LastIsFalsy(fs: seq<Wire.Field>, number: nat) {
    forall i :: 0 <= i < |fs| && LastAt(fs, number, i) ==> Falsy(fs[i])
  }

  lemma TruthOfLast(fs: seq<Wire.Field>, number: nat)
    ensures !Truthy(Get(AsRecords(fs), number)) <==> LastIsFalsy(fs, number)
  {
    hide Get, AsRecords;
    GetIsLast(fs, number);
    if Get(AsRecords(fs), number).Some? {
      var k :| LastAt(fs, number, k) && Get(AsRecords(fs), number).value == AsRecord(fs[k]).1;
      forall i | LastAt(fs, number, i)
        ensures i == k
      {
        LastIsOne(fs, number, i, k);
      }
    }
  }

  /** Which replies pass, of all that Java parses: those with wire types 0 and 2 only whose
      last exit code and last cancel mark, where there are any, are zero or empty. */
  lemma PassesExactlyWhen(body: Bytes)
    requires |body| < Varint.TWO_TO_31 && Wire.Fields(body).Ok?
    ensures var fs := Wire.Fields(body).value;
            Passes(body) <==>
            && (forall f :: f in fs ==> f.wire == 0 || f.wire == 2)
            && LastIsFalsy(fs, 1) && LastIsFalsy(fs, 4)
  {
    hide Wire.Fields, Records, Get, LastIsFalsy, Truthy;
    var fs := Wire.Fields(body).value;
    TruthOfLast(fs, 1);
    TruthOfLast(fs, 4);
    if Passes(body) {
      GetIsAgreed(body);
      assert forall f :: f in fs ==> Simple(f);
    }
    if forall f :: f in fs ==> f.wire == 0 || f.wire == 2 {
      assert forall f :: f in fs ==> Simple(f);
      ParsersAgree(body);
    }
  }

  /** In particular a plain success passes, whatever its output and its other fields. */
  lemma SuccessPasses(body: Bytes)
    requires |body| < Varint.TWO_TO_31 && Wire.Fields(body).Ok?
    requires forall f :: f in Wire.Fields(body).value ==> f.wire == 0 || f.wire == 2
    requires forall f :: f in Wire.Fields(body).value && f.number in {1, 4} ==> f.wire == 0 && f.scalar == 0
    ensures Passes(body)
  {
    hide Wire.Fields, Passes;
    PassesExactlyWhen(body);
  }

  /** Where the last field under number 1 is a varint, the exit code that Python keeps is
      the one that Java keeps; without such a field both keep the default. */
  lemma {:induction false} LastExitCodeWins(r: WorkResponse, fs: seq<Wire.Field>)
    requires AbsorbReplies(r, fs).Ok?
    ensures match Get(AsRecords(fs), 1)
            case Some(Int(n)) => AbsorbReplies(r, fs).value.exitCode == Varint.ToInt(n)
            case Some(Data(_)) => exists f :: f in fs && f.number == 1 && f.wire != 0
            case None => AbsorbReplies(r, fs).value.exitCode == r.exitCode
    decreases |fs|
  {
    hide Utf8.Decode, Varint.ToInt;
    if fs == [] {
    } else {
      var head, rest := AsRecord(fs[0]), AsRecords(fs[1..]);
      assert ([head] + rest)[1..] == rest;
      LastExitCodeWins(AbsorbReply(r, fs[0]).value, fs[1..]);
      if Get(rest, 1).Some? && Get(rest, 1).value.Data? {
        var f :| f in fs[1..] && f.number == 1 && f.wire != 0;
        assert f in fs;
      } else if Get(rest, 1).None? && fs[0].number == 1 && fs[0].wire != 0 {
        assert fs[0] in fs;
      }
    }
  }

  /** What makes the check blind to a reply's exit code: every field is one that Python
      reads, the last under number 1 is an empty string of bytes, and no later check
      catches the reply. */
  predicate Hidden(fs: seq<Wire.Field>) {
    && (forall f :: f in fs ==> Simple(f))
    && Get(AsRecords(fs), 1) == Some(Data([]))
    && !Truthy(Get(AsRecords(fs), 4))
  }

  /** Which failed compiles pass the check: a reply that Java reads as a non-zero exit code
      passes exactly when its exit code is hidden. */
  lemma FailurePassesExactlyWhen(body: Bytes)
    requires |body| < Varint.TWO_TO_31 && ParseResponse(body).Ok?
    requires ParseResponse(body).value.exitCode != 0
    ensures Passes(body) <==> Hidden(Wire.Fields(body).value)
  {
    hide Wire.Fields, Records, AbsorbReplies, Simple, Get, Varint.ToInt;
    var fs := Wire.Fields(body).value;
    LastExitCodeWins(WorkResponse(body, 0, 0, ""), fs);
    assert Varint.ToInt(0) == 0 by { ZeroIsZero(); }
    if Passes(body) {
      GetIsAgreed(body);
    }
    if forall f :: f in fs ==> Simple(f) {
      ParsersAgree(body);
    }
  }

  lemma ZeroIsZero()
    ensures Varint.ToInt(0) == 0
  {
  }

  /** The case exists: exit code 1, then an empty string under the same number. */
  lemma HiddenFailurePasses()
    ensures var body := [8, 1, 10, 0];
            ParseResponse(body).Ok? && ParseResponse(body).value.exitCode == 1 && Passes(body)
  {
    hide Utf8.Decode, Varint.Write, Wire.Parse, Wire.Standalone, Varint.Read, Passes;
    var code, none := ScalarField(1, 1), DelimitedField(1, []);
    var body := [8, 1, 10, 0];
    var start := WorkResponse(body, 0, 0, "");
    HiddenBytes();
    ScalarFieldStands(1, 1);
    DelimitedFieldStands(1, []);
    Wire.RawParsesBack([code, none]);
    assert [code, none][1..] == [none] && [none][1..] == [];
    assert Varint.ToInt(1) == 1;
    assert AbsorbReply(start, code) == Ok(start.(exitCode := 1));
    assert AbsorbReplies(start.(exitCode := 1), [none]) == Ok(start.(exitCode := 1));
    assert AsRecords([none]) == [(1, Data([]))];
    assert AsRecords([code, none]) == [(1, Int(1)), (1, Data([]))];
    FailurePassesExactlyWhen(body);
  }

  lemma HiddenBytes()
    ensures Wire.Raw([ScalarField(1, 1), DelimitedField(1, [])]) == [8, 1, 10, 0]
  {
    var code, none := ScalarField(1, 1), DelimitedField(1, []);
    assert Varint.Write(8) == [8] && Varint.Write(1) == [1] && Varint.Write(10) == [10] && Varint.Write(0) == [0];
    assert code.raw == [8, 1] && none.raw == [10, 0];
    assert [code, none][1..] == [none] && [none][1..] == [];
    assert Wire.Raw([none]) == [10, 0];
  }

  /** No failed compile passes the check when its exit code comes as a varint. */
  lemma FailuresAreCaught(body: Bytes)
    requires |body| < Varint.TWO_TO_31 && ParseResponse(body).Ok?
    requires forall f :: f in Wire.Fields(body).value && f.number == 1 ==> f.wire == 0
    requires ParseResponse(body).value.exitCode != 0
    ensures !Passes(body)
  {
    hide Wire.Fields, Records, AbsorbReplies, Passes, Simple;
    FailurePassesExactlyWhen(body);
    LastExitCodeWins(WorkResponse(body, 0, 0, ""), Wire.Fields(body).value);
  }

  /** What Python reads under a number is what the Java fields hold under it, and then all
      of them are of the two wire types that Python knows. */
  lemma GetIsAgreed(body: Bytes)
    requires |body| < Varint.TWO_TO_31 && Wire.Fields(body).Ok? && Records(body).Ok?
    ensures Records(body).value == AsRecords(Wire.Fields(body).value)
    ensures forall f :: f in Wire.Fields(body).value ==> Simple(f)
    decreases |body|
  {
    hide Wire.Token, ReadRecord, AsRecord, Acceptable;
    if body == [] {
    } else {
      SimpleHead(body);
      OnlySimple(body);
      RecordsAgree(body);
      var t := Wire.Token(body).value;
      var tail := body[|t.raw|..];
      GetIsAgreed(tail);
      assert ([t] + Wire.Fields(tail).value)[1..] == Wire.Fields(tail).value;
    }
  }

  /** A token that both parsers accept has wire type 0 or 2. */
  lemma OnlySimple(s: Bytes)
    requires Wire.Token(s).Ok? && ReadRecord(s).Ok?
    ensures Simple(Wire.Token(s).value)
  {
    hide Varint.Read, ReadVarint, Wire.Body;
    Varints64Agree(s);
  }

  /** The error reply of the Java worker never passes, whatever its id and message. */
  lemma ErrorRepliesAreCaught(requestId: int, message: string)
    requires -Varint.TWO_TO_31 <= requestId < Varint.TWO_TO_31 && Fits(message)
    requires |ErrorBytes(requestId, message)| < Varint.TWO_TO_31
    ensures !Passes(ErrorBytes(requestId, message))
  {
    hide Wire.Fields, ErrorBytes, Passes;
    ErrorRoundTrip(requestId, message);
    ErrorFieldsParse(requestId, message);
    FailuresAreCaught(ErrorBytes(requestId, message));
  }

  // ------------------------------------------------------------------ the loops

  /** `_varint` */
  method EncodeVarint(n: nat) returns (out: Bytes)
    ensures out == Varint.Write(n)
  {
    out := [];
    var rest := n;
    while true
      invariant Varint.Write(n) == out + Varint.Write(rest)
      decreases rest
    {
      var b := rest % 128;
      assert Varint.Write(n) == out + (if rest < 128 then [b] else [b + 128] + Varint.Write(rest / 128));
      rest := rest / 128;
      out := out + [if rest != 0 then b + 128 else b];
      if rest == 0 {
        return;
      }
    }
  }

  /** `request` */
  method EncodeRequest(arguments: seq<string>, inputs: seq<Input>) returns (out: Bytes)
    ensures out == Request(arguments, inputs)
  {
    hide BytesField, Entry, Varint.Write, Utf8.Encode;
    var msg: Bytes := [];
    assert arguments[..0] == [];
    for i := 0 to |arguments|
      invariant msg == ArgumentFields(arguments[..i])
    {
      ArgumentFieldsAppend(arguments[..i], arguments[i]);
      assert arguments[..i + 1] == arguments[..i] + [arguments[i]];
      var field := EncodeField(1, Utf8.Encode(arguments[i]));
      msg := msg + field;
    }
    assert arguments[..|arguments|] == arguments;
    for i := 0 to |inputs|
      invariant Message(arguments, inputs) == msg + EncodedInputs(inputs[i..])
    {
      assert inputs[i..][1..] == inputs[i + 1..];
      var path := EncodeField(1, Utf8.Encode(inputs[i].path));
      var digest := EncodeField(2, inputs[i].digest);
      assert path + digest == Entry(inputs[i]) by { EntryIs(inputs[i]); }
      var field := EncodeField(2, path + digest);
      assert msg + (field + EncodedInputs(inputs[i + 1..])) == msg + field + EncodedInputs(inputs[i + 1..]);
      msg := msg + field;
    }
    assert msg + [] == msg;
    var length := EncodeVarint(|msg|);
    out := length + msg;
  }

  lemma EntryIs(input: Input)
    ensures Entry(input) == BytesField(1, Utf8.Encode(input.path)) + BytesField(2, input.digest)
  {
  }

  /** `_field` */
  method EncodeField(number: nat, data: Bytes) returns (out: Bytes)
    ensures out == BytesField(number, data)
  {
    var tag := EncodeVarint(number * 8 + 2);
    var length := EncodeVarint(|data|);
    out := tag + length + data;
  }

  /** One round of a varint loop over the bytes from `s`, `i` bytes in. */
  lemma ExtendOver(low: nat, i: nat, s: Bytes)
    requires i < 10
    ensures Varint.Extend(low, i, ReadVarint(s, i)) ==
            if s == [] then Err(TruncatedVarint)
            else if s[0] < 128 then Ok(Varint.Scanned(low + Varint.Pow128(i) * (s[0] % 128), i + 1))
            else Varint.Extend(low + Varint.Pow128(i) * (s[0] % 128), i + 1, ReadVarint(s[1..], i + 1))
  {
    if s != [] && s[0] >= 128 && ReadVarint(s[1..], i + 1).Ok? {
      Varint.ExtendStep(low, i, s[0] % 128, ReadVarint(s[1..], i + 1).value);
    }
  }

  lemma ExtendExhausted(low: nat, s: Bytes)
    ensures Varint.Extend(low, 10, ReadVarint(s, 10)) == Err(InvalidVarint)
  {
  }

  /** `_read_varint`: the value and the offset behind it. */
  method DecodeVarint(data: Bytes, offset: nat) returns (r: Result<(nat, nat)>)
    requires offset <= |data|
    ensures match ReadVarint(data[offset..], 0)
            case Ok(v) => r == Ok((v.value, offset + v.size))
            case Err(e) => r == Err(e)
  {
    hide ReadVarint, Varint.Extend;
    var value: nat, at := 0, offset;
    Varint.ExtendZero(ReadVarint(data[offset..], 0));
    for i := 0 to 10
      invariant at == offset + i <= |data|
      invariant ReadVarint(data[offset..], 0) == Varint.Extend(value, i, ReadVarint(data[at..], i))
    {
      ExtendOver(value, i, data[at..]);
      if at >= |data| {
        return Err(TruncatedVarint);
      }
      var b := data[at];
      assert data[at..][0] == b && data[at..][1..] == data[at + 1..];
      at := at + 1;
      value := value + Varint.Pow128(i) * (b % 128);
      if b < 128 {
        return Ok((value, at));
      }
    }
    ExtendExhausted(value, data[at..]);
    return Err(InvalidVarint);
  }

  /** The loop of `fields`, with `yield` appending to the result. */
  method DecodeFields(data: Bytes) returns (r: Result<seq<(nat, Value)>>)
    ensures r == Records(data)
  {
    hide ReadRecord;
    var offset, records: seq<(nat, Value)> := 0, [];
    assert data[0..] == data;
    assert forall rest: seq<(nat, Value)> :: [] + rest == rest;
    while offset < |data|
      invariant offset <= |data|
      invariant Records(data) == match Records(data[offset..])
                                 case Ok(rest) => Ok(records + rest)
                                 case Err(e) => Err(e)
    {
      var record :- DecodeRecord(data, offset);
      assert data[offset..][record.size..] == data[offset + record.size..];
      var head := (record.number, record.value);
      assert forall rest: seq<(nat, Value)> :: records + ([head] + rest) == records + [head] + rest;
      records := records + [head];
      offset := offset + record.size;
    }
    assert records + [] == records;
    return Ok(records);
  }

  /** One round of `fields`. */
  method DecodeRecord(data: Bytes, offset: nat) returns (r: Result<Record>)
    requires offset < |data|
    ensures r == ReadRecord(data[offset..])
  {
    hide ReadVarint;
    ghost var s := data[offset..];
    var first :- DecodeVarint(data, offset);
    var (tag, afterTag) := first;
    assert s[afterTag - offset..] == data[afterTag..];
    var second :- DecodeVarint(data, afterTag);
    var (value, afterValue) := second;
    assert data[afterTag..][afterValue - afterTag..] == data[afterValue..];
    if tag % 8 == 2 {
      var end := afterValue + value;
      if end > |data| {
        return Err(TruncatedField);
      }
      assert data[afterValue..][..value] == data[afterValue..end];
      return Ok(Record(tag / 8, Data(data[afterValue..end]), end - offset));
    } else if tag % 8 != 0 {
      return Err(InvalidWireType);
    }
    return Ok(Record(tag / 8, Int(value), afterValue - offset));
  }

  /** `check_responses`: true when it returns, false when it raises. */
  method CheckResponses(data: Bytes, expected: nat) returns (passed: bool)
    ensures passed <==> CountResponses(data) == Counted(expected)
  {
    hide Records, ReadVarint, Get;
    var offset, count: nat := 0, 0;
    assert data[0..] == data;
    while offset < |data|
      invariant offset <= |data|
      invariant CountResponses(data) == match CountResponses(data[offset..])
                                        case Counted(n) => Counted(count + n)
                                        case Raised => Raised
    {
      var header := DecodeVarint(data, offset);
      if header.Err? {
        return false;
      }
      var (size, body) := header.value;
      assert data[offset..][body - offset..] == data[body..];
      var end := body + size;
      if end > |data| {
        return false;
      }
      assert data[body..][..size] == data[body..end] && data[body..][size..] == data[end..];
      var response := DecodeFields(data[body..end]);
      if response.Err? {
        return false;
      }
      if Truthy(Get(response.value, 1)) || Truthy(Get(response.value, 4)) {
        return false;
      }
      count := count + 1;
      offset := end;
    }
    return count == expected;
  }
}
