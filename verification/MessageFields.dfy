/**
 * What `WorkRequest`, `Input` and `WorkResponse` hold, said without their constructors'
 * loops: which fields of the message each member comes from, and which of them counts.
 */
module MessageFields {
  import opened Common
  import opened WorkMessages
  import Utf8
  import Varint
  import Wire

  /** The fields of one number and wire type, in order. */
  function Select(fs: seq<Wire.Field>, number: nat, wire: nat): (found: seq<Wire.Field>)
    decreases |fs|
  {
    if fs == [] then []
    else
      var last := fs[|fs| - 1];
      Select(fs[..|fs| - 1], number, wire) + if last.number == number && last.wire == wire then [last] else []
  }

  /** The last varint under a number as an `int`, or 0. */
  function LastInt(fs: seq<Wire.Field>, number: nat): int {
    var found := Select(fs, number, 0);
    if found == [] then 0 else Varint.ToInt(found[|found| - 1].scalar)
  }

  /** The last byte array under a number, or the empty one. */
  function LastBytes(fs: seq<Wire.Field>, number: nat): Bytes {
    var found := Select(fs, number, 2);
    if found == [] then [] else found[|found| - 1].bytes
  }

  predicate AreTexts(fs: seq<Wire.Field>) {
    forall f :: f in fs ==> Utf8.Decode(f.bytes).Ok?
  }

  lemma SelectLast(fs: seq<Wire.Field>, number: nat, wire: nat)
    requires fs != []
    ensures var front, last := fs[..|fs| - 1], fs[|fs| - 1];
            Select(fs, number, wire) ==
            if last.number == number && last.wire == wire then Select(front, number, wire) + [last]
            else Select(front, number, wire)
  {
  }

  lemma TextsLast(fs: seq<Wire.Field>, number: nat)
    requires fs != []
    ensures var front, last := fs[..|fs| - 1], fs[|fs| - 1];
            var own := last.number == number && last.wire == 2;
            && (AreTexts(Select(fs, number, 2)) <==>
                AreTexts(Select(front, number, 2)) && (own ==> Utf8.Decode(last.bytes).Ok?))
            && LastBytes(fs, number) == if own then last.bytes else LastBytes(front, number)
  {
    hide Select, Utf8.Decode;
    SelectLast(fs, number, 2);
    var last := fs[|fs| - 1];
    assert last.number == number && last.wire == 2 ==> last in Select(fs, number, 2);
  }

  lemma IntLast(fs: seq<Wire.Field>, number: nat)
    requires fs != []
    ensures var front, last := fs[..|fs| - 1], fs[|fs| - 1];
            LastInt(fs, number) ==
            if last.number == number && last.wire == 0 then Varint.ToInt(last.scalar) else LastInt(front, number)
  {
    hide Select, Varint.ToInt;
    SelectLast(fs, number, 0);
  }

  lemma NothingFound()
    ensures forall number, wire :: Select([], number, wire) == []
    ensures Utf8.Decode([]) == Ok("")
  {
  }

  // -------------------------------------------------------------------- inputs

  /** The nested messages that are inputs. */
  predicate IsInput(bytes: Bytes) {
    Wire.Fields(bytes).Ok? && AreTexts(Select(Wire.Fields(bytes).value, 1, 2))
  }

  /** An input has the last path and the last digest of its message. */
  predicate InputHolds(bytes: Bytes, x: Input) {
    && Wire.Fields(bytes).Ok?
    && Utf8.Decode(LastBytes(Wire.Fields(bytes).value, 1)) == Ok(x.path)
    && x.digest == LastBytes(Wire.Fields(bytes).value, 2)
  }

  lemma {:induction false} EntriesAppend(input: Input, fs: seq<Wire.Field>, last: Wire.Field)
    ensures AbsorbEntries(input, fs + [last]) == match AbsorbEntries(input, fs)
                                                 case Ok(x) => AbsorbEntry(x, last)
                                                 case Err(e) => Err(e)
    decreases |fs|
  {
    hide AbsorbEntry;
    if fs == [] {
      assert [last][1..] == [];
      assert AbsorbEntry(input, last).Ok? ==>
          AbsorbEntries(AbsorbEntry(input, last).value, []) == AbsorbEntry(input, last);
    } else {
      assert (fs + [last])[0] == fs[0] && (fs + [last])[1..] == fs[1..] + [last];
      if AbsorbEntry(input, fs[0]).Ok? {
        EntriesAppend(AbsorbEntry(input, fs[0]).value, fs[1..], last);
      }
    }
  }

  lemma {:induction false} EntriesHold(fs: seq<Wire.Field>)
    ensures AbsorbEntries(Input("", []), fs).Ok? <==> AreTexts(Select(fs, 1, 2))
    ensures var x := AbsorbEntries(Input("", []), fs);
            x.Ok? ==> Utf8.Decode(LastBytes(fs, 1)) == Ok(x.value.path) && x.value.digest == LastBytes(fs, 2)
    decreases |fs|
  {
    hide Utf8.Decode, Select, AbsorbEntries, AreTexts;
    if fs == [] {
      NothingAbsorbed();
    } else {
      hide LastBytes;
      var front, last := fs[..|fs| - 1], fs[|fs| - 1];
      assert fs == front + [last];
      EntriesHold(front);
      EntriesAppend(Input("", []), front, last);
      TextsLast(fs, 1);
      TextsLast(fs, 2);
    }
  }

  lemma NothingAbsorbed()
    ensures AbsorbEntries(Input("", []), []) == Ok(Input("", []))
    ensures AbsorbAll(NOTHING, []) == Ok(NOTHING)
    ensures forall bytes :: AbsorbReplies(WorkResponse(bytes, 0, 0, ""), []) == Ok(WorkResponse(bytes, 0, 0, ""))
    ensures forall number, wire :: Select([], number, wire) == []
    ensures forall number :: AreTexts(Select([], number, 2))
    ensures Utf8.Decode([]) == Ok("")
  {
    NothingFound();
  }

  lemma InputIsItsFields(bytes: Bytes)
    ensures ParseInput(bytes).Ok? <==> IsInput(bytes)
    ensures ParseInput(bytes).Ok? ==> InputHolds(bytes, ParseInput(bytes).value)
  {
    hide Wire.Fields, AbsorbEntries, Select, Utf8.Decode;
    if Wire.Fields(bytes).Ok? {
      EntriesHold(Wire.Fields(bytes).value);
    }
  }

  // ------------------------------------------------------------------ requests

  /** The members of a request: an argument for each byte array under number 1, an input
      for each under number 2, in order, and the id that the last varint under 3 gives. */
  predicate Holds(fs: seq<Wire.Field>, g: Gathered) {
    var texts, entries := Select(fs, 1, 2), Select(fs, 2, 2);
    && |g.arguments| == |texts|
    && (forall i :: 0 <= i < |texts| ==> Utf8.Decode(texts[i].bytes) == Ok(g.arguments[i]))
    && |g.inputs| == |entries|
    && (forall i :: 0 <= i < |entries| ==> InputHolds(entries[i].bytes, g.inputs[i]))
    && g.requestId == LastInt(fs, 3)
  }

  /** The fields of which a request can be made. */
  predicate MakesRequest(fs: seq<Wire.Field>) {
    AreTexts(Select(fs, 1, 2)) && forall f :: f in Select(fs, 2, 2) ==> IsInput(f.bytes)
  }

  lemma AbsorbLast(g: Gathered, fs: seq<Wire.Field>)
    requires fs != []
    ensures AbsorbAll(g, fs) == match AbsorbAll(g, fs[..|fs| - 1])
                                case Ok(h) => Absorb(h, fs[|fs| - 1])
                                case Err(e) => Err(e)
  {
    hide Absorb;
    var front, last := fs[..|fs| - 1], fs[|fs| - 1];
    assert fs == front + [last];
    AbsorbConcat(g, front, [last]);
    assert [last][1..] == [];
    if AbsorbAll(g, front).Ok? {
      var h := AbsorbAll(g, front).value;
      assert AbsorbAll(h, [last]) == Absorb(h, last);
    }
  }

  lemma {:induction false} AllHold(fs: seq<Wire.Field>)
    ensures AbsorbAll(NOTHING, fs).Ok? <==> MakesRequest(fs)
    ensures AbsorbAll(NOTHING, fs).Ok? ==> Holds(fs, AbsorbAll(NOTHING, fs).value)
    decreases |fs|
  {
    hide Utf8.Decode, ParseInput, IsInput, InputHolds, Varint.ToInt, Select, AbsorbAll, Holds, MakesRequest, Absorb;
    if fs == [] {
      NothingHolds();
    } else {
      var front := fs[..|fs| - 1];
      AllHold(front);
      AbsorbLast(NOTHING, fs);
      MakesLast(fs);
      if AbsorbAll(NOTHING, front).Ok? {
        HoldsLast(fs, AbsorbAll(NOTHING, front).value);
      }
    }
  }

  lemma NothingHolds()
    ensures AbsorbAll(NOTHING, []) == Ok(NOTHING) && MakesRequest([]) && Holds([], NOTHING)
  {
    hide Utf8.Decode, IsInput, InputHolds, Select;
    NothingAbsorbed();
  }

  lemma MakesLast(fs: seq<Wire.Field>)
    requires fs != []
    ensures var front, last := fs[..|fs| - 1], fs[|fs| - 1];
            MakesRequest(fs) <==>
            && MakesRequest(front)
            && (last.number == 1 && last.wire == 2 ==> Utf8.Decode(last.bytes).Ok?)
            && (last.number == 2 && last.wire == 2 ==> IsInput(last.bytes))
  {
    hide Utf8.Decode, IsInput, Select, AreTexts;
    var last := fs[|fs| - 1];
    TextsLast(fs, 1);
    SelectLast(fs, 2, 2);
    assert last.number == 2 && last.wire == 2 ==> last in Select(fs, 2, 2);
  }

  lemma HoldsLast(fs: seq<Wire.Field>, g: Gathered)
    requires fs != [] && Holds(fs[..|fs| - 1], g)
    ensures var last := fs[|fs| - 1];
            var next := Absorb(g, last);
            && (next.Ok? <==> && (last.number == 1 && last.wire == 2 ==> Utf8.Decode(last.bytes).Ok?)
                              && (last.number == 2 && last.wire == 2 ==> IsInput(last.bytes)))
            && (next.Ok? ==> Holds(fs, next.value))
  {
    hide Utf8.Decode, ParseInput, IsInput, InputHolds, Varint.ToInt, Select, LastInt;
    SelectLast(fs, 1, 2);
    SelectLast(fs, 2, 2);
    IntLast(fs, 3);
    InputIsItsFields(fs[|fs| - 1].bytes);
  }

  /** A request holds what its message says, field by field, whatever else is in it. */
  lemma RequestIsItsFields(bytes: Bytes)
    ensures ParseRequest(bytes).Ok? <==> Wire.Fields(bytes).Ok? && MakesRequest(Wire.Fields(bytes).value)
    ensures ParseRequest(bytes).Ok? ==>
              var r := ParseRequest(bytes).value;
              && r.fields == Wire.Fields(bytes).value
              && Holds(r.fields, Gathered(r.arguments, r.inputs, r.requestId))
  {
    hide Wire.Fields, AbsorbAll, Holds, MakesRequest;
    if Wire.Fields(bytes).Ok? {
      AllHold(Wire.Fields(bytes).value);
    }
  }

  /** So a request id is added by appending it, and no other varint changes it. */
  lemma LastIdCounts(r: WorkRequest, number: nat, v: nat)
    requires Parsed(r) && 1 <= number < 0x2000_0000 && v < Varint.TWO_TO_64
    ensures var more := ParseRequest(Body(r) + ScalarField(number, v).raw);
            && more.Ok? && more.value.arguments == r.arguments && more.value.inputs == r.inputs
            && more.value.requestId == if number == 3 then Varint.ToInt(v) else r.requestId
  {
    hide Wire.Parse, Wire.Fields, Varint.Write, Varint.ToInt, AbsorbAll;
    var f := ScalarField(number, v);
    var bytes := Body(r) + f.raw;
    ScalarFieldStands(number, v);
    Wire.RawParsesBack([f]);
    OneRaw(f);
    Wire.FieldsConcat(Body(r), f.raw);
    AbsorbConcat(NOTHING, r.fields, [f]);
    OneAbsorbed(Gathered(r.arguments, r.inputs, r.requestId), f);
  }

  lemma OneRaw(f: Wire.Field)
    ensures Wire.Raw([f]) == f.raw
  {
    assert [f][1..] == [];
  }

  lemma OneAbsorbed(g: Gathered, f: Wire.Field)
    ensures AbsorbAll(g, [f]) == Absorb(g, f)
  {
    hide Absorb;
    assert [f][1..] == [];
  }

  // ------------------------------------------------------------------ responses

  lemma {:induction false} RepliesAppend(r: WorkResponse, fs: seq<Wire.Field>, last: Wire.Field)
    ensures AbsorbReplies(r, fs + [last]) == match AbsorbReplies(r, fs)
                                             case Ok(x) => AbsorbReply(x, last)
                                             case Err(e) => Err(e)
    decreases |fs|
  {
    hide AbsorbReply;
    if fs == [] {
      assert [last][1..] == [];
      assert AbsorbReply(r, last).Ok? ==>
          AbsorbReplies(AbsorbReply(r, last).value, []) == AbsorbReply(r, last);
    } else {
      assert (fs + [last])[0] == fs[0] && (fs + [last])[1..] == fs[1..] + [last];
      if AbsorbReply(r, fs[0]).Ok? {
        RepliesAppend(AbsorbReply(r, fs[0]).value, fs[1..], last);
      }
    }
  }

  lemma {:induction false} RepliesHold(bytes: Bytes, fs: seq<Wire.Field>)
    ensures AbsorbReplies(WorkResponse(bytes, 0, 0, ""), fs).Ok? <==> AreTexts(Select(fs, 2, 2))
    ensures var x := AbsorbReplies(WorkResponse(bytes, 0, 0, ""), fs);
            x.Ok? ==>
              && x.value.bytes == bytes
              && x.value.exitCode == LastInt(fs, 1)
              && Utf8.Decode(LastBytes(fs, 2)) == Ok(x.value.output)
              && x.value.requestId == LastInt(fs, 3)
    decreases |fs|
  {
    hide Utf8.Decode, Varint.ToInt, Select, AbsorbReplies, AreTexts;
    if fs == [] {
      NothingAbsorbed();
    } else {
      hide LastBytes, LastInt;
      var front, last := fs[..|fs| - 1], fs[|fs| - 1];
      assert fs == front + [last];
      RepliesHold(bytes, front);
      RepliesAppend(WorkResponse(bytes, 0, 0, ""), front, last);
      IntLast(fs, 1);
      TextsLast(fs, 2);
      IntLast(fs, 3);
    }
  }

  /** A response: exit code under number 1, output under 2, id under 3, the last of each. */
  lemma ResponseIsItsFields(bytes: Bytes)
    ensures ParseResponse(bytes).Ok? <==>
            Wire.Fields(bytes).Ok? && AreTexts(Select(Wire.Fields(bytes).value, 2, 2))
    ensures ParseResponse(bytes).Ok? ==>
              var r, fs := ParseResponse(bytes).value, Wire.Fields(bytes).value;
              && r.bytes == bytes
              && r.exitCode == LastInt(fs, 1)
              && Utf8.Decode(LastBytes(fs, 2)) == Ok(r.output)
              && r.requestId == LastInt(fs, 3)
  {
    hide Wire.Fields, AbsorbReplies, Select, Utf8.Decode, Varint.ToInt;
    if Wire.Fields(bytes).Ok? {
      RepliesHold(bytes, Wire.Fields(bytes).value);
    }
  }

  // ---------------------------------------------------------------- replacement

  /** What argument replacement takes out of a message: the byte arrays under number 1,
      and nothing else, wherever they stand. */
  lemma OthersAreTheRest(a: seq<Wire.Field>, f: Wire.Field, b: seq<Wire.Field>)
    ensures Others(a + [f] + b) == Others(a) + (if f.number == 1 && f.wire == 2 then [] else [f]) + Others(b)
  {
    hide Others;
    OthersConcat(a + [f], b);
    OthersConcat(a, [f]);
    OneOther(f);
  }

  lemma OneOther(f: Wire.Field)
    ensures Others([f]) == if f.number == 1 && f.wire == 2 then [] else [f]
  {
    assert [f][1..] == [];
  }
}
