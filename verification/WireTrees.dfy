/**
 * Protocol Buffers messages as trees, after "Message Structure" and "Groups" of the
 * Protocol Buffers Encoding specification, and what the parser makes of them. Unlike the
 * parser, a tree says for itself how many bytes each kind of field occupies.
 */
module WireTrees {
  import opened Common
  import Varint
  import Wire

  /** A message: its first field, and the rest of it. */
  datatype Tree =
    | Nothing
    | Scalar(number: nat, value: nat, rest: Tree)
    | Fixed64(number: nat, bytes: Bytes, rest: Tree)
    | Delimited(number: nat, bytes: Bytes, rest: Tree)
    | Group(number: nat, inner: Tree, rest: Tree)
    | Fixed32(number: nat, bytes: Bytes, rest: Tree)

  predicate IsNumber(n: nat) {
    1 <= n <= 536870911
  }

  predicate Proper(t: Tree) {
    match t
    case Nothing => true
    case Scalar(number, value, rest) => IsNumber(number) && value < Varint.TWO_TO_64 && Proper(rest)
    case Fixed64(number, bytes, rest) => IsNumber(number) && |bytes| == 8 && Proper(rest)
    case Delimited(number, bytes, rest) => IsNumber(number) && |bytes| < Varint.TWO_TO_31 && Proper(rest)
    case Group(number, inner, rest) => IsNumber(number) && Proper(inner) && Proper(rest)
    case Fixed32(number, bytes, rest) => IsNumber(number) && |bytes| == 4 && Proper(rest)
  }

  function Key(number: nat, wire: nat): Bytes {
    Varint.Write(number * 8 + wire)
  }

  /** The bytes of the first field. */
  function Head(t: Tree): Bytes
    requires t != Nothing
    decreases t, 0
  {
    match t
    case Scalar(number, value, _) => Key(number, 0) + Varint.Write(value)
    case Fixed64(number, bytes, _) => Key(number, 1) + bytes
    case Delimited(number, bytes, _) => Key(number, 2) + (Varint.Write(|bytes|) + bytes)
    case Group(number, inner, _) => Key(number, 3) + (Print(inner) + Key(number, 4))
    case Fixed32(number, bytes, _) => Key(number, 5) + bytes
  }

  function Print(t: Tree): Bytes
    decreases t, 1
  {
    if t == Nothing then [] else Head(t) + Print(t.rest)
  }

  function Max(a: nat, b: nat): nat {
    if a < b then b else a
  }

  /** How deep groups are nested. */
  function Height(t: Tree): nat {
    match t
    case Nothing => 0
    case Group(_, inner, rest) => Max(1 + Height(inner), Height(rest))
    case _ => Height(t.rest)
  }

  /** The field that the first one parses to. */
  function First(t: Tree): Wire.Field
    requires t != Nothing
  {
    match t
    case Scalar(number, value, _) => Wire.Field(number, 0, value, [], Head(t))
    case Fixed64(number, _, _) => Wire.Field(number, 1, 0, [], Head(t))
    case Delimited(number, bytes, _) => Wire.Field(number, 2, 0, bytes, Head(t))
    case Group(number, _, _) => Wire.Field(number, 3, 0, [], Head(t))
    case Fixed32(number, _, _) => Wire.Field(number, 5, 0, [], Head(t))
  }

  function AsFields(t: Tree): seq<Wire.Field> {
    if t == Nothing then [] else [First(t)] + AsFields(t.rest)
  }

  // -------------------------------------------------------------------- tokens

  lemma TokenIs(number: nat, wire: nat, body: Bytes, x: Bytes, p: Wire.Payload)
    requires IsNumber(number) && wire <= 5
    requires Wire.Body(body + x, wire) == Ok(p) && p.size == |body|
    ensures Wire.Token(Key(number, wire) + body + x)
         == Ok(Wire.Field(number, wire, p.scalar, p.bytes, Key(number, wire) + body))
  {
    hide Wire.Body, Varint.Write, Varint.Read;
    var key := Key(number, wire);
    var s := key + body + x;
    assert s == key + (body + x);
    KeyIsRead(number, wire, body + x);
    assert s[|key|..] == body + x;
    assert s[..|key| + |body|] == key + body;
  }

  lemma KeyIsRead(number: nat, wire: nat, x: Bytes)
    requires IsNumber(number) && wire < 8
    ensures Wire.Tag(Key(number, wire) + x) == Ok(Varint.Scanned(number * 8 + wire, |Key(number, wire)|))
  {
    hide Varint.Write, Varint.Read;
    Varint.RoundTrip(number * 8 + wire, x);
  }

  lemma DelimitedIsRead(bytes: Bytes, x: Bytes)
    requires |bytes| < Varint.TWO_TO_31
    ensures var body := Varint.Write(|bytes|) + bytes;
            Wire.Delimited(body + x) == Ok(Wire.Payload(0, bytes, |body|))
  {
    hide Varint.Write, Varint.Read;
    var prefix := Varint.Write(|bytes|);
    Varint.RoundTrip(|bytes|, bytes + x);
    assert prefix + bytes + x == prefix + (bytes + x);
    assert (prefix + (bytes + x))[|prefix|..] == bytes + x;
    assert (bytes + x)[..|bytes|] == bytes;
  }

  /** A field that is no group is one token. */
  lemma LeafIsToken(t: Tree, x: Bytes)
    requires Proper(t) && t != Nothing && !t.Group?
    ensures Wire.Token(Head(t) + x) == Ok(First(t))
  {
    hide Wire.Token, Varint.Read, Varint.Write, Key;
    match t
    case Scalar(number, value, _) =>
      Varint.RoundTrip(value, x);
      TokenIs(number, 0, Varint.Write(value), x, Wire.Payload(value, [], |Varint.Write(value)|));
    case Fixed64(number, bytes, _) =>
      TokenIs(number, 1, bytes, x, Wire.Payload(0, [], 8));
    case Delimited(number, bytes, _) =>
      var body := Varint.Write(|bytes|) + bytes;
      DelimitedIsRead(bytes, x);
      TokenIs(number, 2, body, x, Wire.Payload(0, bytes, |body|));
    case Fixed32(number, bytes, _) =>
      TokenIs(number, 5, bytes, x, Wire.Payload(0, [], 4));
  }

  lemma KeyIsToken(number: nat, wire: nat, x: Bytes)
    requires IsNumber(number) && wire in {3, 4}
    ensures Wire.Token(Key(number, wire) + x) == Ok(Wire.Field(number, wire, 0, [], Key(number, wire)))
  {
    hide Wire.Token, Varint.Write;
    TokenIs(number, wire, [], x, Wire.Payload(0, [], 0));
    assert Key(number, wire) + [] == Key(number, wire);
  }

  // -------------------------------------------------------------------- fields

  /** The first field, wherever it stands. */
  lemma {:induction false} HeadParses(t: Tree, x: Bytes, depth: nat)
    requires Proper(t) && t != Nothing
    ensures Wire.Parse(Head(t) + x, depth).Ok? <==>
            depth + (if t.Group? then 1 + Height(t.inner) else 0) <= 100
    ensures Wire.Parse(Head(t) + x, depth).Ok? ==> Wire.Parse(Head(t) + x, depth) == Ok(First(t))
    decreases t, 0
  {
    hide Wire.Token, Wire.Group, Key;
    if !t.Group? {
      LeafIsToken(t, x);
    } else {
      var start, end := Key(t.number, 3), Key(t.number, 4);
      var contents := Print(t.inner) + end;
      var s := Head(t) + x;
      assert s == start + (contents + x);
      KeyIsToken(t.number, 3, contents + x);
      assert s[|start|..] == contents + x;
      InnerParses(t.inner, t.number, x, depth + 1);
      assert s[..|start| + |contents|] == start + contents;
    }
  }

  /** One round of the loop over a group's contents. */
  lemma GroupStep(f: Wire.Field, more: Bytes, number: nat, depth: nat)
    requires Wire.Parse(f.raw + more, depth) == Ok(f)
    ensures Wire.Group(f.raw + more, number, depth) ==
            if f.wire == 4 then (if f.number == number then Ok(|f.raw|) else Err(MismatchedGroup))
            else match Wire.Group(more, number, depth)
                 case Ok(size) => Ok(|f.raw| + size)
                 case Err(e) => Err(e)
  {
    hide Wire.Parse;
    assert (f.raw + more)[|f.raw|..] == more;
  }

  lemma NoGroup(s: Bytes, number: nat, depth: nat)
    requires Wire.Parse(s, depth).Err?
    ensures Wire.Group(s, number, depth).Err?
  {
    hide Wire.Parse;
  }

  /** The contents of a group, up to and including its end. */
  lemma {:induction false} InnerParses(t: Tree, number: nat, x: Bytes, depth: nat)
    requires Proper(t) && IsNumber(number)
    ensures var contents := Print(t) + Key(number, 4);
            && (Wire.Group(contents + x, number, depth).Ok? <==> depth + Height(t) <= 100)
            && (Wire.Group(contents + x, number, depth).Ok? ==>
                  Wire.Group(contents + x, number, depth) == Ok(|contents|))
    decreases t, 1
  {
    hide Wire.Parse, Wire.Group, Key, Head, Height;
    var end := Key(number, 4);
    if t == Nothing {
      assert Height(t) == 0 by { NothingIsFlat(); }
      assert [] + end == end;
      EndParses(number, x, depth);
      if depth <= 100 {
        GroupStep(Wire.Field(number, 4, 0, [], end), x, number, depth);
      } else {
        NoGroup(end + x, number, depth);
      }
    } else {
      var more := Print(t.rest) + end;
      assert Print(t) + end + x == Head(t) + (more + x);
      HeadParses(t, more + x, depth);
      HeadIsSome(t);
      HeightSplits(t);
      InnerParses(t.rest, number, x, depth);
      if Wire.Parse(Head(t) + (more + x), depth).Ok? {
        GroupStep(First(t), more + x, number, depth);
      } else {
        NoGroup(Head(t) + (more + x), number, depth);
      }
    }
  }

  lemma EndParses(number: nat, x: Bytes, depth: nat)
    requires IsNumber(number)
    ensures Wire.Parse(Key(number, 4) + x, depth).Ok? <==> depth <= 100
    ensures depth <= 100 ==>
              Wire.Parse(Key(number, 4) + x, depth) == Ok(Wire.Field(number, 4, 0, [], Key(number, 4)))
  {
    hide Wire.Token, Key;
    KeyIsToken(number, 4, x);
  }

  lemma NothingIsFlat()
    ensures Height(Nothing) == 0
  {
  }

  lemma HeightSplits(t: Tree)
    requires t != Nothing
    ensures Height(t) == Max(if t.Group? then 1 + Height(t.inner) else 0, Height(t.rest))
  {
  }

  /** Every tree, printed, is accepted exactly when its groups nest at most 100 deep; and
      then the parser yields its fields in order, each with its number, wire type, value
      and own bytes. */
  lemma {:induction false} TreesParse(t: Tree)
    requires Proper(t)
    ensures Wire.Fields(Print(t)).Ok? <==> Height(t) <= 100
    ensures Height(t) <= 100 ==> Wire.Fields(Print(t)) == Ok(AsFields(t))
  {
    hide Wire.Parse, Head;
    if t == Nothing {
    } else {
      var s := Print(t);
      HeadParses(t, Print(t.rest), 0);
      TreesParse(t.rest);
      HeightSplits(t);
      HeadIsSome(t);
      assert s[|Head(t)|..] == Print(t.rest);
    }
  }

  lemma HeadIsSome(t: Tree)
    requires Proper(t) && t != Nothing
    ensures |Head(t)| >= 1 && First(t).raw == Head(t) && First(t).wire != 4
  {
    Varint.RoundTrip(t.number * 8, []);
    Varint.RoundTrip(t.number * 8 + 1, []);
    Varint.RoundTrip(t.number * 8 + 2, []);
    Varint.RoundTrip(t.number * 8 + 3, []);
    Varint.RoundTrip(t.number * 8 + 5, []);
  }

  // --------------------------------------------------------------- what is refused

  lemma BadTokenIsRefused(s: Bytes)
    requires s != [] && Wire.Token(s).Err?
    ensures Wire.Fields(s).Err?
  {
    hide Wire.Token;
  }

  /** A field with too few bytes for its type is refused, and so are an end tag, a wire
      type that does not exist, and the numbers 0 and 2^29 and above. */
  lemma BrokenIsRefused(number: nat, wire: nat, bytes: Bytes)
    requires number * 8 + wire < Varint.TWO_TO_64 && wire < 8
    requires !IsNumber(number) || wire in {4, 6, 7} || (wire == 1 && |bytes| < 8) || (wire == 5 && |bytes| < 4)
    ensures Wire.Fields(Key(number, wire) + bytes).Err?
  {
    hide Varint.Write, Varint.Read, Wire.Fields, Wire.Body, Wire.Tag;
    var key := Key(number, wire);
    var s := key + bytes;
    assert s[|key|..] == bytes;
    Varint.RoundTrip(number * 8 + wire, bytes);
    KeyIsSome(number, wire);
    if wire == 4 && IsNumber(number) {
      KeyIsToken(number, 4, bytes);
      EndIsRefused(s);
    } else {
      if !IsNumber(number) {
        NumberIsRefused(number, wire, bytes);
      } else {
        KeyIsRead(number, wire, bytes);
        BodyIsRefused(bytes, wire);
      }
      BadTokenIsRefused(s);
    }
  }

  lemma KeyIsSome(number: nat, wire: nat)
    requires number * 8 + wire < Varint.TWO_TO_64
    ensures Key(number, wire) != []
  {
    Varint.RoundTrip(number * 8 + wire, []);
  }

  lemma EndIsRefused(s: Bytes)
    requires s != [] && Wire.Token(s).Ok? && Wire.Token(s).value.wire == 4
    ensures Wire.Fields(s).Err?
  {
    hide Wire.Token;
  }

  lemma NumberIsRefused(number: nat, wire: nat, x: Bytes)
    requires number * 8 + wire < Varint.TWO_TO_64 && wire < 8 && !IsNumber(number)
    ensures Wire.Tag(Key(number, wire) + x).Err?
  {
    hide Varint.Write, Varint.Read;
    Varint.RoundTrip(number * 8 + wire, x);
  }

  lemma BodyIsRefused(bytes: Bytes, wire: nat)
    requires wire in {6, 7} || (wire == 1 && |bytes| < 8) || (wire == 5 && |bytes| < 4)
    ensures Wire.Body(bytes, wire).Err?
  {
    hide Varint.Read;
  }

  /** A length beyond the end of the message is refused. */
  lemma ShortIsRefused(number: nat, length: nat, bytes: Bytes)
    requires IsNumber(number) && |bytes| < length < Varint.TWO_TO_64
    ensures Wire.Fields(Key(number, 2) + (Varint.Write(length) + bytes)).Err?
  {
    hide Varint.Write, Wire.Fields, Wire.Delimited, Wire.Tag;
    var key, body := Key(number, 2), Varint.Write(length) + bytes;
    KeyIsRead(number, 2, body);
    KeyIsSome(number, 2);
    assert (key + body)[|key|..] == body;
    LengthIsRefused(length, bytes);
    BadTokenIsRefused(key + body);
  }

  lemma LengthIsRefused(length: nat, bytes: Bytes)
    requires |bytes| < length < Varint.TWO_TO_64
    ensures Wire.Delimited(Varint.Write(length) + bytes).Err?
  {
    hide Varint.Write, Varint.Read;
    var prefix := Varint.Write(length);
    Varint.RoundTrip(length, bytes);
    assert (prefix + bytes)[|prefix|..] == bytes;
  }
}
