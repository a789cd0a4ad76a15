/**
 * The field parser of `WorkerProtocol`: one recursive `field` that handles every wire
 * type and nested groups, and the loop `fields` that tiles a message with them.
 */
module Wire {
  import opened Common
  import Varint

  const MAX_NESTING := 100

  /** `bytes` is empty unless the wire type is 2, `scalar` is 0 unless it is 0. */
  datatype Field = Field(number: nat, wire: nat, scalar: nat, bytes: Bytes, raw: Bytes)

  /** What follows a tag when it is not a nested field. */
  datatype Payload = Payload(scalar: nat, bytes: Bytes, size: nat)

  function Tag(s: Bytes): (r: Result<Varint.Scanned>)
    ensures r.Ok? ==> 1 <= r.value.size <= |s|
  {
    var tag :- Varint.Read(s, 0);
    var signed := Varint.ToLong(tag.value);
    if signed <= 0 || signed > 0xffff_ffff || tag.value / 8 == 0 then Err(InvalidTag) else Ok(tag)
  }

  function Delimited(s: Bytes): (r: Result<Payload>)
    ensures r.Ok? ==> r.value.size <= |s|
  {
    var length :- Varint.Read(s, 0);
    Varint.ReadFits(s);
    var rest := s[length.size..];
    if Varint.ToLong(length.value) < 0 || Varint.ToLong(length.value) > |rest| then Err(TruncatedField)
    else Ok(Payload(0, rest[..length.value], length.size + length.value))
  }

  function Body(s: Bytes, wire: nat): (r: Result<Payload>)
    ensures r.Ok? ==> r.value.size <= |s| && wire <= 5
  {
    if wire == 0 then
      var v :- Varint.Read(s, 0);
      Ok(Payload(v.value, [], v.size))
    else if wire == 1 then
      if |s| < 8 then Err(TruncatedField) else Ok(Payload(0, [], 8))
    else if wire == 2 then Delimited(s)
    else if wire == 3 || wire == 4 then Ok(Payload(0, [], 0))
    else if wire == 5 then
      if |s| < 4 then Err(TruncatedField) else Ok(Payload(0, [], 4))
    else Err(InvalidWireType)
  }

  /** A field up to the point where a group's contents would begin. */
  function Token(s: Bytes): (r: Result<Field>)
    ensures r.Ok? ==> 1 <= |r.value.raw| <= |s| && r.value.raw == s[..|r.value.raw|]
  {
    var tag :- Tag(s);
    var number, wire := tag.value / 8, tag.value % 8;
    var p :- Body(s[tag.size..], wire);
    Ok(Field(number, wire, p.scalar, p.bytes, s[..tag.size + p.size]))
  }

  /** The field at the head of `s`, with everything inside it when it is a group. */
  function Parse(s: Bytes, depth: nat): (r: Result<Field>)
    ensures r.Ok? ==> 1 <= |r.value.raw| <= |s| && r.value.raw == s[..|r.value.raw|]
    decreases |s|, 0
  {
    if depth > MAX_NESTING then Err(NestingLimit)
    else
      var t :- Token(s);
      if t.wire != 3 then Ok(t)
      else
        var size :- Group(s[|t.raw|..], t.number, depth + 1);
        Ok(t.(raw := s[..|t.raw| + size]))
  }

  /** The size of a group's contents including its end tag, its start tag consumed. */
  function Group(s: Bytes, number: nat, depth: nat): (r: Result<nat>)
    ensures r.Ok? ==> 1 <= r.value <= |s|
    decreases |s|, 1
  {
    var nested :- Parse(s, depth);
    if nested.wire == 4 then
      if nested.number != number then Err(MismatchedGroup) else Ok(|nested.raw|)
    else
      var rest :- Group(s[|nested.raw|..], number, depth);
      Ok(|nested.raw| + rest)
  }

  /** The whole message as a list of top-level fields. */
  function Fields(s: Bytes): Result<seq<Field>> {
    if s == [] then Ok([])
    else
      var f :- Parse(s, 0);
      if f.wire == 4 then Err(UnexpectedEndGroup)
      else
        var rest :- Fields(s[|f.raw|..]);
        Ok([f] + rest)
  }

  /** The concatenated `raw` slices of a list of fields. */
  function Raw(fs: seq<Field>): Bytes {
    if fs == [] then [] else fs[0].raw + Raw(fs[1..])
  }

  // ---------------------------------------------------------------- tiling

  /** The `raw` slices of a parsed message are the message: no byte is lost,
      duplicated or reordered. */
  lemma {:induction false} Tiling(s: Bytes)
    requires Fields(s).Ok?
    ensures Raw(Fields(s).value) == s
  {
    hide Parse;
    if s == [] {
    } else {
      var f := Parse(s, 0).value;
      var rest := Fields(s[|f.raw|..]).value;
      Tiling(s[|f.raw|..]);
      assert ([f] + rest)[1..] == rest;
      assert s == s[..|f.raw|] + s[|f.raw|..];
    }
  }

  lemma {:induction false} RawConcat(a: seq<Field>, b: seq<Field>)
    ensures Raw(a + b) == Raw(a) + Raw(b)
  {
    if a == [] {
      assert a + b == b;
    } else {
      calc {
        Raw(a + b);
        { assert (a + b)[0] == a[0] && (a + b)[1..] == a[1..] + b; }
        a[0].raw + Raw(a[1..] + b);
        { RawConcat(a[1..], b); }
        a[0].raw + (Raw(a[1..]) + Raw(b));
        a[0].raw + Raw(a[1..]) + Raw(b);
      }
    }
  }

  // -------------------------------------------------------------- locality

  lemma TagIsLocal(p: Bytes, x: Bytes, y: Bytes)
    requires Tag(p + x).Ok? && Tag(p + x).value.size <= |p|
    ensures Tag(p + y) == Tag(p + x)
  {
    Varint.ReadIsLocal(p, x, y, 0);
  }

  lemma DelimitedIsLocal(p: Bytes, x: Bytes, y: Bytes)
    requires Delimited(p + x).Ok? && Delimited(p + x).value.size <= |p|
    ensures Delimited(p + y) == Delimited(p + x)
  {
    var length := Varint.Read(p + x, 0).value;
    Varint.ReadIsLocal(p, x, y, 0);
    DropPrefix(p, x, length.size);
    DropPrefix(p, y, length.size);
    var rest := p[length.size..];
    DropPrefix(rest, x, length.value);
    DropPrefix(rest, y, length.value);
  }

  lemma BodyIsLocal(p: Bytes, x: Bytes, y: Bytes, wire: nat)
    requires Body(p + x, wire).Ok? && Body(p + x, wire).value.size <= |p|
    ensures Body(p + y, wire) == Body(p + x, wire)
  {
    if wire == 0 {
      Varint.ReadIsLocal(p, x, y, 0);
    } else if wire == 2 {
      DelimitedIsLocal(p, x, y);
    }
  }

  lemma TokenIsLocal(p: Bytes, x: Bytes, y: Bytes)
    requires Token(p + x).Ok? && |Token(p + x).value.raw| <= |p|
    ensures Token(p + y) == Token(p + x)
  {
    hide Tag, Body;
    var tag := Tag(p + x).value;
    TagIsLocal(p, x, y);
    DropPrefix(p, x, tag.size);
    DropPrefix(p, y, tag.size);
    BodyIsLocal(p[tag.size..], x, y, tag.value % 8);
    var n := |Token(p + x).value.raw|;
    DropPrefix(p, x, n);
    DropPrefix(p, y, n);
  }

  /** A field's parse depends only on the bytes it consumes, through nested groups:
      behind a prefix that holds them all, it does not matter what follows. */
  lemma {:induction false} ParseIsLocal(p: Bytes, x: Bytes, y: Bytes, depth: nat)
    requires Parse(p + x, depth).Ok? && |Parse(p + x, depth).value.raw| <= |p|
    ensures Parse(p + y, depth) == Parse(p + x, depth)
    decreases |p|, 0
  {
    hide Token;
    var head := Token(p + x).value;
    var k := |head.raw|;
    TokenIsLocal(p, x, y);
    if head.wire == 3 {
      DropPrefix(p, x, k);
      DropPrefix(p, y, k);
      GroupIsLocal(p[k..], x, y, head.number, depth + 1);
      var n := |Parse(p + x, depth).value.raw|;
      DropPrefix(p, x, n);
      DropPrefix(p, y, n);
    }
  }

  lemma {:induction false} GroupIsLocal(p: Bytes, x: Bytes, y: Bytes, number: nat, depth: nat)
    requires Group(p + x, number, depth).Ok? && Group(p + x, number, depth).value <= |p|
    ensures Group(p + y, number, depth) == Group(p + x, number, depth)
    decreases |p|, 1
  {
    hide Parse;
    var nested := Parse(p + x, depth).value;
    var k := |nested.raw|;
    ParseIsLocal(p, x, y, depth);
    if nested.wire != 4 {
      DropPrefix(p, x, k);
      DropPrefix(p, y, k);
      GroupIsLocal(p[k..], x, y, number, depth);
    }
  }

  /** A field that parses keeps its parse when more bytes follow it. */
  lemma ParseExtends(s: Bytes, t: Bytes, depth: nat)
    requires Parse(s, depth).Ok?
    ensures Parse(s + t, depth) == Parse(s, depth)
  {
    hide Parse;
    assert s + [] == s;
    ParseIsLocal(s, [], t, depth);
  }

  /** A parsed field parses the same from its own raw bytes. */
  lemma RawIsParsed(s: Bytes, depth: nat)
    requires Parse(s, depth).Ok?
    ensures Parse(Parse(s, depth).value.raw, depth) == Parse(s, depth)
  {
    hide Parse;
    var raw := Parse(s, depth).value.raw;
    var rest := s[|raw|..];
    assert s == raw + rest;
    ParseIsLocal(raw, rest, [], depth);
    assert raw + [] == raw;
  }

  lemma FieldsPrepend(f: Field, t: Bytes)
    requires Standalone(f)
    ensures Fields(f.raw + t) == match Fields(t)
                                 case Ok(ft) => Ok([f] + ft)
                                 case Err(e) => Err(e)
  {
    hide Parse;
    ParseExtends(f.raw, t, 0);
    DropPrefix(f.raw, t, |f.raw|);
    assert f.raw[|f.raw|..] + t == t;
  }

  /** Parsing distributes over concatenation behind a message that parses: the fields
      are appended, and an error in the second message is the error of the whole. */
  lemma {:induction false} FieldsConcat(a: Bytes, b: Bytes)
    requires Fields(a).Ok?
    ensures Fields(a + b) == match Fields(b)
                             case Ok(fb) => Ok(Fields(a).value + fb)
                             case Err(e) => Err(e)
  {
    hide Parse;
    if a == [] {
      assert a + b == b;
      assert forall fb: seq<Field> :: [] + fb == fb;
    } else {
      var f := Parse(a, 0).value;
      var tail := a[|f.raw|..];
      RawIsParsed(a, 0);
      FieldsConcat(tail, b);
      assert a + b == f.raw + (tail + b);
      FieldsPrepend(f, tail + b);
      if Fields(b).Ok? {
        assert [f] + (Fields(tail).value + Fields(b).value) == [f] + Fields(tail).value + Fields(b).value;
      }
    }
  }

  /** A field that could stand at the top level of a message, raw bytes included. */
  predicate Standalone(f: Field) {
    Parse(f.raw, 0) == Ok(f) && f.wire != 4
  }

  lemma {:induction false} ParsedFieldsStandAlone(s: Bytes)
    requires Fields(s).Ok?
    ensures forall f :: f in Fields(s).value ==> Standalone(f)
  {
    hide Parse;
    if s == [] {
    } else {
      var f := Parse(s, 0).value;
      RawIsParsed(s, 0);
      ParsedFieldsStandAlone(s[|f.raw|..]);
    }
  }

  /** Printing fields and parsing them again gives the same fields, however they were
      selected or ordered: printing is a right inverse of parsing. */
  lemma {:induction false} RawParsesBack(fs: seq<Field>)
    requires forall f :: f in fs ==> Standalone(f)
    ensures Fields(Raw(fs)) == Ok(fs)
  {
    if fs == [] {
    } else {
      RawParsesBack(fs[1..]);
      FieldsPrepend(fs[0], Raw(fs[1..]));
      assert [fs[0]] + fs[1..] == fs;
    }
  }

  // ------------------------------------------------- groups against a stack

  /** An independent, non-recursive-descent reading of well-formedness: scan the
      tokens once, keeping the open groups on a stack. */
  predicate Balanced(s: Bytes, open: seq<nat>)
    decreases |s|
  {
    if s == [] then open == []
    else if |open| > MAX_NESTING then false
    else
      match Token(s)
      case Err(_) => false
      case Ok(t) =>
        var rest := s[|t.raw|..];
        if t.wire == 3 then Balanced(rest, open + [t.number])
        else if t.wire == 4 then
          open != [] && open[|open| - 1] == t.number && Balanced(rest, open[..|open| - 1])
        else Balanced(rest, open)
  }

  lemma EmptyScans(open: seq<nat>)
    requires open != []
    ensures Parse([], |open|).Err? && !Balanced([], open)
  {
  }

  lemma {:induction false} ParseScans(s: Bytes, open: seq<nat>)
    requires s != []
    ensures match Parse(s, |open|)
            case Err(_) => !Balanced(s, open)
            case Ok(f) =>
              var rest := s[|f.raw|..];
              if f.wire != 4 then Balanced(s, open) == Balanced(rest, open)
              else Balanced(s, open) == (open != [] && open[|open| - 1] == f.number
                                         && Balanced(rest, open[..|open| - 1]))
    decreases |s|, 0
  {
    hide Token, Group;
    if |open| <= MAX_NESTING && Token(s).Ok? && Token(s).value.wire == 3 {
      var t := Token(s).value;
      var rest := s[|t.raw|..];
      GroupScans(rest, open, t.number);
      var g := Group(rest, t.number, |open| + 1);
      if g.Ok? {
        assert rest[g.value..] == s[|t.raw| + g.value..];
      }
    }
  }

  lemma {:induction false} GroupScans(s: Bytes, open: seq<nat>, number: nat)
    ensures match Group(s, number, |open| + 1)
            case Err(_) => !Balanced(s, open + [number])
            case Ok(size) => Balanced(s, open + [number]) == Balanced(s[size..], open)
    decreases |s|, 1
  {
    hide Token, Parse, Balanced;
    var stack := open + [number];
    assert stack[|stack| - 1] == number && stack[..|stack| - 1] == open;
    if s == [] {
      EmptyScans(stack);
    } else {
      ParseScans(s, stack);
      var nested := Parse(s, |stack|);
      if nested.Ok? && nested.value.wire != 4 {
        var k := |nested.value.raw|;
        GroupScans(s[k..], open, number);
        var g := Group(s[k..], number, |open| + 1);
        if g.Ok? {
          assert s[k..][g.value..] == s[k + g.value..];
        }
      }
    }
  }

  /** The recursive parser accepts exactly the messages whose tokens are well formed and
      whose groups balance, with equal field numbers, at most `MAX_NESTING` deep. What a token is,
      `WireTrees` says in bytes. */
  lemma {:induction false} FieldsAcceptsExactlyBalanced(s: Bytes)
    ensures Fields(s).Ok? <==> Balanced(s, [])
  {
    hide Token, Parse;
    if s == [] {
    } else {
      ParseScans(s, []);
      var f := Parse(s, 0);
      if f.Ok? && f.value.wire != 4 {
        FieldsAcceptsExactlyBalanced(s[|f.value.raw|..]);
      }
    }
  }

  /** Groups of field number 1, `n` of them, one inside the other. */
  function Nest(n: nat): Bytes {
    if n == 0 then [] else [11] + Nest(n - 1) + [12]
  }

  lemma GroupTags(t: Bytes)
    ensures Token([11] + t) == Ok(Field(1, 3, 0, [], [11]))
    ensures Token([12] + t) == Ok(Field(1, 4, 0, [], [12]))
  {
    assert Varint.Read([11] + t, 0) == Ok(Varint.Scanned(11, 1));
    assert Varint.Read([12] + t, 0) == Ok(Varint.Scanned(12, 1));
    assert ([11] + t)[..1] == [11] && ([12] + t)[..1] == [12];
  }

  lemma EndTagScans(t: Bytes, open: seq<nat>)
    ensures Balanced([12] + t, open + [1]) <==> |open| < MAX_NESTING && Balanced(t, open)
  {
    hide Token;
    GroupTags(t);
    assert ([12] + t)[1..] == t && (open + [1])[..|open|] == open;
  }

  lemma StartTagScans(t: Bytes, open: seq<nat>)
    ensures Balanced([11] + t, open) <==> |open| <= MAX_NESTING && Balanced(t, open + [1])
  {
    hide Token;
    GroupTags(t);
    assert ([11] + t)[1..] == t;
  }

  lemma {:induction false} NestScans(n: nat, t: Bytes, open: seq<nat>)
    requires n >= 1
    ensures Balanced(Nest(n) + t, open) <==> |open| + n <= MAX_NESTING && Balanced(t, open)
    decreases n
  {
    hide Balanced;
    var rest := Nest(n - 1) + ([12] + t);
    assert Nest(n) + t == [11] + rest;
    StartTagScans(rest, open);
    EndTagScans(t, open);
    if n == 1 {
      assert rest == [12] + t;
    } else {
      NestScans(n - 1, [12] + t, open + [1]);
    }
  }

  lemma NothingIsBalanced()
    ensures Balanced([], [])
  {
  }

  /** The nesting limit is exact: groups nest 100 deep and no deeper. */
  lemma NestingLimitIsExact(n: nat)
    ensures Fields(Nest(n)).Ok? <==> n <= 100
  {
    hide Parse, Token, Balanced;
    FieldsAcceptsExactlyBalanced(Nest(n));
    assert Balanced([], []) by { NothingIsBalanced(); }
    if n > 0 {
      NestScans(n, [], []);
      assert Nest(n) + [] == Nest(n);
    }
  }

  // ------------------------------------------------------------ the cursor

  /** `WorkerProtocol.Cursor`. A method that fails leaves the cursor behind: the
      exception ends the parse that owns it. */
  class Cursor {
    const data: Bytes
    var position: nat

    ghost predicate Valid()
      reads this
    {
      position <= |data|
    }

    ghost function Rest(): Bytes
      reads this
      requires Valid()
    {
      data[position..]
    }

    constructor (data: Bytes)
      ensures Valid() && this.data == data && position == 0
    {
      this.data := data;
      position := 0;
    }

    method ReadVarint() returns (r: Result<nat>)
      requires Valid()
      modifies this
      ensures Valid()
      ensures match Varint.Read(old(Rest()), 0)
              case Ok(v) => r == Ok(v.value) && position == old(position) + v.size
              case Err(e) => r == Err(e)
    {
      hide Varint.Read, Varint.Extend;
      ghost var rest := Rest();
      var result: nat := 0;
      Varint.ExtendZero(Varint.Read(rest, 0));
      for i := 0 to 10
        invariant Valid() && position == old(position) + i && data[position..] == rest[i..]
        invariant Varint.Read(rest, 0) == Varint.Extend(result, i, Varint.Read(rest[i..], i))
      {
        Varint.ExtendOver(result, i, rest[i..]);
        if position == |data| {
          return Err(TruncatedVarint);
        }
        var value := data[position];
        position := position + 1;
        assert rest[i..][0] == value && rest[i..][1..] == rest[i + 1..];
        if i == 9 && value > 1 {
          return Err(InvalidVarint);
        }
        result := result + Varint.Pow128(i) * (value % 128);
        if value < 128 {
          return Ok(result);
        }
      }
      Varint.ExtendExhausted(result, rest[10..]);
      return Err(InvalidVarint);
    }

    method Skip(length: nat) returns (r: Result<()>)
      requires Valid() && length < Varint.TWO_TO_64
      modifies this
      ensures Valid()
      ensures if 0 <= Varint.ToLong(length) <= |old(Rest())|
              then r == Ok(()) && position == old(position) + length
              else r == Err(TruncatedField) && position == old(position)
    {
      if Varint.ToLong(length) < 0 || Varint.ToLong(length) > |data| - position {
        return Err(TruncatedField);
      }
      position := position + length;
      return Ok(());
    }

    /** The tag, checked as `field` checks it. */
    method ReadTag() returns (r: Result<nat>)
      requires Valid()
      modifies this
      ensures Valid()
      ensures match Tag(old(Rest()))
              case Ok(v) => r == Ok(v.value) && position == old(position) + v.size
              case Err(e) => r == Err(e)
    {
      var tag :- ReadVarint();
      if Varint.ToLong(tag) <= 0 || Varint.ToLong(tag) > 0xffff_ffff || tag / 8 == 0 {
        return Err(InvalidTag);
      }
      return Ok(tag);
    }

    /** The `switch` of `field`, but for nested groups. */
    method ReadBody(wire: nat) returns (r: Result<(nat, Bytes)>)
      requires Valid()
      modifies this
      ensures Valid()
      ensures match Body(old(Rest()), wire)
              case Ok(p) => r == Ok((p.scalar, p.bytes)) && position == old(position) + p.size
              case Err(e) => r == Err(e)
    {
      ghost var s := Rest();
      if wire == 0 {
        var scalar :- ReadVarint();
        return Ok((scalar, []));
      } else if wire == 1 {
        var _ :- Skip(8);
        return Ok((0, []));
      } else if wire == 2 {
        var length :- ReadVarint();
        Varint.ReadFits(s);
        var from := position;
        assert s[from - old(position)..] == Rest();
        var _ :- Skip(length);
        assert data[from..position] == s[from - old(position)..][..length];
        return Ok((0, data[from..position]));
      } else if wire == 3 || wire == 4 {
        return Ok((0, []));
      } else if wire == 5 {
        var _ :- Skip(4);
        return Ok((0, []));
      } else {
        return Err(InvalidWireType);
      }
    }

    /** The loop of `field` over the contents of a group. */
    method ReadGroup(number: nat, depth: nat) returns (r: Result<()>)
      requires Valid()
      modifies this
      ensures Valid()
      ensures match Group(old(Rest()), number, depth)
              case Ok(size) => r == Ok(()) && position == old(position) + size
              case Err(e) => r == Err(e)
      decreases |data| - position, 1
    {
      hide Parse;
      while true
        invariant Valid() && position >= old(position)
        invariant Group(old(Rest()), number, depth) ==
                  match Group(Rest(), number, depth)
                  case Ok(size) => Ok(position - old(position) + size)
                  case Err(e) => Err(e)
        decreases |data| - position
      {
        ghost var here := Rest();
        var nested :- ReadField(depth);
        assert here[|nested.raw|..] == Rest();
        if nested.wire == 4 {
          if nested.number != number {
            return Err(MismatchedGroup);
          }
          return Ok(());
        }
      }
    }

    method ReadField(depth: nat) returns (r: Result<Field>)
      requires Valid()
      modifies this
      ensures Valid()
      ensures r == Parse(old(Rest()), depth)
      ensures r.Ok? ==> position == old(position) + |r.value.raw|
      decreases |data| - position, 0
    {
      hide Tag, Body, Group;
      if depth > MAX_NESTING {
        return Err(NestingLimit);
      }
      var start := position;
      ghost var s := Rest();
      var tag :- ReadTag();
      ghost var k := position - start;
      assert s[k..] == Rest();
      var number, wire := tag / 8, tag % 8;
      var body :- ReadBody(wire);
      if wire == 3 {
        assert s[position - start..] == Rest();
        var _ :- ReadGroup(number, depth + 1);
      }
      assert data[start..position] == s[..position - start];
      return Ok(Field(number, wire, body.0, body.1, data[start..position]));
    }
  }

  /** A parse continued behind the fields already found. */
  function Onto(found: seq<Field>, r: Result<seq<Field>>): Result<seq<Field>> {
    match r
    case Ok(rest) => Ok(found + rest)
    case Err(e) => Err(e)
  }

  lemma OntoStep(found: seq<Field>, s: Bytes, f: Field)
    requires s != [] && Parse(s, 0) == Ok(f) && f.wire != 4
    ensures Onto(found, Fields(s)) == Onto(found + [f], Fields(s[|f.raw|..]))
  {
    hide Parse;
    var rest := Fields(s[|f.raw|..]);
    if rest.Ok? {
      assert found + ([f] + rest.value) == found + [f] + rest.value;
    }
  }

  lemma OntoEnds(found: seq<Field>, r: Result<seq<Field>>)
    ensures Onto(found, Fields([])) == Ok(found) && Onto([], r) == r
  {
    assert found + [] == found;
    assert r.Ok? ==> [] + r.value == r.value;
  }

  /** The loop of `WorkerProtocol.fields`. */
  method ReadFields(data: Bytes) returns (r: Result<seq<Field>>)
    ensures r == Fields(data)
  {
    hide Parse;
    var cursor := new Cursor(data);
    var fields: seq<Field> := [];
    assert cursor.Rest() == data;
    OntoEnds([], Fields(data));
    while cursor.position < |data|
      invariant cursor.Valid() && cursor.data == data
      invariant Fields(data) == Onto(fields, Fields(cursor.Rest()))
      decreases |data| - cursor.position
    {
      ghost var here := cursor.Rest();
      var field :- cursor.ReadField(0);
      if field.wire == 4 {
        return Err(UnexpectedEndGroup);
      }
      OntoStep(fields, here, field);
      assert here[|field.raw|..] == cursor.Rest();
      fields := fields + [field];
    }
    OntoEnds(fields, Fields(data));
    return Ok(fields);
  }
}
