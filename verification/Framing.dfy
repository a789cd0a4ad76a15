/**
 * Length-delimited framing: `WorkerProtocol.read` and the two `writeDelimitedTo`. An
 * input stream is the bytes still to come, followed by end of stream.
 */
module Framing {
  import opened Common
  import Varint

  const MAX_MESSAGE := 64 * 1024 * 1024

  /** `Eof` is the `null` that `read` returns. */
  datatype Frame = Eof | Message(body: Bytes, rest: Bytes) | Broken(error: Error)

  /** The rest of a length of which `i` bytes are already read. */
  function Length(s: Bytes, i: nat): (r: Result<Varint.Scanned>)
    requires i <= 5
    ensures r.Ok? ==> 1 <= r.value.size <= |s|
    decreases 5 - i
  {
    if i == 5 then Err(InvalidLength)
    else if s == [] then Err(TruncatedLength)
    else if s[0] < 128 then Ok(Varint.Scanned(s[0], 1))
    else
      var rest :- Length(s[1..], i + 1);
      Ok(Varint.Scanned(s[0] - 128 + 128 * rest.value, 1 + rest.size))
  }

  function Read(s: Bytes): (f: Frame)
    ensures f.Message? ==> |f.rest| < |s| && |f.body| <= MAX_MESSAGE
  {
    if s == [] then Eof
    else
      match Length(s, 0)
      case Err(e) => Broken(e)
      case Ok(length) =>
        var rest := s[length.size..];
        if length.value > MAX_MESSAGE then Broken(MessageTooLarge)
        else if length.value > |rest| then Broken(TruncatedMessage)
        else Message(rest[..length.value], rest[length.value..])
  }

  function Write(body: Bytes): (b: Bytes)
    ensures b != []
  {
    Varint.Write(|body|) + body
  }

  function WriteAll(bodies: seq<Bytes>): Bytes {
    if bodies == [] then [] else Write(bodies[0]) + WriteAll(bodies[1..])
  }

  /** Reading until the stream ends: the messages, and whether it ended cleanly. */
  function ReadAll(s: Bytes): (seq<Bytes>, bool)
    decreases |s|
  {
    match Read(s)
    case Eof => ([], true)
    case Broken(_) => ([], false)
    case Message(body, rest) =>
      var more := ReadAll(rest);
      ([body] + more.0, more.1)
  }

  // ------------------------------------------------------------- round trip

  lemma LengthPrepend(low: nat, s: Bytes, i: nat)
    requires low < 128 && i < 5
    ensures Length([low + 128] + s, i) ==
            match Length(s, i + 1)
            case Ok(rest) => Ok(Varint.Scanned(low + 128 * rest.value, 1 + rest.size))
            case Err(e) => Err(e)
  {
    assert ([low + 128] + s)[1..] == s;
  }

  lemma {:induction false} LengthWritten(v: nat, t: Bytes, i: nat)
    requires i < 5 && v < Varint.Pow128(5 - i)
    ensures Length(Varint.Write(v) + t, i) == Ok(Varint.Scanned(v, |Varint.Write(v)|))
    decreases 5 - i
  {
    assert Varint.Pow128(1) == 128;
    if v < 128 {
      assert ([v] + t)[0] == v;
    } else {
      LengthWritten(v / 128, t, i + 1);
      var rest := Varint.Write(v / 128);
      assert Varint.Write(v) + t == [v % 128 + 128] + (rest + t);
      LengthPrepend(v % 128, rest + t, i);
    }
  }

  lemma Pow128Of5()
    ensures Varint.Pow128(5) == 34359738368
  {
    assert Varint.Pow128(1) == 128;
    assert Varint.Pow128(2) == 16384;
    assert Varint.Pow128(3) == 2097152;
    assert Varint.Pow128(4) == 268435456;
  }

  lemma LengthOfFrame(body: Bytes, t: Bytes)
    requires |body| < Varint.TWO_TO_31
    ensures Length(Write(body) + t, 0) == Ok(Varint.Scanned(|body|, |Varint.Write(|body|)|))
  {
    Pow128Of5();
    LengthWritten(|body|, body + t, 0);
    assert Write(body) + t == Varint.Write(|body|) + (body + t);
  }

  /** A frame that a Java array can hold is read back exactly when it is within the
      limit, whatever follows it; a larger one is refused before its body is read. */
  lemma RoundTrip(body: Bytes, t: Bytes)
    requires |body| < Varint.TWO_TO_31
    ensures Read(Write(body) + t) ==
            if |body| <= 67108864 then Message(body, t) else Broken(MessageTooLarge)
  {
    hide Length;
    LengthOfFrame(body, t);
    var prefix := Varint.Write(|body|);
    assert Write(body) + t == prefix + (body + t);
    DropPrefix(prefix, body + t, |prefix|);
    assert prefix[|prefix|..] + (body + t) == body + t;
    assert (body + t)[..|body|] == body && (body + t)[|body|..] == t;
  }

  /** Writing any messages and reading until end of stream gives exactly those messages
      and a clean end. */
  lemma {:induction false} StreamRoundTrip(bodies: seq<Bytes>)
    requires forall body :: body in bodies ==> |body| <= MAX_MESSAGE
    ensures ReadAll(WriteAll(bodies)) == (bodies, true)
  {
    hide Read, Write;
    if bodies == [] {
      assert Read([]) == Eof by { EmptyIsEof(); }
    } else {
      RoundTrip(bodies[0], WriteAll(bodies[1..]));
      StreamRoundTrip(bodies[1..]);
      assert [bodies[0]] + bodies[1..] == bodies;
    }
  }

  lemma EmptyIsEof()
    ensures Read([]) == Eof
  {
  }

  // ------------------------------------------------------------- truncation

  /** Cutting a length short makes it truncated, never another length. */
  lemma {:induction false} LengthCut(s: Bytes, k: nat, i: nat)
    requires i <= 5 && Length(s, i).Ok? && k < Length(s, i).value.size
    ensures Length(s[..k], i) == Err(TruncatedLength)
    decreases 5 - i
  {
    if k == 0 {
    } else {
      assert s[..k][0] == s[0] && s[..k][1..] == s[1..][..k - 1];
      LengthCut(s[1..], k - 1, i + 1);
    }
  }

  lemma {:induction false} LengthIsLocal(p: Bytes, x: Bytes, y: Bytes, i: nat)
    requires i <= 5 && Length(p + x, i).Ok? && Length(p + x, i).value.size <= |p|
    ensures Length(p + y, i) == Length(p + x, i)
    decreases 5 - i
  {
    assert (p + x)[0] == p[0] == (p + y)[0];
    DropPrefix(p, x, 1);
    DropPrefix(p, y, 1);
    if p[0] < 128 {
    } else {
      LengthIsLocal(p[1..], x, y, i + 1);
    }
  }

  /** A frame cut anywhere but at its ends is an error: it is never taken for the end of
      the stream or for a message. */
  lemma PrefixIsBroken(body: Bytes, k: nat)
    requires |body| < Varint.TWO_TO_31 && 0 < k < |Write(body)|
    ensures Read(Write(body)[..k]) ==
            Broken(if k < |Varint.Write(|body|)| then TruncatedLength
                   else if |body| > 67108864 then MessageTooLarge
                   else TruncatedMessage)
  {
    hide Length;
    var frame, prefix := Write(body), Varint.Write(|body|);
    LengthOfFrame(body, []);
    assert frame + [] == frame;
    if k < |prefix| {
      LengthCut(frame, k, 0);
    } else {
      var cut := frame[..k];
      assert frame == cut + frame[k..] && cut == cut + [];
      LengthIsLocal(cut, frame[k..], [], 0);
    }
  }

  /** A length is a varint of at most five bytes. */
  lemma {:induction false} LengthIsPositional(s: Bytes, i: nat, n: nat)
    requires i <= 4 && n >= 1
    ensures Length(s, i).Ok? && Length(s, i).value.size == n <==> Varint.EndsAt(s, n) && i + n <= 5
    ensures Length(s, i).Ok? && Length(s, i).value.size == n ==> Length(s, i).value.value == Varint.Septets(s, n)
    decreases n
  {
    if s == [] || s[0] < 128 {
      assert s != [] && n > 1 ==> !Varint.EndsAt(s, n);
      assert s != [] && n == 1 ==> Varint.Septets(s, 1) == s[0] % 128 + 128 * Varint.Septets(s[1..], 0);
    } else if n == 1 {
    } else {
      Varint.EndsLater(s, n - 1);
      if i < 4 {
        LengthIsPositional(s[1..], i + 1, n - 1);
      }
    }
  }

  // --------------------------------------------------------- the stream code

  /** A blocking input stream, as far as `read` and `readNBytes` observe it. */
  class InputStream {
    var remaining: Bytes

    constructor (bytes: Bytes)
      ensures remaining == bytes
    {
      remaining := bytes;
    }

    /** One byte, or -1 at end of stream. */
    method ReadByte() returns (b: int)
      modifies this
      ensures old(remaining) == [] ==> b == -1 && remaining == []
      ensures old(remaining) != [] ==> b == old(remaining)[0] && remaining == old(remaining)[1..]
    {
      if remaining == [] {
        return -1;
      }
      b := remaining[0];
      remaining := remaining[1..];
    }

    /** Up to `n` bytes; fewer only when the stream ends first. */
    method ReadNBytes(n: nat) returns (bytes: Bytes)
      modifies this
      ensures bytes + remaining == old(remaining)
      ensures |bytes| == if n <= |old(remaining)| then n else |old(remaining)|
    {
      var k := if n <= |remaining| then n else |remaining|;
      bytes := remaining[..k];
      remaining := remaining[k..];
    }
  }

  lemma ExtendOver(low: nat, i: nat, s: Bytes)
    requires i < 5 && s != []
    ensures Varint.Extend(low, i, Length(s, i)) ==
            if s[0] < 128 then Ok(Varint.Scanned(low + Varint.Pow128(i) * (s[0] % 128), i + 1))
            else Varint.Extend(low + Varint.Pow128(i) * (s[0] % 128), i + 1, Length(s[1..], i + 1))
  {
    if s[0] >= 128 && Length(s[1..], i + 1).Ok? {
      Varint.ExtendStep(low, i, s[0] % 128, Length(s[1..], i + 1).value);
    }
  }

  lemma ExtendFirst(s: Bytes)
    requires s != []
    ensures Length(s, 0) == if s[0] < 128 then Ok(Varint.Scanned(s[0] % 128, 1))
                            else Varint.Extend(s[0] % 128, 1, Length(s[1..], 1))
  {
    ExtendOver(0, 0, s);
    assert Varint.Pow128(0) == 1;
    Varint.ExtendZero(Length(s, 0));
  }

  lemma NoMoreLength(low: nat, i: nat, s: Bytes)
    requires 1 <= i <= 5
    ensures i == 5 ==> Varint.Extend(low, i, Length(s, i)) == Err(InvalidLength)
    ensures i < 5 && s == [] ==> Varint.Extend(low, i, Length(s, i)) == Err(TruncatedLength)
  {
  }

  /** `WorkerProtocol.read`: `Ok(None)` is its `null`. */
  method ReadFrame(input: InputStream) returns (r: Result<Option<Bytes>>)
    modifies input
    ensures match Read(old(input.remaining))
            case Eof => r == Ok(None) && input.remaining == []
            case Message(body, rest) => r == Ok(Some(body)) && input.remaining == rest
            case Broken(e) => r == Err(e)
  {
    hide Length, Varint.Extend, Varint.Pow128;
    ghost var s := input.remaining;
    var first := input.ReadByte();
    if first < 0 {
      return Ok(None);
    }
    ExtendFirst(s);
    var length: nat := first % 128;
    var value := first;
    var i := 1;
    while value >= 128
      invariant 1 <= i <= 5 && i <= |s| && 0 <= value < 256 && input.remaining == s[i..]
      invariant value >= 128 ==> Length(s, 0) == Varint.Extend(length, i, Length(s[i..], i))
      invariant value < 128 ==> Length(s, 0) == Ok(Varint.Scanned(length, i))
      decreases 5 - i, value
    {
      NoMoreLength(length, i, s[i..]);
      if i > 4 {
        return Err(InvalidLength);
      }
      ghost var here := input.remaining;
      value := input.ReadByte();
      if value < 0 {
        return Err(TruncatedLength);
      }
      ExtendOver(length, i, here);
      assert here[1..] == s[i + 1..];
      length := length + Varint.Pow128(i) * (value % 128);
      i := i + 1;
    }
    assert Length(s, 0) == Ok(Varint.Scanned(length, i)) && input.remaining == s[i..];
    r := ReadContents(input, length);
  }

  /** The part of `read` behind the length. */
  method ReadContents(input: InputStream, length: nat) returns (r: Result<Option<Bytes>>)
    modifies input
    ensures r == if length > MAX_MESSAGE then Err(MessageTooLarge)
                 else if length > |old(input.remaining)| then Err(TruncatedMessage)
                 else Ok(Some(old(input.remaining)[..length]))
    ensures r.Ok? ==> input.remaining == old(input.remaining)[length..]
  {
    if length > MAX_MESSAGE {
      return Err(MessageTooLarge);
    }
    ghost var rest := input.remaining;
    var bytes := input.ReadNBytes(length);
    if |bytes| != length {
      return Err(TruncatedMessage);
    }
    assert bytes == rest[..length] && input.remaining == rest[length..];
    return Ok(Some(bytes));
  }
}
