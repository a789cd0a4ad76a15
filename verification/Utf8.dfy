/**
 * The strict UTF-8 transcoding behind `getBytes(UTF_8)` and the reporting decoder of
 * `WorkerProtocol.text`. A Dafny `char` is a Unicode scalar value, so a string here is
 * a Java string without unpaired surrogates, which is all the decoder can produce.
 */
module Utf8 {
  import opened Common

  function EncodeChar(c: char): (b: Bytes)
    ensures 1 <= |b| <= 4
  {
    var n := c as int;
    if n < 0x80 then [n]
    else if n < 0x800 then [0xC0 + n / 64, 0x80 + n % 64]
    else if n < 0x10000 then [0xE0 + n / 4096, 0x80 + n / 64 % 64, 0x80 + n % 64]
    else [0xF0 + n / 262144, 0x80 + n / 4096 % 64, 0x80 + n / 64 % 64, 0x80 + n % 64]
  }

  predicate Tail(b: byte) {
    0x80 <= b < 0xC0
  }

  /** The payload of a byte whose marker bits are `marker`. */
  function Bits(b: byte, marker: int): int {
    b - marker
  }

  datatype Decoded = Malformed | Decoded(c: char, size: nat)

  /** Decodes the first character; overlong forms and surrogates are malformed. */
  function DecodeChar(s: Bytes): (d: Decoded)
    ensures d.Decoded? ==> 1 <= d.size <= |s|
  {
    if |s| >= 1 && s[0] < 0x80 then
      Decoded(s[0] as char, 1)
    else if |s| >= 2 && 0xC2 <= s[0] < 0xE0 && Tail(s[1]) then
      Decoded((Bits(s[0], 0xC0) * 64 + Bits(s[1], 0x80)) as char, 2)
    else if |s| >= 3 && 0xE0 <= s[0] < 0xF0 && Tail(s[1]) && Tail(s[2]) then
      var n := Bits(s[0], 0xE0) * 4096 + Bits(s[1], 0x80) * 64 + Bits(s[2], 0x80);
      if n < 0x800 || 0xD800 <= n < 0xE000 then Malformed else Decoded(n as char, 3)
    else if |s| >= 4 && 0xF0 <= s[0] < 0xF5 && Tail(s[1]) && Tail(s[2]) && Tail(s[3]) then
      var n := Bits(s[0], 0xF0) * 262144 + Bits(s[1], 0x80) * 4096
               + Bits(s[2], 0x80) * 64 + Bits(s[3], 0x80);
      if n < 0x10000 || 0x110000 <= n then Malformed else Decoded(n as char, 4)
    else
      Malformed
  }

  function Encode(s: string): Bytes {
    if s == "" then [] else EncodeChar(s[0]) + Encode(s[1..])
  }

  function Decode(b: Bytes): Result<string> {
    if b == [] then Ok("")
    else
      var d := DecodeChar(b);
      if d.Malformed? then Err(InvalidText)
      else
        var rest :- Decode(b[d.size..]);
        Ok([d.c] + rest)
  }

  /** Base 64 digits add up to the number they were taken from. */
  lemma SextetsOf(n: nat)
    ensures n == n / 64 * 64 + n % 64
    ensures n == n / 4096 * 4096 + n / 64 % 64 * 64 + n % 64
  {
    assert n / 4096 == n / 64 / 64;
  }

  lemma CharRoundTrip(c: char, t: Bytes)
    ensures DecodeChar(EncodeChar(c) + t) == Decoded(c, |EncodeChar(c)|)
  {
    var n := c as int;
    var e := EncodeChar(c);
    var s := e + t;
    assert forall i :: 0 <= i < |e| ==> s[i] == e[i];
    if 0x800 <= n < 0x10000 {
      SextetsOf(n);
    } else if 0x10000 <= n {
      SextetsOf(n);
      SextetsOf(n / 4096);
      assert n / 262144 == n / 4096 / 64;
    }
  }

  lemma Sextets(a: nat, b: nat, c: nat)
    requires b < 64 && c < 64
    ensures (a * 4096 + b * 64 + c) / 4096 == a
    ensures (a * 4096 + b * 64 + c) / 64 == a * 64 + b
    ensures (a * 64 + b) % 64 == b
    ensures (a * 4096 + b * 64 + c) % 64 == c
  {
  }

  lemma CharEncodesBack(s: Bytes)
    requires DecodeChar(s).Decoded?
    ensures EncodeChar(DecodeChar(s).c) == s[..DecodeChar(s).size]
  {
    var d := DecodeChar(s);
    if d.size == 3 {
      Sextets(Bits(s[0], 0xE0), Bits(s[1], 0x80), Bits(s[2], 0x80));
    } else if d.size == 4 {
      Sextets(Bits(s[0], 0xF0) * 64 + Bits(s[1], 0x80), Bits(s[2], 0x80), Bits(s[3], 0x80));
      Sextets(Bits(s[0], 0xF0), Bits(s[1], 0x80), 0);
    }
  }

  /** Every string survives encoding followed by strict decoding. */
  lemma {:induction false} RoundTrip(s: string)
    ensures Decode(Encode(s)) == Ok(s)
  {
    if s == "" {
    } else {
      RoundTrip(s[1..]);
      CharRoundTrip(s[0], Encode(s[1..]));
      assert Encode(s)[|EncodeChar(s[0])|..] == Encode(s[1..]);
      assert [s[0]] + s[1..] == s;
    }
  }

  lemma EncodePrepend(c: char, rest: string)
    ensures Encode([c] + rest) == EncodeChar(c) + Encode(rest)
  {
    assert ([c] + rest)[1..] == rest;
  }

  /** The decoder accepts only canonical encodings: whatever it accepts encodes back. */
  lemma {:induction false} DecodeIsCanonical(b: Bytes)
    requires Decode(b).Ok?
    ensures Encode(Decode(b).value) == b
  {
    if b == [] {
    } else {
      var d := DecodeChar(b);
      var rest := Decode(b[d.size..]);
      assert rest.Ok? && Decode(b).value == [d.c] + rest.value;
      calc {
        Encode([d.c] + rest.value);
        { EncodePrepend(d.c, rest.value); }
        EncodeChar(d.c) + Encode(rest.value);
        { CharEncodesBack(b); DecodeIsCanonical(b[d.size..]); }
        b[..d.size] + b[d.size..];
        b;
      }
    }
  }

  lemma EncodeInjective(s: string, t: string)
    requires Encode(s) == Encode(t)
    ensures s == t
  {
    RoundTrip(s);
    RoundTrip(t);
  }

  lemma {:induction false} EncodeSize(s: string)
    ensures |Encode(s)| <= 4 * |s|
  {
    if s == "" {
    } else {
      EncodeSize(s[1..]);
    }
  }
}
