/**
 * Base 128 varints as `WorkerProtocol.Cursor.varint` reads and `WorkerProtocol.varint`
 * writes them. A Java `long` is kept as its unsigned value below 2^64; `ToLong` gives
 * the signed reading where the source compares or truncates it. Or-ing a septet into
 * bits that are still zero is addition (`OrIsAddition`), and the models add.
 */
module Varint {
  import opened Common

  const TWO_TO_64 := 0x1_0000_0000_0000_0000
  const TWO_TO_63 := 0x8000_0000_0000_0000
  const TWO_TO_32 := 0x1_0000_0000
  const TWO_TO_31 := 0x8000_0000

  /** A value read and the number of bytes it occupied. */
  datatype Scanned = Scanned(value: nat, size: nat)

  function ToLong(u: nat): int {
    if u < TWO_TO_63 then u else u - TWO_TO_64
  }

  /** The `(int)` cast of a `long`: the low 32 bits, read as signed. */
  function ToInt(u: nat): (i: int)
    ensures -TWO_TO_31 <= i < TWO_TO_31
  {
    var low := u % TWO_TO_32;
    if low < TWO_TO_31 then low else low - TWO_TO_32
  }

  /** The widening of an `int` to a `long`, as an unsigned 64-bit value. */
  function FromInt(i: int): (u: nat)
    ensures u < TWO_TO_64
  {
    i % TWO_TO_64
  }

  function Pow128(i: nat): (p: nat)
    ensures p > 0
  {
    if i == 0 then 1 else 128 * Pow128(i - 1)
  }

  /** Reads the rest of a varint whose first `i` bytes are already consumed. */
  function Read(s: Bytes, i: nat): (r: Result<Scanned>)
    requires i <= 10
    ensures r.Ok? ==> 1 <= r.value.size <= |s| && i + r.value.size <= 10
    decreases 10 - i
  {
    if i == 10 then Err(InvalidVarint)
    else if s == [] then Err(TruncatedVarint)
    else if i == 9 && s[0] > 1 then Err(InvalidVarint)
    else if s[0] < 128 then Ok(Scanned(s[0], 1))
    else
      var rest :- Read(s[1..], i + 1);
      Ok(Scanned(s[0] - 128 + 128 * rest.value, 1 + rest.size))
  }

  function Write(v: nat): (b: Bytes)
    ensures |b| >= 1
  {
    if v < 128 then [v] else [v % 128 + 128] + Write(v / 128)
  }

  /** The room left in 64 bits after `i` septets. */
  function Cap(i: nat): (c: nat)
    requires i <= 9
    ensures c >= 2
    decreases 9 - i
  {
    if i == 9 then 2 else 128 * Cap(i + 1)
  }

  lemma CapIs64Bits()
    ensures Cap(0) == TWO_TO_64
  {
    assert Cap(8) == 256;
    assert Cap(6) == 128 * 128 * 256;
    assert Cap(4) == 128 * 128 * Cap(6);
    assert Cap(2) == 128 * 128 * Cap(4);
    assert Cap(0) == 128 * 128 * Cap(2);
  }

  lemma {:induction false} ReadIsBounded(s: Bytes, i: nat)
    requires i <= 9 && Read(s, i).Ok?
    ensures Read(s, i).value.value < Cap(i)
    decreases 9 - i
  {
    if s[0] < 128 {
      assert i < 9 ==> Cap(i) == 128 * Cap(i + 1);
    } else {
      var rest := Read(s[1..], i + 1).value;
      ReadIsBounded(s[1..], i + 1);
      assert rest.value <= Cap(i + 1) - 1;
      assert Read(s, i).value.value == s[0] - 128 + 128 * rest.value;
      assert Cap(i) == 128 * Cap(i + 1);
    }
  }

  /** A varint that is read fits in 64 bits. */
  lemma ReadFits(s: Bytes)
    requires Read(s, 0).Ok?
    ensures Read(s, 0).value.value < TWO_TO_64
  {
    ReadIsBounded(s, 0);
    CapIs64Bits();
  }

  lemma ReadPrepend(low: nat, s: Bytes, i: nat)
    requires low < 128 && i < 9
    ensures Read([low + 128] + s, i) ==
            match Read(s, i + 1)
            case Ok(rest) => Ok(Scanned(low + 128 * rest.value, 1 + rest.size))
            case Err(e) => Err(e)
  {
    assert ([low + 128] + s)[1..] == s;
  }

  lemma CapStep(v: nat, i: nat)
    requires i <= 9 && 128 <= v < Cap(i)
    ensures i < 9 && v / 128 < Cap(i + 1)
  {
  }

  lemma ReadOne(v: nat, t: Bytes, i: nat)
    requires i <= 9 && v < 128 && v < Cap(i)
    ensures Read([v] + t, i) == Ok(Scanned(v, 1))
  {
    assert ([v] + t)[0] == v;
  }

  lemma {:induction false} ReadWritten(v: nat, t: Bytes, i: nat)
    requires i <= 9 && v < Cap(i)
    ensures Read(Write(v) + t, i) == Ok(Scanned(v, |Write(v)|))
    decreases 9 - i
  {
    hide Read, Cap;
    if v < 128 {
      ReadOne(v, t, i);
    } else {
      CapStep(v, i);
      ReadWritten(v / 128, t, i + 1);
      var rest := Write(v / 128);
      assert Write(v) + t == [v % 128 + 128] + (rest + t);
      ReadPrepend(v % 128, rest + t, i);
    }
  }

  /** A varint that fills all ten bytes ends in a byte of at most 1. */
  lemma {:induction false} TenthByte(s: Bytes, i: nat)
    requires i <= 9 && Read(s, i).Ok? && i + Read(s, i).value.size == 10
    ensures s[9 - i] <= 1
    decreases 9 - i
  {
    if i < 9 {
      TenthByte(s[1..], i + 1);
    }
  }

  /** Reading a written 64-bit value gives it back, whatever follows it in the stream;
      it takes 1 to 10 bytes, and a tenth byte is at most 1. */
  lemma RoundTrip(v: nat, t: Bytes)
    requires v < TWO_TO_64
    ensures Read(Write(v) + t, 0) == Ok(Scanned(v, |Write(v)|))
    ensures 1 <= |Write(v)| <= 10
    ensures |Write(v)| == 10 ==> Write(v)[9] <= 1
  {
    CapIs64Bits();
    ReadWritten(v, t, 0);
    if |Write(v)| == 10 {
      TenthByte(Write(v) + t, 0);
    }
  }

  /** The number of bytes written is the number of septets the value needs. */
  lemma {:induction false} WriteSize(v: nat, k: nat)
    requires 1 <= k
    ensures |Write(v)| <= k <==> v < Pow128(k)
  {
    if k == 1 {
      assert Pow128(1) == 128;
    } else if v >= 128 {
      WriteSize(v / 128, k - 1);
    } else {
      Pow128AtLeast(k);
    }
  }

  lemma {:induction false} Pow128AtLeast(k: nat)
    requires 1 <= k
    ensures Pow128(k) >= 128
  {
    if k <= 1 {
    } else {
      Pow128AtLeast(k - 1);
    }
  }

  /** What is read depends only on the bytes consumed: behind a prefix that holds them
      all, it does not matter what follows. */
  lemma {:induction false} ReadIsLocal(p: Bytes, x: Bytes, y: Bytes, i: nat)
    requires i <= 10 && Read(p + x, i).Ok? && Read(p + x, i).value.size <= |p|
    ensures Read(p + y, i) == Read(p + x, i)
    decreases 10 - i
  {
    assert (p + x)[0] == p[0] == (p + y)[0];
    DropPrefix(p, x, 1);
    DropPrefix(p, y, 1);
    if p[0] < 128 {
    } else {
      ReadIsLocal(p[1..], x, y, i + 1);
    }
  }

  /** A signed 32-bit value written as a 64-bit varint truncates back to itself. */
  /** The cast to `int` keeps the value up to multiples of 2^32, in the range of an `int`. */
  lemma IntIsTruncated(u: nat)
    ensures -2147483648 <= ToInt(u) <= 2147483647 && (u - ToInt(u)) % 4294967296 == 0
  {
    var low := u % TWO_TO_32;
    assert u - low == u / TWO_TO_32 * TWO_TO_32;
    if low >= TWO_TO_31 {
      assert u - ToInt(u) == (u / TWO_TO_32 + 1) * TWO_TO_32;
    }
  }

  // --------------------------------------------------- septets by position

  /** The first byte without a continuation bit is byte `n`, counted from 1. */
  predicate EndsAt(s: Bytes, n: nat) {
    1 <= n <= |s| && s[n - 1] < 128 && forall j :: 0 <= j < n - 1 ==> s[j] >= 128
  }

  /** The number whose septets, least significant first, are the first `n` bytes. */
  function Septets(s: Bytes, n: nat): nat
    requires n <= |s|
    decreases n
  {
    if n == 0 then 0 else s[0] % 128 + 128 * Septets(s[1..], n - 1)
  }

  lemma EndsLater(s: Bytes, n: nat)
    requires s != [] && s[0] >= 128 && n >= 1
    ensures EndsAt(s, n + 1) <==> EndsAt(s[1..], n)
  {
    if EndsAt(s[1..], n) {
      forall j | 0 <= j < n
        ensures s[j] >= 128
      {
        assert j > 0 ==> s[j] == s[1..][j - 1];
      }
    }
    if EndsAt(s, n + 1) {
      forall j | 0 <= j < n - 1
        ensures s[1..][j] >= 128
      {
        assert s[1..][j] == s[j + 1];
      }
    }
  }

  /** A varint is read exactly up to the first byte without a continuation bit, as the
      number of its septets, padding zeros allowed, if that is one of the first ten and as
      a tenth at most 1. */
  lemma {:induction false} ReadIsPositional(s: Bytes, i: nat, n: nat)
    requires i <= 9 && n >= 1
    ensures Read(s, i).Ok? && Read(s, i).value.size == n <==>
            EndsAt(s, n) && i + n <= 10 && (i + n == 10 ==> s[n - 1] <= 1)
    ensures Read(s, i).Ok? && Read(s, i).value.size == n ==> Read(s, i).value.value == Septets(s, n)
    decreases n
  {
    if s == [] || (i == 9 && s[0] > 1) || s[0] < 128 {
      assert s != [] && s[0] < 128 && n > 1 ==> !EndsAt(s, n);
      assert s != [] && n == 1 ==> Septets(s, 1) == s[0] % 128 + 128 * Septets(s[1..], 0);
    } else if n == 1 {
    } else {
      EndsLater(s, n - 1);
      ReadIsPositional(s[1..], i + 1, n - 1);
    }
  }

  lemma IntSurvives(i: int)
    requires -TWO_TO_31 <= i < TWO_TO_31
    ensures ToInt(FromInt(i)) == i
    ensures FromInt(i) == if i < 0 then 18446744073709551616 + i else i
  {
    assert FromInt(i) == if i < 0 then i + TWO_TO_64 else i;
  }

  /** The loop of `WorkerProtocol.varint`, appending to the bytes already in the stream. */
  method WriteTo(output: Bytes, v: nat) returns (written: Bytes)
    ensures written == output + Write(v)
  {
    written := output;
    var value := v;
    while value >= 128
      invariant written + Write(value) == output + Write(v)
    {
      assert written + Write(value) == written + [value % 128 + 128] + Write(value / 128);
      written := written + [value % 128 + 128];
      value := value / 128;
    }
    written := written + [value];
  }

  /** The value of `low` extended by a varint tail read after `i` septets. */
  function Extend(low: nat, i: nat, tail: Result<Scanned>): Result<Scanned> {
    match tail
    case Ok(t) => Ok(Scanned(low + Pow128(i) * t.value, i + t.size))
    case Err(e) => Err(e)
  }

  lemma ExtendStep(low: nat, i: nat, septet: nat, rest: Scanned)
    ensures Extend(low, i, Ok(Scanned(septet + 128 * rest.value, 1 + rest.size)))
         == Extend(low + Pow128(i) * septet, i + 1, Ok(rest))
  {
    calc {
      Pow128(i) * (septet + 128 * rest.value);
      Pow128(i) * septet + Pow128(i) * (128 * rest.value);
      Pow128(i) * septet + Pow128(i + 1) * rest.value;
    }
  }

  lemma ExtendZero(tail: Result<Scanned>)
    ensures Extend(0, 0, tail) == tail
  {
    assert Pow128(0) == 1;
  }

  lemma ExtendExhausted(low: nat, s: Bytes)
    ensures Extend(low, 10, Read(s, 10)) == Err(InvalidVarint)
  {
  }

  /** One round of the reading loop: how the result so far extends over the next byte. */
  lemma ExtendOver(low: nat, i: nat, s: Bytes)
    requires i < 10
    ensures Extend(low, i, Read(s, i)) ==
            if s == [] then Err(TruncatedVarint)
            else if i == 9 && s[0] > 1 then Err(InvalidVarint)
            else if s[0] < 128 then Ok(Scanned(low + Pow128(i) * (s[0] % 128), i + 1))
            else Extend(low + Pow128(i) * (s[0] % 128), i + 1, Read(s[1..], i + 1))
  {
    hide Pow128;
    if s != [] && s[0] >= 128 && i < 9 && Read(s[1..], i + 1).Ok? {
      ExtendStep(low, i, s[0] % 128, Read(s[1..], i + 1).value);
    }
  }

  /** On 64-bit words, or-ing a septet above the bits read so far adds it. */
  lemma OrIsAddition(result: bv64, septet: bv64, shift: nat)
    requires shift in {7, 14, 21, 28, 35, 42, 49, 56}
    requires result < (1 << shift) && septet < 128
    ensures result | (septet << shift) == result + (septet << shift)
  {
  }

  /** And so does the last bit of a tenth byte. */
  lemma LastOrIsAddition(result: bv64, bit: bv64)
    requires result < (1 << 63) && bit <= 1
    ensures result | (bit << 63) == result + (bit << 63)
  {
  }

  /** On 64-bit words, the bit operations of the printing loop are division by 128. */
  lemma MasksAreDivision(v: bv64)
    ensures (v & 127) | 128 == v % 128 + 128 && v >> 7 == v / 128
    ensures v & !127 != 0 <==> v >= 128
  {
  }
}
