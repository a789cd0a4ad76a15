/** Vocabulary shared by the models: bytes, results, and a few sequence operations. */
module Common {

  type byte = n: int | 0 <= n < 256

  type Bytes = seq<byte>

  datatype Option<+T> = None | Some(value: T)

  /** What the codec throws, one constructor per `throw` statement. */
  datatype Error =
    | TruncatedVarint
    | InvalidVarint
    | TruncatedField
    | NestingLimit
    | InvalidTag
    | MismatchedGroup
    | InvalidWireType
    | UnexpectedEndGroup
    | InvalidText
    | InvalidLength
    | TruncatedLength
    | MessageTooLarge
    | TruncatedMessage

  datatype Result<+T> = Ok(value: T) | Err(error: Error) {
    predicate IsFailure() {
      Err?
    }

    function PropagateFailure<U>(): Result<U>
      requires Err?
    {
      Err(error)
    }

    function Extract(): T
      requires Ok?
    {
      value
    }
  }

  predicate StartsWith(s: string, prefix: string) {
    prefix <= s
  }

  predicate EndsWith(s: string, suffix: string) {
    |suffix| <= |s| && s[|s| - |suffix|..] == suffix
  }

  /** The index of the first occurrence of `x`, or -1. */
  function IndexOf<T(==)>(s: seq<T>, x: T): (i: int)
    ensures -1 <= i < |s|
    ensures 0 <= i ==> s[i] == x && x !in s[..i]
    ensures i < 0 ==> x !in s
  {
    if s == [] then -1
    else if s[0] == x then 0
    else
      var i := IndexOf(s[1..], x);
      if i < 0 then -1 else i + 1
  }

  function Split(s: string, separator: char): (parts: seq<string>)
    ensures |parts| >= 1
  {
    if s == "" then [""]
    else
      var rest := Split(s[1..], separator);
      if s[0] == separator then [""] + rest else [[s[0]] + rest[0]] + rest[1..]
  }

  /** `joinToString` */
  function Join(parts: seq<string>, separator: char): string {
    if parts == [] then ""
    else if |parts| == 1 then parts[0]
    else parts[0] + [separator] + Join(parts[1..], separator)
  }

  /** An index described by what precedes it is the index `IndexOf` finds. */
  lemma {:induction false} IndexOfIs<T>(s: seq<T>, x: T, i: nat)
    requires i < |s| && s[i] == x && x !in s[..i]
    ensures IndexOf(s, x) == i
  {
    if i == 0 {
    } else {
      assert s[0] == s[..i][0] && s[1..][..i - 1] == s[..i][1..];
      IndexOfIs(s[1..], x, i - 1);
    }
  }

  /** Dropping within the first part of a concatenation leaves the second part alone. */
  lemma DropPrefix<T>(p: seq<T>, x: seq<T>, k: nat)
    requires k <= |p|
    ensures (p + x)[k..] == p[k..] + x && (p + x)[..k] == p[..k]
  {
  }

  lemma {:induction false} SplitPrepend(head: string, tail: string, separator: char)
    requires separator !in head
    ensures Split(head + [separator] + tail, separator) == [head] + Split(tail, separator)
    ensures Split(head, separator) == [head]
  {
    if head == "" {
      assert "" + [separator] + tail == [separator] + tail;
      assert ([separator] + tail)[1..] == tail;
    } else {
      SplitPrepend(head[1..], tail, separator);
      assert (head + [separator] + tail)[1..] == head[1..] + [separator] + tail;
      assert [head[0]] + head[1..] == head;
    }
  }

  /** Splitting undoes joining when no part contains the separator. */
  lemma {:induction false} SplitJoined(parts: seq<string>, separator: char)
    requires parts != [] && forall p :: p in parts ==> separator !in p
    ensures Split(Join(parts, separator), separator) == parts
  {
    SplitPrepend(parts[0], Join(parts[1..], separator), separator);
    if |parts| == 1 {
    } else {
      SplitJoined(parts[1..], separator);
      assert parts == [parts[0]] + parts[1..];
    }
  }

  /** A suffix is what comes last. */
  lemma EndsWithIsLast(s: string, suffix: string)
    ensures EndsWith(s, suffix) <==> exists stem :: s == stem + suffix
  {
    if EndsWith(s, suffix) {
      assert s == s[..|s| - |suffix|] + suffix;
    }
    if stem :| s == stem + suffix {
      assert s[|stem|..] == suffix;
    }
  }

  /** Splitting loses nothing: no part holds the separator, and joining gives the string
      back. */
  lemma {:induction false} JoinSplit(s: string, separator: char)
    ensures Join(Split(s, separator), separator) == s
    ensures forall p :: p in Split(s, separator) ==> separator !in p
  {
    if s == "" {
    } else {
      JoinSplit(s[1..], separator);
      var rest := Split(s[1..], separator);
      if s[0] == separator {
        assert ([""] + rest)[1..] == rest;
      } else {
        assert rest == [rest[0]] + rest[1..];
        assert ([[s[0]] + rest[0]] + rest[1..])[1..] == rest[1..];
      }
      assert s == [s[0]] + s[1..];
    }
  }
}
