/**
 * `IncrementalWorker.signature`: which parts of a request decide whether compiler state
 * may be reused. SHA-256 and Base64 are a parameter; what is modelled is the pre-image
 * that is fed to them, byte for byte.
 */
module Signature {
  import opened Common
  import opened WorkMessages
  import Utf8
  import Varint

  /** `File.pathSeparator` on the platforms the worker runs on. */
  const PATH_SEPARATOR := ':'

  // ------------------------------------------------------- what is not hashed

  predicate ReadsBeyondClasspath(arg: string) {
    || StartsWith(arg, "-Xplugin")
    || StartsWith(arg, "-Xcompiler-plugin")
    || arg == "-P"
    || StartsWith(arg, "-P=")
    || StartsWith(arg, "-Xfriend-paths")
    || arg == "--plugins"
    || StartsWith(arg, "--plugins=")
  }

  predicate Conservative(args: seq<string>) {
    exists arg :: arg in args && ReadsBeyondClasspath(arg)
  }

  function JarsIn(entries: seq<string>): set<string> {
    set entry | entry in entries && EndsWith(entry, ".jar")
  }

  predicate IsClasspathFlag(arg: string) {
    arg == "-classpath" || arg == "-cp"
  }

  /** The jars on the classpaths given from index `i` on; a flag consumes its value, even
      when the value looks like another flag. */
  function JarsFrom(args: seq<string>, i: nat): set<string>
    decreases |args| - i
  {
    if i + 1 >= |args| then {}
    else if IsClasspathFlag(args[i]) then
      JarsIn(Split(args[i + 1], PATH_SEPARATOR)) + JarsFrom(args, i + 2)
    else JarsFrom(args, i + 1)
  }

  function ClasspathJars(args: seq<string>): set<string> {
    if Conservative(args) then {} else JarsFrom(args, IndexOf(args, "--") + 1)
  }

  /** Content the native incremental compiler follows by itself. */
  predicate Tracked(args: seq<string>, path: string) {
    EndsWith(path, ".kt") || EndsWith(path, ".java") || path in ClasspathJars(args)
  }

  /** The flags from index `i` on whose value is read as a classpath: those that are not
      themselves such a value. */
  predicate GivesClasspath(args: seq<string>, i: nat, k: nat)
    decreases k
  {
    && i <= k && k + 1 < |args| && (args[k] == "-classpath" || args[k] == "-cp")
    && !(i < k && GivesClasspath(args, i, k - 1))
  }

  /** Where the scan can be entered behind `i` without a change to what it finds. */
  lemma {:induction false} GivesClasspathFrom(args: seq<string>, i: nat, j: nat, k: nat)
    requires i < j <= k && !GivesClasspath(args, i, j - 1)
    ensures GivesClasspath(args, i, k) <==> GivesClasspath(args, j, k)
    decreases k
  {
    if k == j {
    } else {
      GivesClasspathFrom(args, i, j, k - 1);
    }
  }

  /** A jar on a classpath that is given. */
  predicate GivesJar(args: seq<string>, i: nat, k: nat, entry: string) {
    GivesClasspath(args, i, k) && EndsWith(entry, ".jar") && entry in Split(args[k + 1], ':')
  }

  ghost predicate OnClasspath(args: seq<string>, i: nat, entry: string) {
    exists k :: GivesJar(args, i, k, entry)
  }

  /** The scan finds exactly the jars on the classpaths that are given. */
  lemma {:induction false} JarsFromAreGiven(args: seq<string>, i: nat, entry: string)
    ensures entry in JarsFrom(args, i) <==> OnClasspath(args, i, entry)
    decreases |args| - i
  {
    hide EndsWith, Split;
    if i + 1 >= |args| {
    } else {
      var next := i + if IsClasspathFlag(args[i]) then 2 else 1;
      JarsFromAreGiven(args, next, entry);
      assert GivesClasspath(args, i, i) <==> IsClasspathFlag(args[i]);
      assert !GivesClasspath(args, i, next - 1);
      if k :| GivesJar(args, next, k, entry) {
        GivesClasspathFrom(args, i, next, k);
        assert GivesJar(args, i, k, entry);
      }
      if k :| GivesJar(args, i, k, entry) {
        GivenHereOrLater(args, i, next, k, entry);
      }
      if IsClasspathFlag(args[i]) && entry in JarsIn(Split(args[i + 1], PATH_SEPARATOR)) {
        assert GivesJar(args, i, i, entry);
      }
    }
  }

  lemma GivenHereOrLater(args: seq<string>, i: nat, next: nat, k: nat, entry: string)
    requires next in {i + 1, i + 2} && !GivesClasspath(args, i, next - 1) && GivesJar(args, i, k, entry)
    ensures k == i || GivesJar(args, next, k, entry)
  {
    hide EndsWith, Split;
    if k >= next {
      GivesClasspathFrom(args, i, next, k);
    }
  }

  /** What is tracked, wherever the flags stand: sources, and without a plugin or friend
      flag the jars, never the directories, on a classpath given behind the first `--`. */
  lemma TrackedIsExact(args: seq<string>, path: string)
    ensures Tracked(args, path) <==>
            EndsWith(path, ".kt") || EndsWith(path, ".java")
            || (OnClasspath(args, IndexOf(args, "--") + 1, path)
                && forall arg :: arg in args ==>
                     && !StartsWith(arg, "-Xplugin") && !StartsWith(arg, "-Xcompiler-plugin")
                     && !StartsWith(arg, "-Xfriend-paths")
                     && arg != "-P" && !StartsWith(arg, "-P=")
                     && arg != "--plugins" && !StartsWith(arg, "--plugins="))
  {
    hide EndsWith, OnClasspath, StartsWith;
    JarsFromAreGiven(args, IndexOf(args, "--") + 1, path);
  }

  /** So a jar on a classpath behind the separator is tracked, whatever stands between, if
      the flag before it is no value of another classpath flag. */
  lemma ClasspathJarsAreTracked(args: seq<string>, k: nat, entry: string)
    requires IndexOf(args, "--") < k && k + 1 < |args| && args[k] in ["-classpath", "-cp"]
    requires k == IndexOf(args, "--") + 1 || args[k - 1] !in ["-classpath", "-cp"]
    requires !Conservative(args)
    requires entry in Split(args[k + 1], ':') && EndsWith(entry, ".jar")
    ensures Tracked(args, entry)
  {
    hide EndsWith, Split, IndexOf, JarsFrom, Conservative;
    var behind := IndexOf(args, "--") + 1;
    assert behind < k ==> !GivesClasspath(args, behind, k - 1);
    assert GivesJar(args, behind, k, entry);
    JarsFromAreGiven(args, behind, entry);
  }

  // ------------------------------------------------------------------ sorting

  /** A character's place in Java's string order, which compares UTF-16 code units:
      supplementary characters, led by surrogates, come before U+E000 to U+FFFF. */
  function Rank(c: char): int {
    if 0xE000 <= c as int < 0x10000 then c as int + 0x110000 else c as int
  }

  predicate AtMost(a: string, b: string) {
    a == "" || (b != "" && (Rank(a[0]) < Rank(b[0]) || (a[0] == b[0] && AtMost(a[1..], b[1..]))))
  }

  function Insert(x: Input, sorted: seq<Input>): seq<Input>
    decreases |sorted|
  {
    if sorted == [] then [x]
    else if AtMost(x.path, sorted[0].path) then [x] + sorted
    else [sorted[0]] + Insert(x, sorted[1..])
  }

  /** The stable sort by path. */
  function SortByPath(inputs: seq<Input>): seq<Input>
    decreases |inputs|
  {
    if inputs == [] then [] else Insert(inputs[0], SortByPath(inputs[1..]))
  }

  function Untracked(args: seq<string>, inputs: seq<Input>): (kept: seq<Input>)
    ensures forall x :: x in kept <==> x in inputs && !Tracked(args, x.path)
    decreases |inputs|
  {
    if inputs == [] then []
    else if Tracked(args, inputs[0].path) then Untracked(args, inputs[1..])
    else [inputs[0]] + Untracked(args, inputs[1..])
  }

  /** The inputs that are hashed, in the order in which they are. */
  function Hashed(args: seq<string>, inputs: seq<Input>): seq<Input> {
    Untracked(args, SortByPath(inputs))
  }

  // ---------------------------------------------------------------- pre-image

  /** `ByteBuffer.putInt`: four bytes, most significant first. */
  function BigEndian(n: nat): (b: Bytes)
    ensures |b| == 4
  {
    [n / 0x100_0000 % 256, n / 0x1_0000 % 256, n / 256 % 256, n % 256]
  }

  /** What `hash` feeds to the digest for one byte array. */
  function Chunk(b: Bytes): Bytes {
    BigEndian(|b|) + b
  }

  function Chunks(parts: seq<Bytes>): Bytes
    decreases |parts|
  {
    if parts == [] then [] else Chunk(parts[0]) + Chunks(parts[1..])
  }

  function ArgumentParts(args: seq<string>): (parts: seq<Bytes>)
    ensures |parts| == |args|
  {
    if args == [] then [] else [Utf8.Encode(args[0])] + ArgumentParts(args[1..])
  }

  function InputParts(inputs: seq<Input>): seq<Bytes>
    decreases |inputs|
  {
    if inputs == [] then []
    else [Utf8.Encode(inputs[0].path), inputs[0].digest] + InputParts(inputs[1..])
  }

  function Parts(args: seq<string>, inputs: seq<Input>): seq<Bytes> {
    ArgumentParts(args) + InputParts(Hashed(args, inputs))
  }

  /** All that the digest sees of a request. */
  function Preimage(args: seq<string>, inputs: seq<Input>): Bytes {
    Chunks(Parts(args, inputs))
  }

  /** Every array hashed is one that Java can hold. */
  predicate Representable(args: seq<string>, inputs: seq<Input>) {
    && (forall a :: a in args ==> Fits(a))
    && forall x :: x in inputs ==> Fits(x.path) && |x.digest| < Varint.TWO_TO_31
  }

  // -------------------------------------------------------------- injectivity

  lemma BigEndianInjective(m: nat, n: nat)
    requires m < Varint.TWO_TO_32 && n < Varint.TWO_TO_32 && BigEndian(m) == BigEndian(n)
    ensures m == n
  {
    Digits(m);
    Digits(n);
    assert BigEndian(m)[0] == BigEndian(n)[0] && BigEndian(m)[1] == BigEndian(n)[1];
    assert BigEndian(m)[2] == BigEndian(n)[2] && BigEndian(m)[3] == BigEndian(n)[3];
  }

  /** The four bytes are the number in base 256, most significant first. */
  lemma BigEndianIsPositional(n: nat)
    requires n < 4294967296
    ensures var b := BigEndian(n);
            n == (b[0] as int) * 16777216 + (b[1] as int) * 65536 + (b[2] as int) * 256 + b[3]
  {
    Digits(n);
  }

  lemma Digits(n: nat)
    requires n < Varint.TWO_TO_32
    ensures n == n / 0x100_0000 % 256 * 0x100_0000 + n / 0x1_0000 % 256 * 0x1_0000
               + n / 256 % 256 * 256 + n % 256
  {
    assert n / 0x1_0000 == n / 256 / 256 && n / 0x100_0000 == n / 256 / 256 / 256;
  }

  lemma ChunkSplits(a: Bytes, x: Bytes, b: Bytes, y: Bytes)
    requires |a| < Varint.TWO_TO_32 && |b| < Varint.TWO_TO_32
    requires Chunk(a) + x == Chunk(b) + y
    ensures a == b && x == y
  {
    hide BigEndian;
    var s := Chunk(a) + x;
    assert s[..4] == BigEndian(|a|) && s[..4] == BigEndian(|b|);
    BigEndianInjective(|a|, |b|);
    assert s[4..4 + |a|] == a && s[4..4 + |b|] == b;
    assert s[4 + |a|..] == x && s[4 + |b|..] == y;
  }

  /** Length prefixes make the fed bytes determine the list of arrays fed. */
  lemma {:induction false} ChunksInjective(a: seq<Bytes>, b: seq<Bytes>)
    requires forall p :: p in a ==> |p| < Varint.TWO_TO_32
    requires forall p :: p in b ==> |p| < Varint.TWO_TO_32
    requires Chunks(a) == Chunks(b)
    ensures a == b
    decreases |a|
  {
    hide Chunk;
    if a == [] {
      if b != [] {
        ChunkNonempty(b[0]);
      }
    } else if b == [] {
      ChunkNonempty(a[0]);
    } else {
      ChunkSplits(a[0], Chunks(a[1..]), b[0], Chunks(b[1..]));
      ChunksInjective(a[1..], b[1..]);
      assert a == [a[0]] + a[1..] && b == [b[0]] + b[1..];
    }
  }

  lemma ChunkNonempty(p: Bytes)
    ensures |Chunk(p)| >= 4
  {
  }

  lemma {:induction false} ArgumentPartsFit(args: seq<string>)
    requires forall a :: a in args ==> Fits(a)
    ensures forall p :: p in ArgumentParts(args) ==> |p| < Varint.TWO_TO_31
  {
    if args == [] {
    } else {
      ArgumentPartsFit(args[1..]);
      assert Fits(args[0]);
    }
  }

  lemma {:induction false} InputPartsFit(inputs: seq<Input>)
    requires forall x :: x in inputs ==> Fits(x.path) && |x.digest| < Varint.TWO_TO_31
    ensures forall p :: p in InputParts(inputs) ==> |p| < Varint.TWO_TO_31
    decreases |inputs|
  {
    if inputs == [] {
    } else {
      InputPartsFit(inputs[1..]);
      assert Fits(inputs[0].path);
    }
  }

  lemma {:induction false} ArgumentPartsInjective(a: seq<string>, b: seq<string>)
    requires ArgumentParts(a) == ArgumentParts(b)
    ensures a == b
  {
    if a == [] {
    } else {
      assert ArgumentParts(a)[0] == ArgumentParts(b)[0];
      Utf8.EncodeInjective(a[0], b[0]);
      assert ArgumentParts(a)[1..] == ArgumentParts(a[1..]);
      assert ArgumentParts(b)[1..] == ArgumentParts(b[1..]);
      ArgumentPartsInjective(a[1..], b[1..]);
      assert a == [a[0]] + a[1..] && b == [b[0]] + b[1..];
    }
  }

  lemma {:induction false} InputPartsInjective(a: seq<Input>, b: seq<Input>)
    requires InputParts(a) == InputParts(b)
    ensures a == b
    decreases |a|
  {
    if a == [] {
    } else {
      assert InputParts(a)[0] == InputParts(b)[0] && InputParts(a)[1] == InputParts(b)[1];
      Utf8.EncodeInjective(a[0].path, b[0].path);
      assert InputParts(a)[2..] == InputParts(a[1..]);
      assert InputParts(b)[2..] == InputParts(b[1..]);
      InputPartsInjective(a[1..], b[1..]);
      assert a == [a[0]] + a[1..] && b == [b[0]] + b[1..];
    }
  }

  lemma {:induction false} SortKeepsElements(inputs: seq<Input>)
    ensures forall x :: x in SortByPath(inputs) <==> x in inputs
    decreases |inputs|
  {
    if inputs == [] {
    } else {
      SortKeepsElements(inputs[1..]);
      InsertAdds(inputs[0], SortByPath(inputs[1..]));
    }
  }

  lemma {:induction false} InsertAdds(x: Input, sorted: seq<Input>)
    ensures forall y :: y in Insert(x, sorted) <==> y == x || y in sorted
    decreases |sorted|
  {
    if sorted == [] || AtMost(x.path, sorted[0].path) {
    } else {
      InsertAdds(x, sorted[1..]);
    }
  }

  /** The hashed inputs are exactly the inputs that are not tracked. */
  lemma HashedElements(args: seq<string>, inputs: seq<Input>)
    ensures forall x :: x in Hashed(args, inputs) <==> x in inputs && !Tracked(args, x.path)
  {
    SortKeepsElements(inputs);
  }

  /** Equal pre-images come from equal lists of arrays. */
  lemma PreimageInjective(args: seq<string>, inputs: seq<Input>, args': seq<string>, inputs': seq<Input>)
    requires Representable(args, inputs) && Representable(args', inputs')
    requires Preimage(args, inputs) == Preimage(args', inputs')
    ensures Parts(args, inputs) == Parts(args', inputs')
  {
    hide ArgumentParts, InputParts, Hashed, Tracked;
    HashedElements(args, inputs);
    HashedElements(args', inputs');
    ArgumentPartsFit(args);
    ArgumentPartsFit(args');
    InputPartsFit(Hashed(args, inputs));
    InputPartsFit(Hashed(args', inputs'));
    ChunksInjective(Parts(args, inputs), Parts(args', inputs'));
  }

  /** The pre-image decides the arguments and the hashed inputs between requests with
      equally many arguments. Equal pre-images alone do not: the arguments they stand for
      are equal exactly when there are equally many. */
  lemma PreimageDecides(args: seq<string>, inputs: seq<Input>, args': seq<string>, inputs': seq<Input>)
    requires Representable(args, inputs) && Representable(args', inputs')
    ensures |args| == |args'| ==>
              (Preimage(args, inputs) == Preimage(args', inputs') <==>
               args == args' && Hashed(args, inputs) == Hashed(args', inputs'))
    ensures Preimage(args, inputs) == Preimage(args', inputs') ==>
              (args == args' <==> |args| == |args'|)
  {
    hide ArgumentParts, InputParts, Hashed, Chunks;
    if Preimage(args, inputs) == Preimage(args', inputs') && |args| == |args'| {
      PreimageInjective(args, inputs, args', inputs');
      var parts := Parts(args, inputs);
      assert parts[..|args|] == ArgumentParts(args) && parts[..|args|] == ArgumentParts(args');
      assert parts[|args|..] == InputParts(Hashed(args, inputs));
      assert parts[|args|..] == InputParts(Hashed(args', inputs'));
      ArgumentPartsInjective(args, args');
      InputPartsInjective(Hashed(args, inputs), Hashed(args', inputs'));
    }
  }

  /** What is hashed of the inputs: all but the sources and, unless one of the plugin or
      friend flags is present, the jars on a classpath behind the separator. */
  lemma HashedIsExact(args: seq<string>, inputs: seq<Input>, x: Input)
    ensures x in Hashed(args, inputs) <==>
            && x in inputs && !EndsWith(x.path, ".kt") && !EndsWith(x.path, ".java")
            && (OnClasspath(args, IndexOf(args, "--") + 1, x.path) ==>
                  exists arg :: arg in args
                                && (|| StartsWith(arg, "-Xplugin") || StartsWith(arg, "-Xcompiler-plugin")
                                    || StartsWith(arg, "-Xfriend-paths")
                                    || arg == "-P" || StartsWith(arg, "-P=")
                                    || arg == "--plugins" || StartsWith(arg, "--plugins=")))
  {
    hide Hashed, Tracked, EndsWith, StartsWith, OnClasspath;
    HashedElements(args, inputs);
    TrackedIsExact(args, x.path);
  }

  /** With a plugin or friend flag the pre-image decides every input but the sources, jars
      on the classpath included. */
  lemma PluginFlagsDisableTracking(
    args: seq<string>, inputs: seq<Input>, args': seq<string>, inputs': seq<Input>, flag: string, x: Input)
    requires Representable(args, inputs) && Representable(args', inputs')
    requires |args| == |args'| && Preimage(args, inputs) == Preimage(args', inputs')
    requires flag in args
    requires || StartsWith(flag, "-Xplugin") || StartsWith(flag, "-Xcompiler-plugin")
             || StartsWith(flag, "-Xfriend-paths")
             || flag == "-P" || StartsWith(flag, "-P=")
             || flag == "--plugins" || StartsWith(flag, "--plugins=")
    requires !EndsWith(x.path, ".kt") && !EndsWith(x.path, ".java")
    ensures x in inputs <==> x in inputs'
  {
    hide Preimage, Hashed, EndsWith, StartsWith, Representable, OnClasspath;
    PreimageDecides(args, inputs, args', inputs');
    HashedIsExact(args, inputs, x);
    HashedIsExact(args', inputs', x);
  }

  /** The boundary between arguments and inputs is not part of the pre-image: an input
      that is hashed can be traded for two more arguments. */
  lemma BoundaryIsNotHashed(args: seq<string>, path: string, text: string)
    requires !Tracked(args, path)
    ensures Preimage(args + [path, text], []) == Preimage(args, [Input(path, Utf8.Encode(text))])
  {
    hide Utf8.Encode, Tracked, Chunks, Hashed, InputParts, ArgumentParts;
    HashedOne(args, Input(path, Utf8.Encode(text)));
    HashedNone(args + [path, text]);
    ArgumentPartsAppend(args, path, text);
    assert ArgumentParts(args + [path, text]) + [] == ArgumentParts(args + [path, text]);
  }

  lemma HashedOne(args: seq<string>, x: Input)
    requires !Tracked(args, x.path)
    ensures InputParts(Hashed(args, [x])) == [Utf8.Encode(x.path), x.digest]
  {
    hide Tracked, AtMost, Utf8.Encode;
    assert SortByPath([x]) == [x];
    assert Untracked(args, [x]) == [x];
    assert [x][1..] == [];
  }

  lemma HashedNone(args: seq<string>)
    ensures InputParts(Hashed(args, [])) == []
  {
  }

  lemma {:induction false} ArgumentPartsAppend(args: seq<string>, a: string, b: string)
    ensures ArgumentParts(args + [a, b]) == ArgumentParts(args) + [Utf8.Encode(a), Utf8.Encode(b)]
  {
    hide Utf8.Encode;
    if args == [] {
      assert [a, b][1..] == [b] && [b][1..] == [];
      assert ArgumentParts([b]) == [Utf8.Encode(b)];
    } else {
      assert (args + [a, b])[0] == args[0] && (args + [a, b])[1..] == args[1..] + [a, b];
      ArgumentPartsAppend(args[1..], a, b);
    }
  }

  // ------------------------------------------------------- order independence

  predicate DistinctPaths(inputs: seq<Input>) {
    forall i, j :: 0 <= i < j < |inputs| ==> inputs[i].path != inputs[j].path
  }

  predicate Before(a: string, b: string) {
    AtMost(a, b) && a != b
  }

  predicate StrictlySorted(s: seq<Input>) {
    forall i, j :: 0 <= i < j < |s| ==> Before(s[i].path, s[j].path)
  }

  predicate SameElements(a: seq<Input>, b: seq<Input>) {
    (forall x :: x in a ==> x in b) && forall x :: x in b ==> x in a
  }

  /** The UTF-16 code units of a character. */
  function Units(c: char): (u: seq<int>)
    ensures 1 <= |u| <= 2
  {
    var n := c as int;
    if n < 0x10000 then [n] else [0xD800 + (n - 0x10000) / 0x400, 0xDC00 + (n - 0x10000) % 0x400]
  }

  function Utf16(s: string): seq<int> {
    if s == "" then [] else Units(s[0]) + Utf16(s[1..])
  }

  /** `String.compareTo`, not positive. */
  predicate UnitsAtMost(a: seq<int>, b: seq<int>) {
    a == [] || (b != [] && (a[0] < b[0] || (a[0] == b[0] && UnitsAtMost(a[1..], b[1..]))))
  }

  lemma UnitsDiffer(c: char, d: char, a: seq<int>, b: seq<int>)
    requires c != d
    ensures UnitsAtMost(Units(c) + a, Units(d) + b) <==> Rank(c) < Rank(d)
  {
    var m, n := c as int, d as int;
    if m >= 0x10000 && n >= 0x10000 {
      var x, y := Units(c) + a, Units(d) + b;
      assert x[0] == Units(c)[0] && x[1..][0] == Units(c)[1];
      assert y[0] == Units(d)[0] && y[1..][0] == Units(d)[1];
    }
  }

  lemma UnitsSame(c: char, a: seq<int>, b: seq<int>)
    ensures UnitsAtMost(Units(c) + a, Units(c) + b) <==> UnitsAtMost(a, b)
  {
    var u := Units(c);
    if |u| == 1 {
      assert (u + a)[1..] == a && (u + b)[1..] == b;
    } else {
      assert (u + a)[1..] == [u[1]] + a && (u + b)[1..] == [u[1]] + b;
      assert ([u[1]] + a)[1..] == a && ([u[1]] + b)[1..] == b;
    }
  }

  /** Paths are compared as Java compares strings, by their UTF-16 code units. */
  lemma {:induction false} OrderIsByUnits(a: string, b: string)
    ensures AtMost(a, b) <==> UnitsAtMost(Utf16(a), Utf16(b))
  {
    if a == "" || b == "" {
    } else if a[0] == b[0] {
      UnitsSame(a[0], Utf16(a[1..]), Utf16(b[1..]));
      OrderIsByUnits(a[1..], b[1..]);
    } else {
      UnitsDiffer(a[0], b[0], Utf16(a[1..]), Utf16(b[1..]));
    }
  }

  /** The inputs of one path, in order. */
  function WithPath(inputs: seq<Input>, path: string): seq<Input>
    decreases |inputs|
  {
    if inputs == [] then []
    else (if inputs[0].path == path then [inputs[0]] else []) + WithPath(inputs[1..], path)
  }

  lemma WithPathPrepend(x: Input, rest: seq<Input>, path: string)
    ensures WithPath([x] + rest, path) == (if x.path == path then [x] else []) + WithPath(rest, path)
  {
    assert ([x] + rest)[1..] == rest;
  }

  lemma {:induction false} InsertIsStable(x: Input, s: seq<Input>, path: string)
    ensures WithPath(Insert(x, s), path) == (if x.path == path then [x] else []) + WithPath(s, path)
    decreases |s|
  {
    hide AtMost, WithPath;
    OrderIsTotal(x.path, x.path);
    if s == [] || AtMost(x.path, s[0].path) {
      WithPathPrepend(x, s, path);
      assert s == [] ==> [x] + s == [x];
    } else {
      InsertIsStable(x, s[1..], path);
      WithPathPrepend(s[0], Insert(x, s[1..]), path);
      WithPathPrepend(s[0], s[1..], path);
      assert [s[0]] + s[1..] == s;
    }
  }

  /** The sort neither loses nor adds nor duplicates inputs, and those of one path keep
      their order. */
  lemma {:induction false} SortIsStable(inputs: seq<Input>, path: string)
    ensures WithPath(SortByPath(inputs), path) == WithPath(inputs, path)
    decreases |inputs|
  {
    if inputs == [] {
    } else {
      SortIsStable(inputs[1..], path);
      InsertIsStable(inputs[0], SortByPath(inputs[1..]), path);
    }
  }

  /** So do those that are hashed. */
  lemma {:induction false} UntrackedIsStable(args: seq<string>, inputs: seq<Input>, path: string)
    ensures WithPath(Untracked(args, inputs), path) == if Tracked(args, path) then [] else WithPath(inputs, path)
    decreases |inputs|
  {
    hide Tracked;
    if inputs == [] {
    } else {
      UntrackedIsStable(args, inputs[1..], path);
      WithPathPrepend(inputs[0], Untracked(args, inputs[1..]), path);
    }
  }

  predicate Sorted(s: seq<Input>) {
    forall i, j :: 0 <= i < j < |s| ==> AtMost(s[i].path, s[j].path)
  }

  lemma {:induction false} InsertKeepsOrder(x: Input, s: seq<Input>)
    requires Sorted(s)
    ensures Sorted(Insert(x, s))
    decreases |s|
  {
    hide AtMost;
    if s == [] {
    } else if AtMost(x.path, s[0].path) {
      SortedPrepend(x, s);
    } else {
      OrderIsTotal(x.path, s[0].path);
      InsertKeepsOrder(x, s[1..]);
      InsertAdds(x, s[1..]);
      var rest := Insert(x, s[1..]);
      forall y | y in rest
        ensures AtMost(s[0].path, y.path)
      {
        assert y == x || y in s[1..];
      }
      assert forall j :: 0 <= j < |rest| ==> rest[j] in rest;
      SortedPrepend(s[0], rest);
    }
  }

  lemma SortedPrepend(x: Input, s: seq<Input>)
    requires Sorted(s) && (s != [] ==> AtMost(x.path, s[0].path))
    ensures Sorted([x] + s)
  {
    forall j | 1 <= j < |s|
      ensures AtMost(x.path, s[j].path)
    {
      OrderIsTransitive(x.path, s[0].path, s[j].path);
    }
  }

  /** What is hashed, with repeated paths too: the untracked inputs of each path in their
      own order, and paths in Java's order. */
  lemma HashedIsSorted(args: seq<string>, inputs: seq<Input>, path: string)
    ensures Sorted(Hashed(args, inputs))
    ensures WithPath(Hashed(args, inputs), path) == if Tracked(args, path) then [] else WithPath(inputs, path)
  {
    hide Tracked, AtMost, Sorted;
    SortsAlways(inputs);
    StaysSorted(args, SortByPath(inputs));
    SortIsStable(inputs, path);
    UntrackedIsStable(args, SortByPath(inputs), path);
  }

  lemma {:induction false} SortsAlways(inputs: seq<Input>)
    ensures Sorted(SortByPath(inputs))
    decreases |inputs|
  {
    if inputs == [] {
    } else {
      SortsAlways(inputs[1..]);
      InsertKeepsOrder(inputs[0], SortByPath(inputs[1..]));
    }
  }

  lemma {:induction false} StaysSorted(args: seq<string>, s: seq<Input>)
    requires Sorted(s)
    ensures Sorted(Untracked(args, s))
    decreases |s|
  {
    hide AtMost, Tracked;
    if s == [] {
    } else {
      var rest := Untracked(args, s[1..]);
      StaysSorted(args, s[1..]);
      if !Tracked(args, s[0].path) {
        assert rest != [] ==> rest[0] in rest;
        SortedPrepend(s[0], rest);
      }
    }
  }

  lemma {:induction false} OrderIsTotal(a: string, b: string)
    ensures AtMost(a, b) || AtMost(b, a)
    ensures AtMost(a, b) && AtMost(b, a) ==> a == b
  {
    if a == "" || b == "" {
    } else {
      OrderIsTotal(a[1..], b[1..]);
      assert a == [a[0]] + a[1..] && b == [b[0]] + b[1..];
    }
  }

  lemma {:induction false} OrderIsTransitive(a: string, b: string, c: string)
    requires AtMost(a, b) && AtMost(b, c)
    ensures AtMost(a, c)
  {
    if a != "" && a[0] == b[0] && b[0] == c[0] {
      OrderIsTransitive(a[1..], b[1..], c[1..]);
    }
  }

  lemma BeforeIsTransitive(a: string, b: string, c: string)
    requires Before(a, b) && Before(b, c)
    ensures Before(a, c)
  {
    OrderIsTransitive(a, b, c);
    OrderIsTotal(a, b);
  }

  lemma StrictlySortedPrepend(x: Input, s: seq<Input>)
    requires StrictlySorted(s) && (s != [] ==> Before(x.path, s[0].path))
    ensures StrictlySorted([x] + s)
  {
    forall j | 1 <= j < |s|
      ensures Before(x.path, s[j].path)
    {
      BeforeIsTransitive(x.path, s[0].path, s[j].path);
    }
  }

  lemma {:induction false} InsertSorts(x: Input, s: seq<Input>)
    requires StrictlySorted(s) && forall y :: y in s ==> y.path != x.path
    ensures StrictlySorted(Insert(x, s))
    decreases |s|
  {
    hide AtMost;
    if s == [] {
    } else if AtMost(x.path, s[0].path) {
      StrictlySortedPrepend(x, s);
    } else {
      OrderIsTotal(x.path, s[0].path);
      InsertSorts(x, s[1..]);
      InsertAdds(x, s[1..]);
      var rest := Insert(x, s[1..]);
      assert rest != [] ==> rest[0] in rest;
      StrictlySortedPrepend(s[0], rest);
    }
  }

  lemma {:induction false} SortSorts(inputs: seq<Input>)
    requires DistinctPaths(inputs)
    ensures StrictlySorted(SortByPath(inputs))
    decreases |inputs|
  {
    if inputs == [] {
    } else {
      SortSorts(inputs[1..]);
      SortKeepsElements(inputs[1..]);
      InsertSorts(inputs[0], SortByPath(inputs[1..]));
    }
  }

  lemma {:induction false} UntrackedStaysSorted(args: seq<string>, s: seq<Input>)
    requires StrictlySorted(s)
    ensures StrictlySorted(Untracked(args, s))
    decreases |s|
  {
    hide AtMost, Tracked;
    if s == [] {
    } else {
      var rest := Untracked(args, s[1..]);
      UntrackedStaysSorted(args, s[1..]);
      if !Tracked(args, s[0].path) {
        assert rest != [] ==> rest[0] in rest;
        StrictlySortedPrepend(s[0], rest);
      }
    }
  }

  lemma NonemptyHasElement(s: seq<Input>)
    ensures s == [] || exists x :: x in s
  {
    if s != [] {
      assert s[0] in s;
    }
  }

  lemma InTail(s: seq<Input>, x: Input)
    requires StrictlySorted(s) && s != []
    ensures x in s[1..] <==> x in s && x != s[0]
  {
    if x in s[1..] {
      var i :| 0 <= i < |s[1..]| && s[1..][i] == x;
      assert s[i + 1] == x;
    }
  }

  lemma {:induction false} SortedIsUnique(a: seq<Input>, b: seq<Input>)
    requires StrictlySorted(a) && StrictlySorted(b) && SameElements(a, b)
    ensures a == b
    decreases |a|
  {
    hide AtMost;
    if a == [] || b == [] {
      NonemptyHasElement(a + b);
    } else {
      assert a[0] in b && b[0] in a;
      OrderIsTotal(a[0].path, b[0].path);
      assert a[0] == b[0];
      forall x
        ensures x in a[1..] <==> x in b[1..]
      {
        InTail(a, x);
        InTail(b, x);
      }
      SortedIsUnique(a[1..], b[1..]);
      assert a == [a[0]] + a[1..] && b == [b[0]] + b[1..];
    }
  }

  lemma HashedIsItsSet(args: seq<string>, inputs: seq<Input>, inputs': seq<Input>)
    requires DistinctPaths(inputs) && DistinctPaths(inputs')
    ensures Hashed(args, inputs) == Hashed(args, inputs')
            <==> SameElements(Untracked(args, inputs), Untracked(args, inputs'))
  {
    hide Tracked, AtMost;
    SortSorts(inputs);
    SortSorts(inputs');
    UntrackedStaysSorted(args, SortByPath(inputs));
    UntrackedStaysSorted(args, SortByPath(inputs'));
    HashedElements(args, inputs);
    HashedElements(args, inputs');
    if SameElements(Untracked(args, inputs), Untracked(args, inputs')) {
      SortedIsUnique(Hashed(args, inputs), Hashed(args, inputs'));
    }
  }

  /** For the same arguments and inputs with distinct paths, the pre-image is decided by
      exactly the set of untracked inputs: neither their order nor anything about a
      tracked input matters, and every path and digest of an untracked one does. */
  lemma PreimageIgnoresExactlyTracked(args: seq<string>, inputs: seq<Input>, inputs': seq<Input>)
    requires Representable(args, inputs) && Representable(args, inputs')
    requires DistinctPaths(inputs) && DistinctPaths(inputs')
    ensures Preimage(args, inputs) == Preimage(args, inputs')
            <==> SameElements(Untracked(args, inputs), Untracked(args, inputs'))
  {
    hide Preimage, Hashed, Representable, DistinctPaths, SameElements;
    HashedIsItsSet(args, inputs, inputs');
    PreimageDecides(args, inputs, args, inputs');
  }

  // ------------------------------------------------------------------ the code

  /** The digest as a record of what was fed to it. */
  class MessageDigest {
    var fed: Bytes

    constructor ()
      ensures fed == []
    {
      fed := [];
    }

    /** `IncrementalWorker.hash`. */
    method Hash(bytes: Bytes)
      modifies this
      ensures fed == old(fed) + Chunk(bytes)
    {
      fed := fed + BigEndian(|bytes|);
      fed := fed + bytes;
    }
  }

  /** The classpath scan of `signature`. */
  method FindClasspathJars(args: seq<string>) returns (classpath: set<string>)
    ensures classpath == ClasspathJars(args)
  {
    hide Split, JarsIn, ReadsBeyondClasspath;
    classpath := {};
    var conservative := exists arg :: arg in args && ReadsBeyondClasspath(arg);
    if !conservative {
      var i := IndexOf(args, "--") + 1;
      while i + 1 < |args|
        invariant i >= 0
        invariant ClasspathJars(args) == classpath + JarsFrom(args, i)
        decreases |args| - i
      {
        if IsClasspathFlag(args[i]) {
          i := i + 1;
          classpath := classpath + JarsIn(Split(args[i], PATH_SEPARATOR));
        }
        i := i + 1;
      }
    }
  }

  lemma ArgumentPartsFrom(args: seq<string>, i: nat)
    requires i < |args|
    ensures ArgumentParts(args[i..]) == [Utf8.Encode(args[i])] + ArgumentParts(args[i + 1..])
  {
    assert args[i..][1..] == args[i + 1..];
  }

  lemma UntrackedPartsFrom(args: seq<string>, sorted: seq<Input>, i: nat)
    requires i < |sorted|
    ensures InputParts(Untracked(args, sorted[i..])) ==
            (if Tracked(args, sorted[i].path) then []
             else [Utf8.Encode(sorted[i].path), sorted[i].digest])
            + InputParts(Untracked(args, sorted[i + 1..]))
  {
    assert sorted[i..][1..] == sorted[i + 1..];
    var rest := Untracked(args, sorted[i + 1..]);
    assert ([sorted[i]] + rest)[1..] == rest;
  }

  lemma {:induction false} ChunksConcat(a: seq<Bytes>, b: seq<Bytes>)
    ensures Chunks(a + b) == Chunks(a) + Chunks(b)
    decreases |a|
  {
    hide Chunk;
    if a == [] {
      assert a + b == b;
    } else {
      calc {
        Chunks(a + b);
        { assert (a + b)[0] == a[0] && (a + b)[1..] == a[1..] + b; }
        Chunk(a[0]) + Chunks(a[1..] + b);
        { ChunksConcat(a[1..], b); }
        Chunk(a[0]) + (Chunks(a[1..]) + Chunks(b));
        Chunk(a[0]) + Chunks(a[1..]) + Chunks(b);
      }
    }
  }

  lemma ChunksOfOne(a: Bytes, rest: seq<Bytes>)
    ensures Chunks([a] + rest) == Chunk(a) + Chunks(rest)
  {
    assert ([a] + rest)[1..] == rest;
  }

  lemma ChunksOfTwo(a: Bytes, b: Bytes, rest: seq<Bytes>)
    ensures Chunks([a, b] + rest) == Chunk(a) + Chunk(b) + Chunks(rest)
  {
    hide Chunk;
    assert [a, b] + rest == [a] + ([b] + rest);
    ChunksOfOne(a, [b] + rest);
    ChunksOfOne(b, rest);
  }

  /** The loop of `signature` over the arguments. */
  method FeedArguments(hash: MessageDigest, args: seq<string>)
    modifies hash
    ensures hash.fed == old(hash.fed) + Chunks(ArgumentParts(args))
  {
    hide Chunk, Utf8.Encode, ArgumentParts, Chunks;
    NothingFed(args);
    assert args[0..] == args;
    for i := 0 to |args|
      invariant hash.fed + Chunks(ArgumentParts(args[i..]))
             == old(hash.fed) + Chunks(ArgumentParts(args))
    {
      ArgumentPartsFrom(args, i);
      ChunksOfOne(Utf8.Encode(args[i]), ArgumentParts(args[i + 1..]));
      hash.Hash(Utf8.Encode(args[i]));
    }
  }

  /** The loop of `signature` over the sorted inputs. */
  method FeedInputs(hash: MessageDigest, args: seq<string>, sorted: seq<Input>, classpath: set<string>)
    requires classpath == ClasspathJars(args)
    modifies hash
    ensures hash.fed == old(hash.fed) + Chunks(InputParts(Untracked(args, sorted)))
  {
    hide Chunk, ClasspathJars, Untracked, Utf8.Encode, InputParts, EndsWith, Chunks;
    NothingFed(args);
    assert sorted[0..] == sorted;
    for i := 0 to |sorted|
      invariant hash.fed + Chunks(InputParts(Untracked(args, sorted[i..])))
             == old(hash.fed) + Chunks(InputParts(Untracked(args, sorted)))
    {
      var input := sorted[i];
      UntrackedPartsFrom(args, sorted, i);
      ghost var rest := InputParts(Untracked(args, sorted[i + 1..]));
      if EndsWith(input.path, ".kt") || EndsWith(input.path, ".java") || input.path in classpath {
        assert [] + rest == rest;
        continue;
      }
      ChunksOfTwo(Utf8.Encode(input.path), input.digest, rest);
      hash.Hash(Utf8.Encode(input.path));
      hash.Hash(input.digest);
    }
  }

  /** `IncrementalWorker.signature`, for whatever `digest` stands for SHA-256 and Base64. */
  method ComputeSignature(r: WorkRequest, digest: Bytes -> string) returns (signature: string)
    ensures signature == digest(Preimage(r.arguments, r.inputs))
  {
    hide Chunks, ArgumentParts, InputParts, SortByPath, Untracked;
    var classpath := FindClasspathJars(r.arguments);
    var hash := new MessageDigest();
    FeedArguments(hash, r.arguments);
    FeedInputs(hash, r.arguments, SortByPath(r.inputs), classpath);
    ghost var inputParts := InputParts(Hashed(r.arguments, r.inputs));
    ChunksConcat(ArgumentParts(r.arguments), inputParts);
    assert hash.fed == Chunks(ArgumentParts(r.arguments)) + Chunks(inputParts);
    signature := digest(hash.fed);
  }

  lemma NothingFed(args: seq<string>)
    ensures Chunks([]) == [] && ArgumentParts([]) == [] && InputParts([]) == []
    ensures Untracked(args, []) == []
  {
  }
}
