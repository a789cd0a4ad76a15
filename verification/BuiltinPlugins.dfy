/**
 * `BuiltinPlugins`: which requested compiler plugin jars duplicate a plugin that is
 * built into Elide, and which builtins to enable for them.
 */
module BuiltinPlugins {
  import opened Common
  import opened Flagfile

  /** Part of a jar's base name, and the builtin it stands for; first match wins. */
  const MAP: seq<(string, string)> := [
    ("serialization-compiler-plugin", "serialization"),
    ("power-assert-compiler-plugin", "power-assert"),
    ("atomicfu-compiler-plugin", "atomicfu"),
    ("metro-compiler", "metro")]

  const XPLUGIN := "-Xplugin="

  datatype Rewrite = Rewrite(jar: string, builtin: string)

  predicate Contains(s: string, needle: string) {
    exists i :: 0 <= i <= |s| && needle <= s[i..]
  }

  /** `substringAfterLast`: everything when the delimiter is absent. */
  function AfterLast(s: string, c: char): string {
    if c !in s then s else AfterLast(s[1..], c)
  }

  function Basename(path: string): string {
    AfterLast(AfterLast(path, '/'), '\\')
  }

  function FirstMatch(entries: seq<(string, string)>, base: string): Option<string>
    decreases |entries|
  {
    if entries == [] then None
    else if Contains(base, entries[0].0) then Some(entries[0].1)
    else FirstMatch(entries[1..], base)
  }

  function BuiltinFor(jar: string): Option<string> {
    FirstMatch(MAP, Basename(jar))
  }

  predicate IsXplugin(flag: string) {
    StartsWith(flag, XPLUGIN)
  }

  function JarOf(flag: string): string
    requires IsXplugin(flag)
  {
    flag[|XPLUGIN|..]
  }

  predicate IsRewrittenXplugin(flag: string) {
    IsXplugin(flag) && BuiltinFor(JarOf(flag)).Some?
  }

  function PassthroughJars(flags: seq<string>): seq<string>
    decreases |flags|
  {
    if flags == [] then []
    else (if IsXplugin(flags[0]) then [JarOf(flags[0])] else []) + PassthroughJars(flags[1..])
  }

  /** The plugin jars a request asks for, from both places. */
  function Requested(req: CompileRequest): seq<string> {
    req.compilerPluginClasspath + PassthroughJars(req.passthroughFlags)
  }

  predicate Known(found: seq<Rewrite>, jar: string) {
    exists r :: r in found && r.jar == jar
  }

  /** The jars seen so far, one more considered. */
  function Consider(found: seq<Rewrite>, jar: string): seq<Rewrite> {
    var name := BuiltinFor(jar);
    if name.None? || Known(found, jar) then found else found + [Rewrite(jar, name.value)]
  }

  function ConsiderAll(found: seq<Rewrite>, jars: seq<string>): seq<Rewrite>
    decreases |jars|
  {
    if jars == [] then found else ConsiderAll(Consider(found, jars[0]), jars[1..])
  }

  /** `detect` */
  function Detect(req: CompileRequest): seq<Rewrite> {
    ConsiderAll([], Requested(req))
  }

  /** `builtinNames`: the distinct builtins, in order of first appearance. */
  function Names(rewrites: seq<Rewrite>): seq<string>
    decreases |rewrites|
  {
    if rewrites == [] then []
    else
      var earlier := Names(rewrites[..|rewrites| - 1]);
      var name := rewrites[|rewrites| - 1].builtin;
      if name in earlier then earlier else earlier + [name]
  }

  // -------------------------------------------------------------- properties

  lemma {:induction false} AfterLastIsSuffix(s: string, c: char)
    ensures |AfterLast(s, c)| <= |s| && c !in AfterLast(s, c)
    ensures s[|s| - |AfterLast(s, c)|..] == AfterLast(s, c)
    ensures |AfterLast(s, c)| < |s| ==> s[|s| - |AfterLast(s, c)| - 1] == c
    ensures c !in s ==> AfterLast(s, c) == s
  {
    if c !in s {
    } else {
      AfterLastIsSuffix(s[1..], c);
      assert s == [s[0]] + s[1..];
    }
  }

  /** The base name is the last segment, whichever of the two separators a path uses: it
      holds neither, and what precedes it is nothing or ends in one. */
  lemma BasenameIsLastSegment(path: string)
    ensures var base := Basename(path);
            && '/' !in base && '\\' !in base
            && |base| <= |path| && path[|path| - |base|..] == base
            && (|base| < |path| ==> path[|path| - |base| - 1] in {'/', '\\'})
  {
    hide AfterLast;
    AfterLastIsSuffix(path, '/');
    var tail := AfterLast(path, '/');
    AfterLastIsSuffix(tail, '\\');
    var base := AfterLast(tail, '\\');
    SuffixOfSuffix(path, |tail|, |base|);
  }

  lemma SuffixOfSuffix(s: string, outer: nat, inner: nat)
    requires inner <= outer <= |s|
    ensures s[|s| - outer..][outer - inner..] == s[|s| - inner..]
    ensures inner < outer ==> s[|s| - outer..][outer - inner - 1] == s[|s| - inner - 1]
  {
  }

  predicate Distinct<T(==)>(s: seq<T>) {
    forall i, j :: 0 <= i < j < |s| ==> s[i] != s[j]
  }

  /** Every rewrite is of a different jar and names that jar's builtin. */
  ghost predicate Faithful(found: seq<Rewrite>) {
    && (forall r :: r in found ==> BuiltinFor(r.jar) == Some(r.builtin))
    && forall i, j :: 0 <= i < j < |found| ==> found[i].jar != found[j].jar
  }

  lemma ConsiderOne(found: seq<Rewrite>, jar: string)
    requires Faithful(found)
    ensures Faithful(Consider(found, jar))
    ensures forall j :: Known(Consider(found, jar), j) <==>
              Known(found, j) || (j == jar && BuiltinFor(jar).Some?)
  {
    hide BuiltinFor;
    var after := Consider(found, jar);
    forall j
      ensures Known(after, j) <==> Known(found, j) || (j == jar && BuiltinFor(jar).Some?)
    {
      if BuiltinFor(jar).Some? && !Known(found, jar) {
        var r := Rewrite(jar, BuiltinFor(jar).value);
        assert forall x :: x in after <==> x in found || x == r;
        if j == jar {
          assert r in after;
        }
      }
    }
  }

  lemma {:induction false} ConsiderEach(found: seq<Rewrite>, jars: seq<string>)
    requires Faithful(found)
    ensures Faithful(ConsiderAll(found, jars))
    ensures forall j :: Known(ConsiderAll(found, jars), j) <==>
              Known(found, j) || (j in jars && BuiltinFor(j).Some?)
    decreases |jars|
  {
    hide Consider, BuiltinFor, Faithful, Known;
    if jars == [] {
    } else {
      ConsiderOne(found, jars[0]);
      ConsiderEach(Consider(found, jars[0]), jars[1..]);
      assert forall j :: j in jars <==> j == jars[0] || j in jars[1..];
    }
  }

  /** The rewrites are exactly the requested jars that have a builtin, each once, each
      with its own builtin. */
  lemma DetectIsExact(req: CompileRequest)
    ensures Faithful(Detect(req))
    ensures forall jar :: Known(Detect(req), jar) <==> jar in Requested(req) && BuiltinFor(jar).Some?
  {
    hide Requested, BuiltinFor;
    ConsiderEach([], Requested(req));
  }

  lemma {:induction false} NamesAreExact(rewrites: seq<Rewrite>)
    ensures Distinct(Names(rewrites))
    ensures forall n :: n in Names(rewrites) <==> exists r :: r in rewrites && r.builtin == n
    decreases |rewrites|
  {
    if rewrites == [] {
    } else {
      var k := |rewrites| - 1;
      NamesAreExact(rewrites[..k]);
      assert rewrites == rewrites[..k] + [rewrites[k]];
      forall n
        ensures n in Names(rewrites) <==> exists r :: r in rewrites && r.builtin == n
      {
        if n == rewrites[k].builtin {
          assert rewrites[k] in rewrites;
        }
        if r :| r in rewrites[..k] && r.builtin == n {
          assert r in rewrites;
        }
      }
    }
  }

  /** The builtins enabled for a request are exactly those that its jars stand for, each
      listed once. */
  lemma BuiltinsAreExact(req: CompileRequest)
    ensures Distinct(Names(Detect(req)))
    ensures forall jar :: jar in Requested(req) && BuiltinFor(jar).Some? ==>
              BuiltinFor(jar).value in Names(Detect(req))
    ensures forall n :: n in Names(Detect(req)) ==>
              exists jar :: jar in Requested(req) && BuiltinFor(jar) == Some(n)
  {
    hide Detect, Requested, BuiltinFor;
    var rewrites := Detect(req);
    DetectIsExact(req);
    NamesAreExact(rewrites);
    forall jar | jar in Requested(req) && BuiltinFor(jar).Some?
      ensures BuiltinFor(jar).value in Names(rewrites)
    {
      assert Known(rewrites, jar);
      var r :| r in rewrites && r.jar == jar;
      assert r.builtin == BuiltinFor(jar).value;
    }
    forall n | n in Names(rewrites)
      ensures exists jar :: jar in Requested(req) && BuiltinFor(jar) == Some(n)
    {
      var r :| r in rewrites && r.builtin == n;
      assert Known(rewrites, r.jar);
    }
  }

  lemma {:induction false} MatchIsListed(entries: seq<(string, string)>, base: string)
    requires FirstMatch(entries, base).Some?
    ensures exists e :: e in entries && e.1 == FirstMatch(entries, base).value
    decreases |entries|
  {
    hide Contains;
    if Contains(base, entries[0].0) {
      assert entries[0] in entries;
    } else {
      MatchIsListed(entries[1..], base);
      var e :| e in entries[1..] && e.1 == FirstMatch(entries, base).value;
      assert e in entries;
    }
  }

  /** Builtin names are the four of the table, none of which contains a comma. */
  lemma BuiltinIsOneOfFour(jar: string)
    requires BuiltinFor(jar).Some?
    ensures BuiltinFor(jar).value in {"serialization", "power-assert", "atomicfu", "metro"}
    ensures ',' !in BuiltinFor(jar).value
  {
    hide Contains;
    MatchIsListed(MAP, Basename(jar));
  }

  ghost predicate Occurs(needle: string, s: string) {
    exists before, behind :: s == before + needle + behind
  }

  lemma ContainsIsOccurs(s: string, needle: string)
    ensures Contains(s, needle) <==> Occurs(needle, s)
  {
    if i :| 0 <= i <= |s| && needle <= s[i..] {
      assert s == s[..i] + needle + s[i + |needle|..];
    }
    if before, behind :| s == before + needle + behind {
      assert s[|before|..] == needle + behind;
    }
  }

  /** Which jar stands for which builtin, by its base name alone; the first of the four that
      applies. */
  lemma BuiltinIsByName(jar: string)
    ensures var base := Basename(jar);
            var serialization := Occurs("serialization-compiler-plugin", base);
            var powerAssert := Occurs("power-assert-compiler-plugin", base);
            var atomicfu := Occurs("atomicfu-compiler-plugin", base);
            var metro := Occurs("metro-compiler", base);
            && (BuiltinFor(jar) == Some("serialization") <==> serialization)
            && (BuiltinFor(jar) == Some("power-assert") <==> powerAssert && !serialization)
            && (BuiltinFor(jar) == Some("atomicfu") <==> atomicfu && !powerAssert && !serialization)
            && (BuiltinFor(jar) == Some("metro") <==> metro && !atomicfu && !powerAssert && !serialization)
            && (BuiltinFor(jar) == None <==> !serialization && !powerAssert && !atomicfu && !metro)
  {
    hide Contains, Occurs, Basename;
    var base := Basename(jar);
    ContainsIsOccurs(base, "serialization-compiler-plugin");
    ContainsIsOccurs(base, "power-assert-compiler-plugin");
    ContainsIsOccurs(base, "atomicfu-compiler-plugin");
    ContainsIsOccurs(base, "metro-compiler");
    assert MAP[1..][1..] == MAP[2..] && MAP[2..][1..] == MAP[3..] && MAP[3..][1..] == [];
    FourNames();
  }

  lemma FourNames()
    ensures Distinct(["serialization", "power-assert", "atomicfu", "metro"])
  {
    assert "serialization"[0] == 's' && "power-assert"[0] == 'p' && "atomicfu"[0] == 'a' && "metro"[0] == 'm';
  }

  /** Rewrites and names stand in order of first appearance: more jars, or more rewrites,
      only ever add behind. */
  lemma {:induction false} FoundStay(found: seq<Rewrite>, jars: seq<string>)
    ensures found <= ConsiderAll(found, jars)
    decreases |jars|
  {
    hide BuiltinFor, Known;
    if jars == [] {
    } else {
      FoundStay(Consider(found, jars[0]), jars[1..]);
    }
  }

  lemma {:induction false} ConsiderConcat(found: seq<Rewrite>, a: seq<string>, b: seq<string>)
    ensures ConsiderAll(found, a + b) == ConsiderAll(ConsiderAll(found, a), b)
    decreases |a|
  {
    hide Consider;
    if a == [] {
      assert a + b == b;
    } else {
      assert (a + b)[0] == a[0] && (a + b)[1..] == a[1..] + b;
      ConsiderConcat(Consider(found, a[0]), a[1..], b);
    }
  }

  lemma {:induction false} NamesStay(few: seq<Rewrite>, all: seq<Rewrite>)
    requires few <= all
    ensures Names(few) <= Names(all)
    decreases |all|
  {
    if |few| == |all| {
      assert few == all;
    } else {
      NamesStay(few, all[..|all| - 1]);
    }
  }

  lemma JarsStay(few: seq<string>, more: seq<string>)
    ensures ConsiderAll([], few) <= ConsiderAll([], few + more)
  {
    hide ConsiderAll;
    ConsiderConcat([], few, more);
    FoundStay(ConsiderAll([], few), more);
  }

  /** The builtins of the jars requested first come first. */
  lemma BuiltinsKeepOrder(few: seq<string>, more: seq<string>)
    ensures ConsiderAll([], few) <= ConsiderAll([], few + more)
    ensures Names(ConsiderAll([], few)) <= Names(ConsiderAll([], few + more))
  {
    hide ConsiderAll, Names;
    JarsStay(few, more);
    NamesStay(ConsiderAll([], few), ConsiderAll([], few + more));
  }

  lemma {:induction false} PassthroughConcat(a: seq<string>, b: seq<string>)
    ensures PassthroughJars(a + b) == PassthroughJars(a) + PassthroughJars(b)
    decreases |a|
  {
    hide IsXplugin;
    if a == [] {
      assert a + b == b;
    } else {
      var head := if IsXplugin(a[0]) then [JarOf(a[0])] else [];
      calc {
        PassthroughJars(a + b);
        { assert (a + b)[0] == a[0] && (a + b)[1..] == a[1..] + b; }
        head + PassthroughJars(a[1..] + b);
        { PassthroughConcat(a[1..], b); }
        head + (PassthroughJars(a[1..]) + PassthroughJars(b));
        head + PassthroughJars(a[1..]) + PassthroughJars(b);
        PassthroughJars(a) + PassthroughJars(b);
      }
    }
  }

  /** So the builtins come in the order of the plugin classpath, and behind them in that of
      the flags passed through: more flags only ever add behind. */
  lemma BuiltinsInOrder(req: CompileRequest, more: seq<string>)
    ensures ConsiderAll([], req.compilerPluginClasspath) <= Detect(req)
    ensures Names(ConsiderAll([], req.compilerPluginClasspath)) <= Names(Detect(req))
    ensures var longer := req.(passthroughFlags := req.passthroughFlags + more);
            Detect(req) <= Detect(longer) && Names(Detect(req)) <= Names(Detect(longer))
  {
    hide ConsiderAll, Names, PassthroughJars;
    var jars, passed := req.compilerPluginClasspath, PassthroughJars(req.passthroughFlags);
    BuiltinsKeepOrder(jars, passed);
    PassthroughConcat(req.passthroughFlags, more);
    BuiltinsKeepOrder(jars + passed, PassthroughJars(more));
    assert jars + (passed + PassthroughJars(more)) == jars + passed + PassthroughJars(more);
  }

  // ------------------------------------------------------------------ the code

  /** `builtinFor` */
  method FindBuiltin(jar: string) returns (name: Option<string>)
    ensures name == BuiltinFor(jar)
  {
    hide Contains;
    var base := Basename(jar);
    for i := 0 to |MAP|
      invariant FirstMatch(MAP, base) == FirstMatch(MAP[i..], base)
    {
      assert MAP[i..][1..] == MAP[i + 1..];
      if Contains(base, MAP[i].0) {
        return Some(MAP[i].1);
      }
    }
    return None;
  }

  /** `detect`, the linked hash map as the list of its values in order. */
  method DetectRewrites(req: CompileRequest) returns (rewrites: seq<Rewrite>)
    ensures rewrites == Detect(req)
  {
    hide BuiltinFor, Requested;
    var jars := Requested(req);
    rewrites := [];
    assert jars[0..] == jars;
    for i := 0 to |jars|
      invariant Detect(req) == ConsiderAll(rewrites, jars[i..])
    {
      assert jars[i..][0] == jars[i] && jars[i..][1..] == jars[i + 1..];
      var name := FindBuiltin(jars[i]);
      if name.None? {
        continue;
      }
      if !Known(rewrites, jars[i]) {
        rewrites := rewrites + [Rewrite(jars[i], name.value)];
      }
    }
  }
}
