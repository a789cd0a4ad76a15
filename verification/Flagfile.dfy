/** `Flagfile.parse`: tokens of a flagfile into the typed request. */
module Flagfile {
  import opened Common

  predicate IsFlag(token: string) {
    StartsWith(token, "--")
  }

  type Flags = map<string, seq<string>>

  /** The map so far and the list that values are added to. */
  datatype Parsing = Parsing(flags: Flags, cur: Option<string>)

  const NOTHING := Parsing(map[], None)

  function Take(p: Parsing, token: string): Parsing {
    if IsFlag(token) then
      Parsing(if token in p.flags then p.flags else p.flags[token := []], Some(token))
    else
      match p.cur
      case Some(k) => if k in p.flags then p.(flags := p.flags[k := p.flags[k] + [token]]) else p
      case None => p
  }

  function TakeAll(p: Parsing, tokens: seq<string>): Parsing
    decreases |tokens|
  {
    if tokens == [] then p else TakeAll(Take(p, tokens[0]), tokens[1..])
  }

  function ParseFlags(tokens: seq<string>): Flags {
    TakeAll(NOTHING, tokens).flags
  }

  // --------------------------------------------------------- the typed request

  datatype CompileRequest = CompileRequest(
    output: Option<string>,
    abiJar: Option<string>,
    jdeps: Option<string>,
    srcjar: Option<string>,
    moduleName: Option<string>,
    targetLabel: Option<string>,
    sources: seq<string>,
    sourceJars: seq<string>,
    classpath: seq<string>,
    directDependencies: seq<string>,
    friendPaths: seq<string>,
    passthroughFlags: seq<string>,
    javacOpts: seq<string>,
    strictKotlinDeps: string,
    processors: seq<string>,
    processorPath: seq<string>,
    compilerPluginClasspath: seq<string>,
    compilerPluginOptions: seq<string>,
    stubsPluginClasspath: seq<string>,
    stubsPluginOptions: seq<string>,
    apiVersion: Option<string>,
    languageVersion: Option<string>,
    kaptSources: Option<string>,
    kaptClasses: Option<string>,
    kaptStubs: Option<string>,
    kspSources: Option<string>,
    kspClasses: Option<string>,
    processorOptions: seq<string>,
    jvmTarget: Option<string>)

  function List(flags: Flags, k: string): seq<string> {
    if k in flags then flags[k] else []
  }

  function First(flags: Flags, k: string): Option<string> {
    if List(flags, k) == [] then None else Some(List(flags, k)[0])
  }

  function OrElse(a: Option<string>, b: Option<string>): Option<string> {
    if a.Some? then a else b
  }

  function IfEmpty(a: seq<string>, b: seq<string>): seq<string> {
    if a == [] then b else a
  }

  /** The values of the options that begin with `-A`, that prefix removed. */
  function ProcessorArgs(opts: seq<string>): seq<string>
    decreases |opts|
  {
    if opts == [] then []
    else (if StartsWith(opts[0], "-A") then [opts[0][2..]] else []) + ProcessorArgs(opts[1..])
  }

  function Request(f: Flags): CompileRequest {
    CompileRequest(
      output := First(f, "--output"),
      abiJar := First(f, "--abi_jar"),
      jdeps := First(f, "--kotlin_output_jdeps"),
      srcjar := First(f, "--kotlin_output_srcjar"),
      moduleName := OrElse(First(f, "--kotlin_module_name"), First(f, "--module_name")),
      targetLabel := First(f, "--target_label"),
      sources := List(f, "--sources"),
      sourceJars := List(f, "--source_jars"),
      classpath := IfEmpty(List(f, "--classpath"), List(f, "--libraries")),
      directDependencies := List(f, "--direct_dependencies"),
      friendPaths := List(f, "--kotlin_friend_paths"),
      passthroughFlags := List(f, "--kotlin_passthrough_flags"),
      javacOpts := List(f, "--javacopts"),
      strictKotlinDeps := (var s := First(f, "--strict_kotlin_deps"); if s.Some? then s.value else "off"),
      processors := List(f, "--processors"),
      processorPath := IfEmpty(List(f, "--processorpath"), List(f, "--processor_classpath")),
      compilerPluginClasspath := List(f, "--compiler_plugin_classpath"),
      compilerPluginOptions := List(f, "--compiler_plugin_options"),
      stubsPluginClasspath := List(f, "--stubs_plugin_classpath"),
      stubsPluginOptions := List(f, "--stubs_plugin_options"),
      apiVersion := OrElse(First(f, "--kotlin_api_version"), First(f, "--api_version")),
      languageVersion := OrElse(First(f, "--kotlin_language_version"), First(f, "--language_version")),
      kaptSources := First(f, "--generated_java_srcjar"),
      kaptClasses := First(f, "--kapt_generated_class_jar"),
      kaptStubs := First(f, "--kapt_generated_stub_jar"),
      kspSources := First(f, "--generated_sources_output"),
      kspClasses := First(f, "--generated_classes_output"),
      processorOptions := List(f, "--ksp_options") + ProcessorArgs(List(f, "--javacopts")),
      jvmTarget := OrElse(First(f, "--kotlin_jvm_target"), First(f, "--jvm_target")))
  }

  function Parse(tokens: seq<string>): CompileRequest {
    Request(ParseFlags(tokens))
  }

  // ------------------------------------------------------------- homomorphism

  /** Pointwise concatenation of the lists under each flag. */
  function Merge(a: Flags, b: Flags): Flags {
    map k | k in a.Keys + b.Keys :: List(a, k) + List(b, k)
  }

  predicate Open(p: Parsing) {
    p.cur.Some? && p.cur.value in p.flags
  }

  lemma ValueMerged(m: Flags, f: Flags, k: string, token: string)
    requires k in f
    ensures Merge(m, f[k := f[k] + [token]]) == Merge(m, f)[k := Merge(m, f)[k] + [token]]
  {
    assert List(m, k) + (f[k] + [token]) == List(m, k) + f[k] + [token];
  }

  lemma FlagMerged(m: Flags, f: Flags, flag: string)
    requires flag !in f
    ensures Merge(m, f[flag := []]) == if flag in m then Merge(m, f) else Merge(m, f)[flag := []]
  {
    assert List(m, flag) + [] == List(m, flag);
  }

  lemma TakeMerged(m: Flags, p: Parsing, token: string)
    requires Open(p)
    ensures Open(Take(p, token))
    ensures Take(Parsing(Merge(m, p.flags), p.cur), token)
         == Parsing(Merge(m, Take(p, token).flags), Take(p, token).cur)
  {
    hide List;
    if !IsFlag(token) {
      ValueMerged(m, p.flags, p.cur.value, token);
    } else if token !in p.flags {
      FlagMerged(m, p.flags, token);
    }
  }

  lemma {:induction false} TakeAllMerged(m: Flags, p: Parsing, tokens: seq<string>)
    requires Open(p)
    ensures TakeAll(Parsing(Merge(m, p.flags), p.cur), tokens).flags == Merge(m, TakeAll(p, tokens).flags)
    decreases |tokens|
  {
    hide Take, Merge;
    if tokens == [] {
    } else {
      TakeMerged(m, p, tokens[0]);
      TakeAllMerged(m, Take(p, tokens[0]), tokens[1..]);
    }
  }

  lemma {:induction false} TakeAllConcat(p: Parsing, a: seq<string>, b: seq<string>)
    ensures TakeAll(p, a + b) == TakeAll(TakeAll(p, a), b)
    decreases |a|
  {
    hide Take;
    if a == [] {
      assert a + b == b;
    } else {
      assert (a + b)[0] == a[0] && (a + b)[1..] == a[1..] + b;
      TakeAllConcat(Take(p, a[0]), a[1..], b);
    }
  }

  /** Parsing is a homomorphism: tokens appended from a flag on contribute, under each
      flag, exactly what they contribute alone, after what was there. */
  lemma ParsingConcat(a: seq<string>, b: seq<string>)
    requires b != [] ==> IsFlag(b[0])
    ensures ParseFlags(a + b) == Merge(ParseFlags(a), ParseFlags(b))
  {
    hide TakeAll;
    var p := TakeAll(NOTHING, a);
    TakeAllConcat(NOTHING, a, b);
    if b == [] {
      MergeNothing(p);
    } else {
      var q := Parsing(map[b[0] := []], Some(b[0]));
      FirstFlag(p, b);
      FirstFlag(NOTHING, b);
      assert Parsing(Merge(p.flags, q.flags), q.cur) == Take(p, b[0]) by { TakeFlag(p, b[0]); }
      assert q == Take(NOTHING, b[0]);
      TakeAllMerged(p.flags, q, b[1..]);
    }
  }

  lemma FirstFlag(p: Parsing, b: seq<string>)
    requires b != []
    ensures TakeAll(p, b) == TakeAll(Take(p, b[0]), b[1..])
  {
  }

  lemma TakeFlag(p: Parsing, flag: string)
    requires IsFlag(flag)
    ensures Take(p, flag) == Parsing(Merge(p.flags, map[flag := []]), Some(flag))
  {
    var merged := Merge(p.flags, map[flag := []]);
    assert forall k :: k in merged ==> List(p.flags, k) + [] == List(p.flags, k);
    assert merged == Take(p, flag).flags;
  }

  lemma MergeNothing(p: Parsing)
    ensures TakeAll(p, []).flags == Merge(p.flags, TakeAll(NOTHING, []).flags)
  {
    var merged := Merge(p.flags, map[]);
    assert forall k :: k in merged ==> List(p.flags, k) + [] == List(p.flags, k);
    assert merged == p.flags;
  }

  // ----------------------------------------------------------- nothing is lost

  /** An independent reading: the values whose nearest flag before them is `k`, in order. */
  function Collect(tokens: seq<string>, cur: Option<string>, k: string): seq<string>
    decreases |tokens|
  {
    if tokens == [] then []
    else if IsFlag(tokens[0]) then Collect(tokens[1..], Some(tokens[0]), k)
    else (if cur == Some(k) then [tokens[0]] else []) + Collect(tokens[1..], cur, k)
  }

  lemma {:induction false} TakeAllCollects(p: Parsing, tokens: seq<string>, k: string)
    requires p.cur.Some? ==> p.cur.value in p.flags
    ensures List(TakeAll(p, tokens).flags, k) == List(p.flags, k) + Collect(tokens, p.cur, k)
    ensures k in TakeAll(p, tokens).flags <==> k in p.flags || (IsFlag(k) && k in tokens)
    decreases |tokens|
  {
    if tokens == [] {
    } else {
      hide IsFlag, Take, List;
      TakeOne(p, tokens[0], k);
      TakeAllCollects(Take(p, tokens[0]), tokens[1..], k);
      assert k in tokens <==> k == tokens[0] || k in tokens[1..];
      if !IsFlag(tokens[0]) && p.cur == Some(k) {
        assert List(p.flags, k) + [tokens[0]] + Collect(tokens[1..], p.cur, k)
            == List(p.flags, k) + ([tokens[0]] + Collect(tokens[1..], p.cur, k));
      }
    }
  }

  lemma TakeOne(p: Parsing, token: string, k: string)
    requires p.cur.Some? ==> p.cur.value in p.flags
    ensures var next := Take(p, token);
            && next.cur == (if IsFlag(token) then Some(token) else p.cur)
            && (next.cur.Some? ==> next.cur.value in next.flags)
            && List(next.flags, k) == List(p.flags, k) + (if !IsFlag(token) && p.cur == Some(k) then [token] else [])
            && (k in next.flags <==> k in p.flags || (IsFlag(k) && k == token))
  {
    hide IsFlag;
  }

  /** The keys are exactly the flags given, and under each stand exactly the values that
      follow it, in order. */
  lemma ParsingCollects(tokens: seq<string>, k: string)
    ensures k in ParseFlags(tokens) <==> IsFlag(k) && k in tokens
    ensures List(ParseFlags(tokens), k) == Collect(tokens, None, k)
  {
    TakeAllCollects(NOTHING, tokens, k);
    assert [] + Collect(tokens, None, k) == Collect(tokens, None, k);
  }

  /** The flag in force after some tokens. */
  function Last(tokens: seq<string>, cur: Option<string>): Option<string>
    decreases |tokens|
  {
    if tokens == [] then cur else Last(tokens[1..], if IsFlag(tokens[0]) then Some(tokens[0]) else cur)
  }

  lemma {:induction false} CollectConcat(a: seq<string>, b: seq<string>, cur: Option<string>, k: string)
    ensures Collect(a + b, cur, k) == Collect(a, cur, k) + Collect(b, Last(a, cur), k)
    decreases |a|
  {
    if a == [] {
      assert a + b == b;
    } else {
      assert (a + b)[0] == a[0] && (a + b)[1..] == a[1..] + b;
      CollectConcat(a[1..], b, if IsFlag(a[0]) then Some(a[0]) else cur, k);
    }
  }

  /** A value behind some flag is kept, under that flag alone, between the values before
      it and the values after it. */
  lemma ValueKeepsItsPlace(a: seq<string>, v: string, b: seq<string>, k: string)
    requires !IsFlag(v) && Last(a, None).Some?
    ensures var flag := Last(a, None).value;
            List(ParseFlags(a + [v] + b), k) ==
              List(ParseFlags(a), k) + (if k == flag then [v] else []) + Collect(b, Some(flag), k)
  {
    hide Collect, ParseFlags, List, Last;
    var cur := Last(a, None);
    var here, later := Collect([v], cur, k), Collect(b, cur, k);
    CollectOne(v, cur, k);
    ParsingCollects(a + [v] + b, k);
    ParsingCollects(a, k);
    assert a + [v] + b == a + ([v] + b);
    calc {
      Collect(a + ([v] + b), None, k);
      { CollectConcat(a, [v] + b, None, k); }
      Collect(a, None, k) + Collect([v] + b, cur, k);
      { CollectConcat([v], b, cur, k); }
      Collect(a, None, k) + (here + later);
      Collect(a, None, k) + here + later;
    }
  }

  lemma CollectOne(v: string, cur: Option<string>, k: string)
    requires !IsFlag(v)
    ensures Collect([v], cur, k) == if cur == Some(k) then [v] else []
    ensures Last([v], cur) == cur
  {
    assert Collect([v][1..], cur, k) == [] && Last([v][1..], cur) == cur;
  }

  /** No value is itself a flag. */
  lemma {:induction false} CollectedAreValues(tokens: seq<string>, cur: Option<string>, k: string)
    ensures forall v :: v in Collect(tokens, cur, k) ==> !IsFlag(v)
    decreases |tokens|
  {
    if tokens == [] {
    } else {
      CollectedAreValues(tokens[1..], if IsFlag(tokens[0]) then Some(tokens[0]) else cur, k);
    }
  }

  lemma ListedAreValues(tokens: seq<string>, k: string)
    ensures forall v :: v in List(ParseFlags(tokens), k) ==> !IsFlag(v)
    ensures First(ParseFlags(tokens), k).Some? ==> !IsFlag(First(ParseFlags(tokens), k).value)
  {
    hide ParseFlags;
    ParsingCollects(tokens, k);
    CollectedAreValues(tokens, None, k);
  }

  lemma ParseTwoFlags(first: string, v: string, second: string, u: string)
    requires IsFlag(first) && !IsFlag(v) && IsFlag(second) && !IsFlag(u) && first != second
    ensures ParseFlags([first, v, second, u]) == map[first := [v], second := [u]]
  {
    hide IsFlag;
    var one := Parsing(map[first := []], Some(first));
    var two := Parsing(map[first := [v]], Some(first));
    var three := Parsing(map[first := [v], second := []], Some(second));
    var four := Parsing(map[first := [v], second := [u]], Some(second));
    assert Take(NOTHING, first) == one;
    assert [] + [v] == [v] && [] + [u] == [u];
    assert Take(one, v) == two && Take(two, second) == three && Take(three, u) == four;
    assert [first, v, second, u][1..] == [v, second, u] && [v, second, u][1..] == [second, u];
    assert [second, u][1..] == [u] && [u][1..] == [];
    assert TakeAll(three, [u]) == four;
    assert TakeAll(two, [second, u]) == four;
    assert TakeAll(one, [v, second, u]) == four;
  }

  // ------------------------------------------------------- which flag says what

  /** The values given to a flag anywhere in the flagfile, in order. */
  function Given(tokens: seq<string>, flag: string): seq<string> {
    Collect(tokens, None, flag)
  }

  predicate IsFirstOf(v: Option<string>, values: seq<string>) {
    if values == [] then v == None else v == Some(values[0])
  }

  /** The first value of `flag`, or when it has none, of `other`. */
  predicate IsFirstOfTwo(v: Option<string>, values: seq<string>, others: seq<string>) {
    IsFirstOf(v, if values == [] then others else values)
  }

  lemma FirstIsGiven(tokens: seq<string>, flag: string)
    ensures List(ParseFlags(tokens), flag) == Given(tokens, flag)
    ensures IsFirstOf(First(ParseFlags(tokens), flag), Given(tokens, flag))
  {
    ParsingCollects(tokens, flag);
  }

  /** Single values: the first one given to the flag of that name. */
  lemma SinglesAreGiven(tokens: seq<string>)
    ensures var req := Parse(tokens);
            && IsFirstOf(req.output, Given(tokens, "--output"))
            && IsFirstOf(req.abiJar, Given(tokens, "--abi_jar"))
            && IsFirstOf(req.jdeps, Given(tokens, "--kotlin_output_jdeps"))
            && IsFirstOf(req.srcjar, Given(tokens, "--kotlin_output_srcjar"))
            && IsFirstOf(req.targetLabel, Given(tokens, "--target_label"))
            && IsFirstOf(req.kaptSources, Given(tokens, "--generated_java_srcjar"))
            && IsFirstOf(req.kaptClasses, Given(tokens, "--kapt_generated_class_jar"))
            && IsFirstOf(req.kaptStubs, Given(tokens, "--kapt_generated_stub_jar"))
            && IsFirstOf(req.kspSources, Given(tokens, "--generated_sources_output"))
            && IsFirstOf(req.kspClasses, Given(tokens, "--generated_classes_output"))
  {
    hide ParseFlags, Given, First, List, ProcessorArgs;
    FirstIsGiven(tokens, "--output");
    FirstIsGiven(tokens, "--abi_jar");
    FirstIsGiven(tokens, "--kotlin_output_jdeps");
    FirstIsGiven(tokens, "--kotlin_output_srcjar");
    FirstIsGiven(tokens, "--target_label");
    FirstIsGiven(tokens, "--generated_java_srcjar");
    FirstIsGiven(tokens, "--kapt_generated_class_jar");
    FirstIsGiven(tokens, "--kapt_generated_stub_jar");
    FirstIsGiven(tokens, "--generated_sources_output");
    FirstIsGiven(tokens, "--generated_classes_output");
  }

  /** Values with a second flag, which counts only when the first has no value. */
  lemma AlternativesAreGiven(tokens: seq<string>)
    ensures var req := Parse(tokens);
            && IsFirstOfTwo(req.moduleName, Given(tokens, "--kotlin_module_name"), Given(tokens, "--module_name"))
            && IsFirstOfTwo(req.apiVersion, Given(tokens, "--kotlin_api_version"), Given(tokens, "--api_version"))
            && IsFirstOfTwo(req.languageVersion, Given(tokens, "--kotlin_language_version"),
                            Given(tokens, "--language_version"))
            && IsFirstOfTwo(req.jvmTarget, Given(tokens, "--kotlin_jvm_target"), Given(tokens, "--jvm_target"))
            && IsFirstOfTwo(Some(req.strictKotlinDeps), Given(tokens, "--strict_kotlin_deps"), ["off"])
            && req.classpath == (if Given(tokens, "--classpath") != [] then Given(tokens, "--classpath")
                                 else Given(tokens, "--libraries"))
            && req.processorPath == (if Given(tokens, "--processorpath") != [] then Given(tokens, "--processorpath")
                                     else Given(tokens, "--processor_classpath"))
  {
    hide ParseFlags, Given, First, List, ProcessorArgs;
    FirstIsGiven(tokens, "--kotlin_module_name");
    FirstIsGiven(tokens, "--module_name");
    FirstIsGiven(tokens, "--kotlin_api_version");
    FirstIsGiven(tokens, "--api_version");
    FirstIsGiven(tokens, "--kotlin_language_version");
    FirstIsGiven(tokens, "--language_version");
    FirstIsGiven(tokens, "--kotlin_jvm_target");
    FirstIsGiven(tokens, "--jvm_target");
    FirstIsGiven(tokens, "--strict_kotlin_deps");
    FirstIsGiven(tokens, "--classpath");
    FirstIsGiven(tokens, "--libraries");
    FirstIsGiven(tokens, "--processorpath");
    FirstIsGiven(tokens, "--processor_classpath");
  }

  /** Lists: every value given, in order. */
  lemma ListsAreGiven(tokens: seq<string>)
    ensures var req := Parse(tokens);
            && req.sources == Given(tokens, "--sources")
            && req.sourceJars == Given(tokens, "--source_jars")
            && req.directDependencies == Given(tokens, "--direct_dependencies")
            && req.friendPaths == Given(tokens, "--kotlin_friend_paths")
            && req.passthroughFlags == Given(tokens, "--kotlin_passthrough_flags")
            && req.javacOpts == Given(tokens, "--javacopts")
            && req.processors == Given(tokens, "--processors")
            && req.compilerPluginClasspath == Given(tokens, "--compiler_plugin_classpath")
            && req.compilerPluginOptions == Given(tokens, "--compiler_plugin_options")
            && req.stubsPluginClasspath == Given(tokens, "--stubs_plugin_classpath")
            && req.stubsPluginOptions == Given(tokens, "--stubs_plugin_options")
            && req.processorOptions == Given(tokens, "--ksp_options") + ProcessorArgs(Given(tokens, "--javacopts"))
  {
    hide ParseFlags, Given, First, List, ProcessorArgs;
    FirstIsGiven(tokens, "--sources");
    FirstIsGiven(tokens, "--source_jars");
    FirstIsGiven(tokens, "--direct_dependencies");
    FirstIsGiven(tokens, "--kotlin_friend_paths");
    FirstIsGiven(tokens, "--kotlin_passthrough_flags");
    FirstIsGiven(tokens, "--javacopts");
    FirstIsGiven(tokens, "--processors");
    FirstIsGiven(tokens, "--compiler_plugin_classpath");
    FirstIsGiven(tokens, "--compiler_plugin_options");
    FirstIsGiven(tokens, "--stubs_plugin_classpath");
    FirstIsGiven(tokens, "--stubs_plugin_options");
    FirstIsGiven(tokens, "--ksp_options");
  }

  /** Of the Java compiler options those that begin `-A` are passed on without it, each in
      its place, and no other. */
  lemma {:induction false} ProcessorArgsInPlace(a: seq<string>, opt: string, b: seq<string>)
    ensures ProcessorArgs(a + [opt] + b) ==
            ProcessorArgs(a)
            + (if |opt| >= 2 && opt[0] == '-' && opt[1] == 'A' then [opt[2..]] else [])
            + ProcessorArgs(b)
    decreases |a|
  {
    if a == [] {
      assert [] + [opt] + b == [opt] + b;
      assert ([opt] + b)[1..] == b;
      assert StartsWith(opt, "-A") <==> |opt| >= 2 && opt[0] == '-' && opt[1] == 'A';
    } else {
      hide StartsWith;
      var own := if |opt| >= 2 && opt[0] == '-' && opt[1] == 'A' then [opt[2..]] else [];
      var head := if StartsWith(a[0], "-A") then [a[0][2..]] else [];
      var whole := a + [opt] + b;
      assert whole[0] == a[0] && whole[1..] == a[1..] + [opt] + b;
      calc {
        ProcessorArgs(whole);
        head + ProcessorArgs(a[1..] + [opt] + b);
        { ProcessorArgsInPlace(a[1..], opt, b); }
        head + (ProcessorArgs(a[1..]) + own + ProcessorArgs(b));
        head + ProcessorArgs(a[1..]) + own + ProcessorArgs(b);
        ProcessorArgs(a) + own + ProcessorArgs(b);
      }
    }
  }

  // ------------------------------------------------------------------ the code

  /** `Flagfile.parse` */
  method ParseTokens(tokens: seq<string>) returns (r: CompileRequest)
    ensures r == Parse(tokens)
  {
    var flags: Flags, cur: Option<string> := map[], None;
    assert tokens[0..] == tokens;
    for i := 0 to |tokens|
      invariant cur.Some? ==> cur.value in flags
      invariant ParseFlags(tokens) == TakeAll(Parsing(flags, cur), tokens[i..]).flags
    {
      var t := tokens[i];
      assert tokens[i..][0] == t && tokens[i..][1..] == tokens[i + 1..];
      if IsFlag(t) {
        if t !in flags {
          flags := flags[t := []];
        }
        cur := Some(t);
      } else if cur.Some? {
        flags := flags[cur.value := flags[cur.value] + [t]];
      }
    }
    r := Request(flags);
  }
}
