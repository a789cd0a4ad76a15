/**
 * `ElideCompile`: from a typed request to the commands to execute. Whether the bundled
 * ABI plugin exists, and where, is a parameter.
 */
module ElideCompile {
  import opened BuiltinPlugins
  import opened Common
  import opened Flagfile

  /** `File.pathSeparator` */
  const PATH_SEPARATOR := ':'

  const ABI_GEN := "org.jetbrains.kotlin.jvm.abi"

  /** The arguments of `plan` beside the request, and what `findJvmAbiGenJar` finds. */
  datatype Setting = Setting(
    elide: string, extraSources: seq<string>, usedDeps: Option<string>, native: bool, abiGen: Option<string>)

  type Command = seq<string>

  predicate Processing(req: CompileRequest) {
    req.kaptSources.Some? || req.kspSources.Some?
  }

  /** A flag with its value, when there is one. */
  function Opt(flag: string, value: Option<string>): seq<string> {
    if value.Some? then [flag, value.value] else []
  }

  function Joined(flag: string, values: seq<string>, separator: char): seq<string> {
    if values == [] then [] else [flag, Join(values, separator)]
  }

  /** The flag before each of the values. */
  function Each(flag: string, values: seq<string>): seq<string> {
    if values == [] then [] else [flag, values[0]] + Each(flag, values[1..])
  }

  function Prefixed(prefix: string, value: Option<string>): seq<string> {
    if value.Some? then [prefix + value.value] else []
  }

  function NativeOptions(req: CompileRequest): seq<string> {
    (if req.kspSources.Some? then
       Opt("--ksp-sources", req.kspSources) + Opt("--ksp-classes", req.kspClasses)
     else if req.kaptSources.Some? then
       Opt("--kapt-sources", req.kaptSources) + Opt("--kapt-classes", req.kaptClasses)
       + Opt("--kapt-stubs", req.kaptStubs) + Joined("--processors", req.processors, ',')
     else
       Opt("--jdeps", req.jdeps) + Prefixed("--target-label=", req.targetLabel))
    + (if Processing(req) then
         Joined("--processorpath", req.processorPath, PATH_SEPARATOR)
         + Each("--processor-option", req.processorOptions)
       else [])
  }

  function PluginsOption(names: seq<string>): seq<string> {
    if names == [] then [] else ["--plugins=" + Join(names, ',')]
  }

  /** Everything before the separator. */
  function Before(req: CompileRequest, st: Setting): seq<string> {
    [st.elide, "kotlinc"] + (if st.native then NativeOptions(req) else [])
    + Opt("--report-used-deps", st.usedDeps) + PluginsOption(Names(Detect(req)))
  }

  function Outputs(req: CompileRequest, st: Setting): seq<string> {
    (if st.native && !Processing(req) then Opt("--emit-abi", req.abiJar) else [])
    + (if !Processing(req) then Opt("-d", req.output) else [])
    + Joined("-classpath", req.classpath, PATH_SEPARATOR)
    + Opt("-module-name", req.moduleName)
    + (if req.friendPaths == [] then [] else ["-Xfriend-paths=" + Join(req.friendPaths, ',')])
  }

  predicate WantsAbiGen(req: CompileRequest, st: Setting) {
    req.abiJar.Some? && !st.native
  }

  function AbiPlugin(req: CompileRequest, st: Setting): seq<string> {
    if WantsAbiGen(req, st) && st.abiGen.Some? then
      [XPLUGIN + st.abiGen.value, "-P", "plugin:" + ABI_GEN + ":outputDir=" + req.abiJar.value]
    else []
  }

  /** The `-Xplugin` flag of a jar on the plugin classpath, unless that is rewritten or
      already passed through. */
  function ClasspathPlugin(jar: string, rewrites: seq<Rewrite>, passthrough: seq<string>): seq<string> {
    if Known(rewrites, jar) || XPLUGIN + jar in passthrough then [] else [XPLUGIN + jar]
  }

  function ClasspathPlugins(jars: seq<string>, rewrites: seq<Rewrite>, passthrough: seq<string>): seq<string>
    decreases |jars|
  {
    if jars == [] then []
    else ClasspathPlugin(jars[0], rewrites, passthrough) + ClasspathPlugins(jars[1..], rewrites, passthrough)
  }

  function PluginOptions(opts: seq<string>): seq<string>
    decreases |opts|
  {
    if opts == [] then [] else ["-P", "plugin:" + opts[0]] + PluginOptions(opts[1..])
  }

  function Versions(req: CompileRequest): seq<string> {
    Opt("-jvm-target", req.jvmTarget) + Opt("-api-version", req.apiVersion)
    + Opt("-language-version", req.languageVersion)
  }

  function Unrewritten(flags: seq<string>): seq<string>
    decreases |flags|
  {
    if flags == [] then []
    else (if IsRewrittenXplugin(flags[0]) then [] else [flags[0]]) + Unrewritten(flags[1..])
  }

  /** Everything behind the separator. */
  function Behind(req: CompileRequest, st: Setting): seq<string> {
    Outputs(req, st) + AbiPlugin(req, st)
    + ClasspathPlugins(req.compilerPluginClasspath, Detect(req), req.passthroughFlags)
    + PluginOptions(req.compilerPluginOptions) + Versions(req)
    + Unrewritten(req.passthroughFlags) + req.sources + st.extraSources
  }

  function Kotlinc(req: CompileRequest, st: Setting): Command {
    Before(req, st) + ["--"] + Behind(req, st)
  }

  function SrcJar(req: CompileRequest, st: Setting): seq<Command> {
    if req.srcjar.Some? && !Processing(req) then
      [[st.elide, "jar", "--", "--create", "--date=1980-01-01T00:00:02Z", "--file", req.srcjar.value] + req.sources]
    else []
  }

  /** Whether `plan` raises: an output is required, or an ABI plugin that is not there. */
  predicate Refused(req: CompileRequest, st: Setting) {
    (!Processing(req) && req.output.None?) || (WantsAbiGen(req, st) && st.abiGen.None?)
  }

  /** `plan`; `None` when it raises. */
  function Plan(req: CompileRequest, st: Setting): Option<seq<Command>> {
    if Refused(req, st) then None else Some([Kotlinc(req, st)] + SrcJar(req, st))
  }

  // ------------------------------------------------------------ the separator

  predicate NoBare(s: seq<string>) {
    "--" !in s
  }

  predicate Value(v: Option<string>) {
    v.Some? ==> !IsFlag(v.value)
  }

  predicate Values(vs: seq<string>) {
    forall v :: v in vs ==> !IsFlag(v)
  }

  lemma {:induction false} JoinIsNotBare(parts: seq<string>, separator: char)
    requires separator != '-' && Values(parts)
    ensures Join(parts, separator) != "--"
  {
    if |parts| > 1 {
      var joined := parts[0] + [separator] + Join(parts[1..], separator);
      assert joined[|parts[0]|] == separator;
    } else if |parts| == 1 {
      assert IsFlag("--");
    }
  }

  lemma {:induction false} EachIsBareOnlyByValue(flag: string, values: seq<string>)
    requires flag != "--"
    ensures "--" in Each(flag, values) <==> "--" in values
  {
    if values == [] {
    } else {
      EachIsBareOnlyByValue(flag, values[1..]);
      assert "--" in values <==> values[0] == "--" || "--" in values[1..];
    }
  }

  lemma OptIsNotBare(flag: string, v: Option<string>)
    requires flag != "--" && Value(v)
    ensures NoBare(Opt(flag, v))
  {
    assert IsFlag("--");
  }

  /** The values that stand before the separator are values of the flagfile. */
  predicate OptionValues(req: CompileRequest) {
    && Value(req.kspSources) && Value(req.kspClasses)
    && Value(req.kaptSources) && Value(req.kaptClasses) && Value(req.kaptStubs)
    && Value(req.jdeps) && Values(req.processors) && Values(req.processorPath)
  }

  lemma NativeOptionsAreBareOnlyByProcessor(req: CompileRequest)
    requires OptionValues(req)
    ensures "--" in NativeOptions(req) <==> Processing(req) && "--" in req.processorOptions
  {
    hide Opt, Join, Each;
    OptIsNotBare("--ksp-sources", req.kspSources);
    OptIsNotBare("--ksp-classes", req.kspClasses);
    OptIsNotBare("--kapt-sources", req.kaptSources);
    OptIsNotBare("--kapt-classes", req.kaptClasses);
    OptIsNotBare("--kapt-stubs", req.kaptStubs);
    OptIsNotBare("--jdeps", req.jdeps);
    JoinIsNotBare(req.processors, ',');
    JoinIsNotBare(req.processorPath, PATH_SEPARATOR);
    EachIsBareOnlyByValue("--processor-option", req.processorOptions);
    LabelIsNotBare(req.targetLabel);
  }

  lemma LabelIsNotBare(target: Option<string>)
    ensures NoBare(Prefixed("--target-label=", target))
  {
    if target.Some? {
      assert |"--target-label=" + target.value| > 2;
    }
  }

  lemma BeforeIsBareOnlyByProcessor(req: CompileRequest, st: Setting)
    requires OptionValues(req) && st.elide != "--" && Value(st.usedDeps)
    ensures "--" in Before(req, st) <==> st.native && Processing(req) && "--" in req.processorOptions
  {
    hide NativeOptions, Opt, Join, Processing, Names, Detect, OptionValues;
    NativeOptionsAreBareOnlyByProcessor(req);
    OptIsNotBare("--report-used-deps", st.usedDeps);
    var names := Names(Detect(req));
    assert NoBare(PluginsOption(names)) by { PluginsIsNotBare(names); }
  }

  lemma PluginsIsNotBare(names: seq<string>)
    ensures NoBare(PluginsOption(names))
  {
    if names != [] {
      assert |"--plugins=" + Join(names, ',')| > 2;
    }
  }

  lemma ParsedOptionValues(tokens: seq<string>)
    ensures OptionValues(Parse(tokens))
  {
    hide ParseFlags, IsFlag, List, First, ProcessorArgs;
    ListedAreValues(tokens, "--generated_sources_output");
    ListedAreValues(tokens, "--generated_classes_output");
    ListedAreValues(tokens, "--generated_java_srcjar");
    ListedAreValues(tokens, "--kapt_generated_class_jar");
    ListedAreValues(tokens, "--kapt_generated_stub_jar");
    ListedAreValues(tokens, "--kotlin_output_jdeps");
    ListedAreValues(tokens, "--processors");
    ListedAreValues(tokens, "--processorpath");
    ListedAreValues(tokens, "--processor_classpath");
  }

  /** For every flagfile the first bare `--` of the compile command is the separator, with
      all Elide options before it and all compiler arguments behind it, exactly unless a
      native processing request carries a processor option `--` (as `-A--` does). */
  lemma SeparatorComesFirst(tokens: seq<string>, st: Setting)
    requires st.elide != "--" && Value(st.usedDeps)
    ensures var req := Parse(tokens);
            IndexOf(Kotlinc(req, st), "--") == |Before(req, st)|
            <==> !(st.native && Processing(req) && "--" in req.processorOptions)
  {
    hide Parse, Before, Behind, OptionValues, Processing;
    var req := Parse(tokens);
    ParsedOptionValues(tokens);
    BeforeIsBareOnlyByProcessor(req, st);
    var kt, k := Kotlinc(req, st), |Before(req, st)|;
    assert kt[k] == "--" && kt[..k] == Before(req, st);
    if "--" !in Before(req, st) {
      IndexOfIs(kt, "--", k);
    }
  }

  /** The exception is real: a KSP request whose Java compiler options hold `-A--`. */
  lemma ProcessorOptionComesFirst(st: Setting)
    requires st.native && st.elide != "--" && Value(st.usedDeps)
    ensures var req := Parse(["--generated_sources_output", "x", "--javacopts", "-A--"]);
            0 <= IndexOf(Kotlinc(req, st), "--") < |Before(req, st)|
  {
    hide Before, Behind;
    var tokens := ["--generated_sources_output", "x", "--javacopts", "-A--"];
    var req := Parse(tokens);
    KspWithBareOption();
    SeparatorComesFirst(tokens, st);
    assert Kotlinc(req, st)[|Before(req, st)|] == "--";
  }

  lemma KspWithBareOption()
    ensures var req := Parse(["--generated_sources_output", "x", "--javacopts", "-A--"]);
            Processing(req) && "--" in req.processorOptions
  {
    hide IsFlag, ParseFlags;
    var first, second := "--generated_sources_output", "--javacopts";
    FlagsApart();
    assert first[2] != second[2];
    ParseTwoFlags(first, "x", second, "-A--");
    BareOption();
  }

  lemma BareOption()
    ensures ProcessorArgs(["-A--"]) == ["--"]
  {
    var opts := ["-A--"];
    assert opts[0][..2] == "-A" && opts[0][2..] == "--";
    assert opts[1..] == [] && ProcessorArgs([]) == [];
  }

  lemma FlagsApart()
    ensures IsFlag("--generated_sources_output") && IsFlag("--javacopts") && !IsFlag("x") && !IsFlag("-A--")
  {
    assert "-A--"[1] == 'A' && "--"[1] == '-';
  }

  // -------------------------------------------------------------- the plugins

  /** No token that could be taken for a plugin flag. */
  predicate Plain(s: seq<string>) {
    forall t :: t in s ==> !IsXplugin(t)
  }

  predicate PlainValue(v: Option<string>) {
    v.Some? ==> !IsXplugin(v.value)
  }

  /** No value that a request passes on as a token of its own looks like a plugin flag. */
  predicate PlainValues(req: CompileRequest, st: Setting) {
    && !IsXplugin(st.elide) && PlainValue(st.usedDeps) && Plain(st.extraSources) && Plain(req.sources)
    && PlainValue(req.kspSources) && PlainValue(req.kspClasses)
    && PlainValue(req.kaptSources) && PlainValue(req.kaptClasses) && PlainValue(req.kaptStubs)
    && PlainValue(req.jdeps) && Plain(req.processors) && Plain(req.processorPath)
    && Plain(req.processorOptions) && PlainValue(req.abiJar) && PlainValue(req.output)
    && Plain(req.classpath) && PlainValue(req.moduleName)
    && PlainValue(req.jvmTarget) && PlainValue(req.apiVersion) && PlainValue(req.languageVersion)
  }

  /** A prefix without a certain character ends before the first one. */
  lemma {:induction false} PrefixStopsAt(a: string, c: char, rest: string, p: string)
    requires c !in p && p <= a + [c] + rest
    ensures p <= a
  {
    if p == "" {
    } else {
      assert p[0] in p;
      if a != "" {
        assert (a + [c] + rest)[1..] == a[1..] + [c] + rest;
        PrefixStopsAt(a[1..], c, rest, p[1..]);
        assert p == [p[0]] + p[1..] && a == [a[0]] + a[1..];
      }
    }
  }

  lemma JoinIsPlain(parts: seq<string>, separator: char)
    requires separator !in XPLUGIN && Plain(parts)
    ensures !IsXplugin(Join(parts, separator))
  {
    if parts != [] {
      assert parts[0] in parts;
      if |parts| > 1 && IsXplugin(Join(parts, separator)) {
        PrefixStopsAt(parts[0], separator, Join(parts[1..], separator), XPLUGIN);
      }
    }
  }

  /** A token whose second character is not an `X` is no plugin flag. */
  predicate OtherFlag(flag: string) {
    |flag| >= 2 && flag[1] != 'X'
  }

  lemma OtherFlagIsPlain(flag: string)
    requires OtherFlag(flag)
    ensures !IsXplugin(flag)
  {
    assert XPLUGIN[1] == 'X';
  }

  lemma JoinedIsPlain(flag: string, parts: seq<string>, separator: char)
    requires separator !in XPLUGIN && Plain(parts) && OtherFlag(flag)
    ensures Plain(Joined(flag, parts, separator))
  {
    OtherFlagIsPlain(flag);
    JoinIsPlain(parts, separator);
  }

  lemma {:induction false} EachIsPlain(flag: string, values: seq<string>)
    requires Plain(values) && OtherFlag(flag)
    ensures Plain(Each(flag, values))
  {
    OtherFlagIsPlain(flag);
    if values == [] {
    } else {
      EachIsPlain(flag, values[1..]);
      assert values[0] in values;
    }
  }

  lemma OptIsPlain(flag: string, v: Option<string>)
    requires PlainValue(v) && OtherFlag(flag)
    ensures Plain(Opt(flag, v))
  {
    OtherFlagIsPlain(flag);
  }

  lemma PrefixedIsPlain(prefix: string, v: Option<string>)
    requires OtherFlag(prefix)
    ensures Plain(Prefixed(prefix, v))
  {
    if v.Some? {
      OtherFlagIsPlain(prefix + v.value);
    }
  }

  lemma NativeOptionsArePlain(req: CompileRequest, st: Setting)
    requires PlainValues(req, st)
    ensures Plain(NativeOptions(req))
  {
    hide Opt, Joined, Each, Prefixed, IsXplugin;
    OptIsPlain("--ksp-sources", req.kspSources);
    OptIsPlain("--ksp-classes", req.kspClasses);
    OptIsPlain("--kapt-sources", req.kaptSources);
    OptIsPlain("--kapt-classes", req.kaptClasses);
    OptIsPlain("--kapt-stubs", req.kaptStubs);
    OptIsPlain("--jdeps", req.jdeps);
    JoinedIsPlain("--processors", req.processors, ',');
    JoinedIsPlain("--processorpath", req.processorPath, PATH_SEPARATOR);
    EachIsPlain("--processor-option", req.processorOptions);
    PrefixedIsPlain("--target-label=", req.targetLabel);
  }

  lemma BeforeIsPlain(req: CompileRequest, st: Setting)
    requires PlainValues(req, st)
    ensures Plain(Before(req, st) + ["--"])
  {
    hide NativeOptions, Opt, PluginsOption, Names, Detect, IsXplugin;
    NativeOptionsArePlain(req, st);
    OptIsPlain("--report-used-deps", st.usedDeps);
    OtherFlagIsPlain("kotlinc");
    OtherFlagIsPlain("--");
    PluginsOptionIsPlain(Names(Detect(req)));
  }

  lemma PluginsOptionIsPlain(names: seq<string>)
    ensures Plain(PluginsOption(names))
  {
    OtherFlagIsPlain("--plugins=" + Join(names, ','));
  }

  lemma OutputsArePlain(req: CompileRequest, st: Setting)
    requires PlainValues(req, st)
    ensures Plain(Outputs(req, st))
  {
    hide Opt, Joined, Join, Processing, IsXplugin;
    OptIsPlain("--emit-abi", req.abiJar);
    OptIsPlain("-d", req.output);
    JoinedIsPlain("-classpath", req.classpath, PATH_SEPARATOR);
    OptIsPlain("-module-name", req.moduleName);
    FriendPathsArePlain(Join(req.friendPaths, ','));
  }

  lemma FriendPathsArePlain(joined: string)
    ensures !IsXplugin("-Xfriend-paths=" + joined)
  {
    assert XPLUGIN[2] == 'p' && ("-Xfriend-paths=" + joined)[2] == 'f';
  }

  lemma VersionsArePlain(req: CompileRequest, st: Setting)
    requires PlainValues(req, st)
    ensures Plain(Versions(req))
  {
    hide Opt, IsXplugin;
    OptIsPlain("-jvm-target", req.jvmTarget);
    OptIsPlain("-api-version", req.apiVersion);
    OptIsPlain("-language-version", req.languageVersion);
  }

  lemma {:induction false} PluginOptionsArePlain(opts: seq<string>)
    ensures Plain(PluginOptions(opts))
    decreases |opts|
  {
    if opts == [] {
    } else {
      PluginOptionsArePlain(opts[1..]);
      OtherFlagIsPlain("-P");
      OtherFlagIsPlain("plugin:" + opts[0]);
    }
  }

  lemma XpluginInjective(a: string, b: string)
    ensures XPLUGIN + a == XPLUGIN + b <==> a == b
    ensures IsXplugin(XPLUGIN + a) && JarOf(XPLUGIN + a) == a
  {
    assert (XPLUGIN + a)[|XPLUGIN|..] == a && (XPLUGIN + b)[|XPLUGIN|..] == b;
  }

  lemma CountFirst(head: seq<string>, tail: seq<string>, x: string)
    ensures multiset(head + tail)[x] == multiset(head)[x] + multiset(tail)[x]
    ensures |head| == 1 ==> multiset(head)[x] == (if head[0] == x then 1 else 0)
  {
  }

  lemma CountHead(s: seq<string>, x: string)
    requires s != []
    ensures multiset(s)[x] == (if s[0] == x then 1 else 0) + multiset(s[1..])[x]
  {
    assert s == [s[0]] + s[1..];
    CountFirst([s[0]], s[1..], x);
  }

  lemma ClasspathPluginStep(jars: seq<string>, rewrites: seq<Rewrite>, passthrough: seq<string>, flag: string)
    requires jars != []
    ensures multiset(ClasspathPlugins(jars, rewrites, passthrough))[flag] ==
            (if XPLUGIN + jars[0] == flag && !Known(rewrites, jars[0]) && flag !in passthrough then 1 else 0)
            + multiset(ClasspathPlugins(jars[1..], rewrites, passthrough))[flag]
  {
    hide Known, XPLUGIN;
    var own := ClasspathPlugin(jars[0], rewrites, passthrough);
    CountFirst(own, ClasspathPlugins(jars[1..], rewrites, passthrough), flag);
  }

  /** How often a jar is loaded from the plugin classpath. */
  lemma {:induction false} ClasspathPluginCount(
    jars: seq<string>, rewrites: seq<Rewrite>, passthrough: seq<string>, jar: string)
    ensures multiset(ClasspathPlugins(jars, rewrites, passthrough))[XPLUGIN + jar] ==
            if Known(rewrites, jar) || XPLUGIN + jar in passthrough then 0 else multiset(jars)[jar]
    decreases |jars|
  {
    hide Known, XPLUGIN;
    if jars == [] {
    } else {
      ClasspathPluginCount(jars[1..], rewrites, passthrough, jar);
      ClasspathPluginStep(jars, rewrites, passthrough, XPLUGIN + jar);
      XpluginInjective(jars[0], jar);
      CountHead(jars, jar);
    }
  }

  lemma {:induction false} UnrewrittenCount(flags: seq<string>, jar: string)
    ensures multiset(Unrewritten(flags))[XPLUGIN + jar] ==
            if BuiltinFor(jar).Some? then 0 else multiset(flags)[XPLUGIN + jar]
    decreases |flags|
  {
    hide BuiltinFor;
    XpluginInjective(jar, jar);
    if flags == [] {
    } else {
      UnrewrittenCount(flags[1..], jar);
      assert flags == [flags[0]] + flags[1..];
    }
  }

  /** How often the command loads a jar with `-Xplugin`: never when Elide has it built in;
      else as often as it is passed through, or if it is not, as often as the plugin
      classpath lists it; and once more where it is the ABI plugin of legacy mode. */
  function Loads(req: CompileRequest, st: Setting, jar: string): nat {
    (if BuiltinFor(jar).Some? then 0
     else if XPLUGIN + jar in req.passthroughFlags then multiset(req.passthroughFlags)[XPLUGIN + jar]
     else multiset(req.compilerPluginClasspath)[jar])
    + (if WantsAbiGen(req, st) && st.abiGen == Some(jar) then 1 else 0)
  }

  lemma {:induction false} PassthroughJarsAre(flags: seq<string>, jar: string)
    ensures jar in PassthroughJars(flags) <==> XPLUGIN + jar in flags
    decreases |flags|
  {
    XpluginInjective(jar, jar);
    if flags == [] {
    } else {
      PassthroughJarsAre(flags[1..], jar);
      assert XPLUGIN + jar in flags <==> flags[0] == XPLUGIN + jar || XPLUGIN + jar in flags[1..];
      if IsXplugin(flags[0]) {
        assert flags[0] == XPLUGIN + JarOf(flags[0]);
        XpluginInjective(JarOf(flags[0]), jar);
      }
    }
  }

  lemma AbiPluginCount(req: CompileRequest, st: Setting, jar: string)
    ensures multiset(AbiPlugin(req, st))[XPLUGIN + jar] ==
            if WantsAbiGen(req, st) && st.abiGen == Some(jar) then 1 else 0
  {
    if WantsAbiGen(req, st) && st.abiGen.Some? {
      XpluginInjective(st.abiGen.value, jar);
      assert ("plugin:" + ABI_GEN + ":outputDir=" + req.abiJar.value)[0] == 'p';
      assert (XPLUGIN + jar)[0] == '-' && |XPLUGIN + jar| > 2;
    }
  }

  lemma NoneOfPlain(s: seq<string>, jar: string)
    requires Plain(s)
    ensures multiset(s)[XPLUGIN + jar] == 0
  {
    XpluginInjective(jar, jar);
    assert XPLUGIN + jar !in s;
  }

  lemma PluginFlagCount(req: CompileRequest, st: Setting, jar: string)
    requires PlainValues(req, st)
    ensures multiset(Kotlinc(req, st))[XPLUGIN + jar] == Loads(req, st, jar)
  {
    hide Before, Outputs, AbiPlugin, ClasspathPlugins, PluginOptions, Versions, Unrewritten, Detect, BuiltinFor,
         WantsAbiGen, Known, Plain;
    var flag := XPLUGIN + jar;
    BeforeIsPlain(req, st);
    NoneOfPlain(Before(req, st) + ["--"], jar);
    OutputsArePlain(req, st);
    NoneOfPlain(Outputs(req, st), jar);
    AbiPluginCount(req, st, jar);
    ClasspathPluginCount(req.compilerPluginClasspath, Detect(req), req.passthroughFlags, jar);
    PluginOptionsArePlain(req.compilerPluginOptions);
    NoneOfPlain(PluginOptions(req.compilerPluginOptions), jar);
    VersionsArePlain(req, st);
    NoneOfPlain(Versions(req), jar);
    UnrewrittenCount(req.passthroughFlags, jar);
    NoneOfPlain(req.sources, jar);
    NoneOfPlain(st.extraSources, jar);
    RewrittenOnlyIfRequested(req, jar);
  }

  /** A jar with a builtin that is on the plugin classpath is rewritten; one without is not. */
  lemma RewrittenOnlyIfRequested(req: CompileRequest, jar: string)
    ensures BuiltinFor(jar).None? ==> !Known(Detect(req), jar)
    ensures BuiltinFor(jar).Some? && jar in req.compilerPluginClasspath ==> Known(Detect(req), jar)
    ensures XPLUGIN + jar !in req.passthroughFlags ==> multiset(req.passthroughFlags)[XPLUGIN + jar] == 0
    ensures jar !in req.compilerPluginClasspath ==> multiset(req.compilerPluginClasspath)[jar] == 0
  {
    hide BuiltinFor, Detect, Known;
    DetectIsExact(req);
  }

  // ------------------------------------------------------ the plugins option

  predicate Enables(token: string) {
    StartsWith(token, "--plugins=")
  }

  /** The tokens that enable builtins, in order. */
  function Enabling(s: seq<string>): seq<string>
    decreases |s|
  {
    if s == [] then [] else (if Enables(s[0]) then [s[0]] else []) + Enabling(s[1..])
  }

  lemma {:induction false} EnablingConcat(a: seq<string>, b: seq<string>)
    ensures Enabling(a + b) == Enabling(a) + Enabling(b)
    decreases |a|
  {
    hide Enables;
    if a == [] {
      assert a + b == b;
    } else {
      var head := if Enables(a[0]) then [a[0]] else [];
      calc {
        Enabling(a + b);
        { assert (a + b)[0] == a[0] && (a + b)[1..] == a[1..] + b; }
        head + Enabling(a[1..] + b);
        { EnablingConcat(a[1..], b); }
        head + (Enabling(a[1..]) + Enabling(b));
        head + Enabling(a[1..]) + Enabling(b);
        Enabling(a) + Enabling(b);
      }
    }
  }

  predicate Inert(s: seq<string>) {
    forall t :: t in s ==> !Enables(t)
  }

  lemma {:induction false} InertEnablesNothing(s: seq<string>)
    requires Inert(s)
    ensures Enabling(s) == []
    decreases |s|
  {
    hide Enables;
    if s == [] {
    } else {
      assert s[0] in s;
      InertEnablesNothing(s[1..]);
    }
  }

  /** A token that does not begin with `--pl` enables nothing. */
  predicate OtherOption(flag: string) {
    |flag| >= 4 && (flag[0] != '-' || flag[1] != '-' || flag[2] != 'p' || flag[3] != 'l')
  }

  lemma StartOfEnabling(t: string)
    ensures Enables(t) ==> |t| >= 4 && IsFlag(t) && t[0] == '-' && t[1] == '-' && t[2] == 'p' && t[3] == 'l'
  {
    var p := "--plugins=";
    assert p[0] == '-' && p[1] == '-' && p[2] == 'p' && p[3] == 'l';
    assert p <= t ==> t[0] == p[0] && t[1] == p[1] && t[2] == p[2] && t[3] == p[3];
  }

  lemma OtherOptionIsInert(flag: string, more: string)
    requires OtherOption(flag)
    ensures !Enables(flag) && !Enables(flag + more)
  {
    StartOfEnabling(flag);
    StartOfEnabling(flag + more);
  }

  lemma ValueIsInert(v: string)
    requires !IsFlag(v)
    ensures !Enables(v)
  {
    StartOfEnabling(v);
  }

  lemma ValuesAreInert(vs: seq<string>)
    requires Values(vs)
    ensures Inert(vs)
  {
    hide IsFlag, Enables;
    forall v | v in vs
      ensures !Enables(v)
    {
      ValueIsInert(v);
    }
  }

  lemma ShortFlagsAreInert()
    ensures Inert(["-d", "-P", "--"])
  {
    assert |"--plugins="| == 10;
  }

  lemma OptIsInert(flag: string, v: Option<string>)
    requires (OtherOption(flag) || flag == "-d") && Value(v)
    ensures Inert(Opt(flag, v))
  {
    hide IsFlag, Enables, OtherOption;
    if v.Some? {
      ValueIsInert(v.value);
    }
    if OtherOption(flag) {
      OtherOptionIsInert(flag, "");
    } else {
      ShortFlagsAreInert();
      assert flag in ["-d", "-P", "--"];
    }
  }

  lemma JoinIsInert(parts: seq<string>, separator: char)
    requires separator != '-' && Values(parts)
    ensures !Enables(Join(parts, separator))
  {
    if parts != [] {
      var joined := Join(parts, separator);
      assert !IsFlag(parts[0]);
      if |parts| > 1 && IsFlag(joined) {
        assert joined == parts[0] + [separator] + Join(parts[1..], separator);
        PrefixStopsAt(parts[0], separator, Join(parts[1..], separator), "--");
      }
      assert !IsFlag(joined);
      ValueIsInert(joined);
    }
  }

  lemma JoinedIsInert(flag: string, parts: seq<string>, separator: char)
    requires separator != '-' && Values(parts) && OtherOption(flag)
    ensures Inert(Joined(flag, parts, separator))
  {
    hide Enables, Join, OtherOption;
    OtherOptionIsInert(flag, "");
    JoinIsInert(parts, separator);
  }

  lemma {:induction false} EachEnables(flag: string, values: seq<string>)
    requires OtherOption(flag)
    ensures Enabling(Each(flag, values)) == Enabling(values)
  {
    hide Enables, OtherOption;
    if values == [] {
    } else {
      OtherOptionIsInert(flag, "");
      EachEnables(flag, values[1..]);
      EnablingConcat([flag, values[0]], Each(flag, values[1..]));
      assert [flag, values[0]][1..] == [values[0]] && [values[0]][1..] == [];
    }
  }

  /** Beside the values of options, those that stand behind the separator. */
  predicate ArgumentValues(req: CompileRequest) {
    && Value(req.abiJar) && Value(req.output) && Values(req.classpath) && Value(req.moduleName)
    && Value(req.jvmTarget) && Value(req.apiVersion) && Value(req.languageVersion)
    && Values(req.passthroughFlags) && Values(req.sources)
  }

  lemma ParsedArgumentValues(tokens: seq<string>)
    ensures ArgumentValues(Parse(tokens))
  {
    hide ParseFlags, IsFlag, List, First, ProcessorArgs;
    ListedAreValues(tokens, "--abi_jar");
    ListedAreValues(tokens, "--output");
    ListedAreValues(tokens, "--classpath");
    ListedAreValues(tokens, "--libraries");
    ListedAreValues(tokens, "--kotlin_module_name");
    ListedAreValues(tokens, "--module_name");
    ListedAreValues(tokens, "--kotlin_jvm_target");
    ListedAreValues(tokens, "--jvm_target");
    ListedAreValues(tokens, "--kotlin_api_version");
    ListedAreValues(tokens, "--api_version");
    ListedAreValues(tokens, "--kotlin_language_version");
    ListedAreValues(tokens, "--language_version");
    ListedAreValues(tokens, "--kotlin_passthrough_flags");
    ListedAreValues(tokens, "--sources");
  }

  /** The setting adds no plugins of its own. */
  predicate InertSetting(st: Setting) {
    !Enables(st.elide) && (st.usedDeps.Some? ==> !Enables(st.usedDeps.value)) && Inert(st.extraSources)
  }

  lemma NativeOptionsEnable(req: CompileRequest)
    requires OptionValues(req)
    ensures Enabling(NativeOptions(req)) == if Processing(req) then Enabling(req.processorOptions) else []
  {
    hide Opt, Joined, Each, Prefixed, Enables, IsFlag;
    var each := Each("--processor-option", req.processorOptions);
    OptIsInert("--ksp-sources", req.kspSources);
    OptIsInert("--ksp-classes", req.kspClasses);
    OptIsInert("--kapt-sources", req.kaptSources);
    OptIsInert("--kapt-classes", req.kaptClasses);
    OptIsInert("--kapt-stubs", req.kaptStubs);
    OptIsInert("--jdeps", req.jdeps);
    JoinedIsInert("--processors", req.processors, ',');
    JoinedIsInert("--processorpath", req.processorPath, PATH_SEPARATOR);
    EachEnables("--processor-option", req.processorOptions);
    PrefixedIsInert("--target-label=", req.targetLabel);
    if Processing(req) {
      var rest := NativeOptions(req)[..|NativeOptions(req)| - |each|];
      assert NativeOptions(req) == rest + each;
      InertEnablesNothing(rest);
      EnablingConcat(rest, each);
    } else {
      InertEnablesNothing(NativeOptions(req));
    }
  }

  lemma PrefixedIsInert(prefix: string, v: Option<string>)
    requires OtherOption(prefix)
    ensures Inert(Prefixed(prefix, v))
  {
    if v.Some? {
      OtherOptionIsInert(prefix, v.value);
    }
  }

  lemma BeforeEnables(req: CompileRequest, st: Setting)
    requires OptionValues(req) && InertSetting(st)
    ensures Enabling(Before(req, st)) ==
            (if st.native && Processing(req) then Enabling(req.processorOptions) else [])
            + PluginsOption(Names(Detect(req)))
  {
    hide NativeOptions, Enables, Names, Detect, PluginsOption, Processing, OptionValues, InertSetting, Opt, Enabling;
    NativeOptionsEnable(req);
    var names := Names(Detect(req));
    var native := if st.native then NativeOptions(req) else [];
    InertEnablesNothing([]);
    SettingIsInert(st);
    PluginsOptionEnables(names);
    EnablingAll([st.elide, "kotlinc"], native, Opt("--report-used-deps", st.usedDeps), PluginsOption(names));
  }

  lemma EnablingAll(a: seq<string>, b: seq<string>, c: seq<string>, d: seq<string>)
    requires Enabling(a) == [] && Enabling(c) == []
    ensures Enabling(a + b + c + d) == Enabling(b) + Enabling(d)
  {
    hide Enabling;
    EnablingConcat(a + b + c, d);
    EnablingConcat(a + b, c);
    EnablingConcat(a, b);
  }

  lemma SettingIsInert(st: Setting)
    requires InertSetting(st)
    ensures Enabling([st.elide, "kotlinc"]) == [] && Enabling(Opt("--report-used-deps", st.usedDeps)) == []
  {
    hide Enables, Enabling;
    OtherOptionIsInert("kotlinc", "");
    OtherOptionIsInert("--report-used-deps", "");
    InertEnablesNothing([st.elide, "kotlinc"]);
    InertEnablesNothing(Opt("--report-used-deps", st.usedDeps));
  }

  lemma PluginsOptionEnables(names: seq<string>)
    ensures Enabling(PluginsOption(names)) == PluginsOption(names)
  {
    hide Join;
    if names != [] {
      var option := "--plugins=" + Join(names, ',');
      assert Enables(option);
      assert [option][1..] == [];
    }
  }

  lemma OutputsAreInert(req: CompileRequest, st: Setting)
    requires ArgumentValues(req)
    ensures Inert(Outputs(req, st))
  {
    hide Opt, Joined, Join, Processing, IsFlag, Enables;
    OptIsInert("--emit-abi", req.abiJar);
    OptIsInert("-d", req.output);
    JoinedIsInert("-classpath", req.classpath, PATH_SEPARATOR);
    OptIsInert("-module-name", req.moduleName);
    OtherOptionIsInert("-Xfriend-paths=", Join(req.friendPaths, ','));
  }

  lemma AbiPluginIsInert(req: CompileRequest, st: Setting)
    ensures Inert(AbiPlugin(req, st))
  {
    hide Enables;
    if WantsAbiGen(req, st) && st.abiGen.Some? {
      assert XPLUGIN[1] == 'X' && ("plugin:" + ABI_GEN + ":outputDir=")[0] == 'p';
      OtherOptionIsInert(XPLUGIN, st.abiGen.value);
      ShortFlagsAreInert();
      assert "-P" in ["-d", "-P", "--"];
      OtherOptionIsInert("plugin:" + ABI_GEN + ":outputDir=", req.abiJar.value);
    }
  }

  lemma {:induction false} ClasspathPluginsAreInert(
    jars: seq<string>, rewrites: seq<Rewrite>, passthrough: seq<string>)
    ensures Inert(ClasspathPlugins(jars, rewrites, passthrough))
    decreases |jars|
  {
    hide Known, Enables;
    if jars == [] {
    } else {
      ClasspathPluginsAreInert(jars[1..], rewrites, passthrough);
      assert XPLUGIN[1] == 'X';
      OtherOptionIsInert(XPLUGIN, jars[0]);
    }
  }

  lemma {:induction false} PluginOptionsAreInert(opts: seq<string>)
    ensures Inert(PluginOptions(opts))
    decreases |opts|
  {
    hide Enables;
    if opts == [] {
    } else {
      PluginOptionsAreInert(opts[1..]);
      ShortFlagsAreInert();
      assert "-P" in ["-d", "-P", "--"];
      OtherOptionIsInert("plugin:", opts[0]);
    }
  }

  lemma {:induction false} UnrewrittenAreGiven(flags: seq<string>)
    ensures forall f :: f in Unrewritten(flags) ==> f in flags
    decreases |flags|
  {
    hide IsRewrittenXplugin;
    if flags == [] {
    } else {
      UnrewrittenAreGiven(flags[1..]);
    }
  }

  lemma BehindIsInert(req: CompileRequest, st: Setting)
    requires ArgumentValues(req) && Inert(st.extraSources)
    ensures Inert(Behind(req, st))
  {
    hide Outputs, AbiPlugin, ClasspathPlugins, PluginOptions, Unrewritten, Detect, Enables, IsFlag, Opt;
    OutputsAreInert(req, st);
    AbiPluginIsInert(req, st);
    ClasspathPluginsAreInert(req.compilerPluginClasspath, Detect(req), req.passthroughFlags);
    PluginOptionsAreInert(req.compilerPluginOptions);
    OptIsInert("-jvm-target", req.jvmTarget);
    OptIsInert("-api-version", req.apiVersion);
    OptIsInert("-language-version", req.languageVersion);
    UnrewrittenAreGiven(req.passthroughFlags);
    ValuesAreInert(req.passthroughFlags);
    ValuesAreInert(req.sources);
  }

  /** What enables builtins in the command: the one `--plugins=` token of the rewrites, or
      none when there are none, and nothing else, but for what the processor options of a
      native processing request pass on. */
  lemma OnlyTheRewritesEnable(req: CompileRequest, st: Setting)
    requires OptionValues(req) && ArgumentValues(req) && InertSetting(st)
    ensures Enabling(Kotlinc(req, st)) ==
            (if st.native && Processing(req) then Enabling(req.processorOptions) else [])
            + PluginsOption(Names(Detect(req)))
  {
    hide Before, Behind, Enables, OptionValues, ArgumentValues, Detect, Names, Processing;
    BeforeEnables(req, st);
    BehindIsInert(req, st);
    ShortFlagsAreInert();
    assert Inert(["--"] + Behind(req, st)) by { assert "--" in ["-d", "-P", "--"]; }
    InertEnablesNothing(["--"] + Behind(req, st));
    EnablingConcat(Before(req, st), ["--"] + Behind(req, st));
    assert Kotlinc(req, st) == Before(req, st) + (["--"] + Behind(req, st));
  }

  /** For every flagfile. */
  lemma PluginsOptionIsTheOnlyOne(tokens: seq<string>, st: Setting)
    requires InertSetting(st)
    ensures var req := Parse(tokens);
            Enabling(Kotlinc(req, st)) ==
            (if st.native && Processing(req) then Enabling(req.processorOptions) else [])
            + PluginsOption(Names(Detect(req)))
  {
    hide Parse, OptionValues, ArgumentValues, InertSetting;
    ParsedOptionValues(tokens);
    ParsedArgumentValues(tokens);
    OnlyTheRewritesEnable(Parse(tokens), st);
  }

  /** The requested plugins are preserved. Each requested jar is either replaced, its
      builtin listed exactly once in `--plugins` and the jar nowhere loaded, or it is
      still loaded, and never from the plugin classpath when it is passed through. The
      list read back from `--plugins` names nothing that was not asked for, and the command
      has no other such token, but for processor options. */
  lemma PluginsArePreserved(req: CompileRequest, st: Setting, jar: string)
    requires PlainValues(req, st)
    requires jar in Requested(req)
    ensures var names, loads := Names(Detect(req)), multiset(Kotlinc(req, st))[XPLUGIN + jar];
            && loads == Loads(req, st, jar)
            && Distinct(names)
            && (BuiltinFor(jar).Some? ==> BuiltinFor(jar).value in names && (st.native ==> loads == 0))
            && (BuiltinFor(jar).None? ==> loads > 0)
            && (names != [] ==>
                  && "--plugins=" + Join(names, ',') in Before(req, st)
                  && Split(Join(names, ','), ',') == names)
            && (forall n :: n in names ==> exists j :: j in Requested(req) && BuiltinFor(j) == Some(n))
            && (OptionValues(req) && ArgumentValues(req) && InertSetting(st) ==>
                  Enabling(Kotlinc(req, st)) ==
                  (if st.native && Processing(req) then Enabling(req.processorOptions) else [])
                  + (if names == [] then [] else ["--plugins=" + Join(names, ',')]))
  {
    hide BuiltinFor, Detect, Names, Kotlinc, Join, Split, Known, OptionValues, ArgumentValues, InertSetting,
         Processing, PlainValues;
    var names := Names(Detect(req));
    BuiltinsAreExact(req);
    PluginFlagCount(req, st, jar);
    PassthroughJarsAre(req.passthroughFlags, jar);
    forall n | n in names
      ensures ',' !in n
    {
      var j :| j in Requested(req) && BuiltinFor(j) == Some(n);
      BuiltinIsOneOfFour(j);
    }
    if OptionValues(req) && ArgumentValues(req) && InertSetting(st) {
      OnlyTheRewritesEnable(req, st);
    }
    if names != [] {
      SplitJoined(names, ',');
      PluginsOptionIsThere(req, st);
    }
  }

  lemma PluginsOptionIsThere(req: CompileRequest, st: Setting)
    requires Names(Detect(req)) != []
    ensures "--plugins=" + Join(Names(Detect(req)), ',') in Before(req, st)
  {
    hide Join, Names, Detect, NativeOptions, Opt;
    var last := "--plugins=" + Join(Names(Detect(req)), ',');
    assert PluginsOption(Names(Detect(req))) == [last];
    assert Before(req, st)[|Before(req, st)| - 1] == last;
  }

  // --------------------------------------------------- what the commands hold

  /** A flag with its value right behind it. */
  ghost predicate Gives(cmd: seq<string>, flag: string, value: string) {
    exists i :: 0 <= i < |cmd| - 1 && cmd[i] == flag && cmd[i + 1] == value
  }

  lemma GivesWithin(a: seq<string>, b: seq<string>, c: seq<string>, flag: string, value: string)
    requires Gives(b, flag, value)
    ensures Gives(a + b + c, flag, value)
  {
    var i :| 0 <= i < |b| - 1 && b[i] == flag && b[i + 1] == value;
    var cmd, k := a + b + c, |a| + i;
    assert cmd[k] == b[i] && cmd[k + 1] == b[i + 1];
  }

  lemma OptGives(flag: string, v: Option<string>)
    ensures v.Some? ==> Gives(Opt(flag, v), flag, v.value)
    ensures |Opt(flag, v)| == if v.Some? then 2 else 0
  {
    var opt := Opt(flag, v);
    assert v.Some? ==> opt[0] == flag && opt[1] == v.value;
  }

  lemma JoinedGives(flag: string, vs: seq<string>, separator: char)
    ensures vs != [] ==> Gives(Joined(flag, vs, separator), flag, Join(vs, separator))
    ensures |Joined(flag, vs, separator)| == if vs != [] then 2 else 0
  {
    hide Join;
    var joined := Joined(flag, vs, separator);
    assert vs != [] ==> joined[0] == flag && joined[1] == Join(vs, separator);
  }

  /** What one of several parts gives, the whole does. */
  lemma PartsGive(
    a: seq<string>, b: seq<string>, c: seq<string>, d: seq<string>, e: seq<string>, f: seq<string>,
    flag: string, value: string)
    ensures || Gives(a, flag, value) || Gives(b, flag, value) || Gives(c, flag, value)
            || Gives(d, flag, value) || Gives(e, flag, value)
            ==> Gives(a + b + c + d + e + f, flag, value)
  {
    hide Gives;
    var all := a + b + c + d + e + f;
    if Gives(a, flag, value) {
      GivesWithin([], a, b + c + d + e + f, flag, value);
      assert all == [] + a + (b + c + d + e + f);
    } else if Gives(b, flag, value) {
      GivesWithin(a, b, c + d + e + f, flag, value);
      assert all == a + b + (c + d + e + f);
    } else if Gives(c, flag, value) {
      GivesWithin(a + b, c, d + e + f, flag, value);
      assert all == a + b + c + (d + e + f);
    } else if Gives(d, flag, value) {
      GivesWithin(a + b + c, d, e + f, flag, value);
      assert all == a + b + c + d + (e + f);
    } else if Gives(e, flag, value) {
      GivesWithin(a + b + c + d, e, f, flag, value);
    }
  }

  /** The outputs and paths of a compile: all that were asked for, and no other token. */
  lemma OutputsGive(req: CompileRequest, st: Setting)
    ensures var out := Outputs(req, st);
            var processing := req.kaptSources.Some? || req.kspSources.Some?;
            && (st.native && !processing && req.abiJar.Some? ==> Gives(out, "--emit-abi", req.abiJar.value))
            && (!processing && req.output.Some? ==> Gives(out, "-d", req.output.value))
            && (req.classpath != [] ==> Gives(out, "-classpath", Join(req.classpath, ':')))
            && (req.moduleName.Some? ==> Gives(out, "-module-name", req.moduleName.value))
            && (req.friendPaths != [] ==> "-Xfriend-paths=" + Join(req.friendPaths, ',') in out)
            && |out| == (if st.native && !processing && req.abiJar.Some? then 2 else 0)
                        + (if !processing && req.output.Some? then 2 else 0)
                        + (if req.classpath != [] then 2 else 0)
                        + (if req.moduleName.Some? then 2 else 0)
                        + (if req.friendPaths != [] then 1 else 0)
  {
    hide Opt, Joined, Join, Gives, Outputs;
    var abi := if st.native && !Processing(req) then Opt("--emit-abi", req.abiJar) else [];
    var d := if !Processing(req) then Opt("-d", req.output) else [];
    var path, name := Joined("-classpath", req.classpath, ':'), Opt("-module-name", req.moduleName);
    var friends := if req.friendPaths == [] then [] else ["-Xfriend-paths=" + Join(req.friendPaths, ',')];
    OutputsAre(req, st, abi, d, path, name, friends);
    OptGives("--emit-abi", req.abiJar);
    OptGives("-d", req.output);
    JoinedGives("-classpath", req.classpath, ':');
    OptGives("-module-name", req.moduleName);
  }

  lemma OutputsAre(
    req: CompileRequest, st: Setting,
    abi: seq<string>, d: seq<string>, path: seq<string>, name: seq<string>, friends: seq<string>)
    requires abi == if st.native && !Processing(req) then Opt("--emit-abi", req.abiJar) else []
    requires d == if !Processing(req) then Opt("-d", req.output) else []
    requires path == Joined("-classpath", req.classpath, ':') && name == Opt("-module-name", req.moduleName)
    requires friends == if req.friendPaths == [] then [] else ["-Xfriend-paths=" + Join(req.friendPaths, ',')]
    ensures var out := Outputs(req, st);
            && |out| == |abi| + |d| + |path| + |name| + |friends|
            && (forall t :: t in friends ==> t in out)
            && forall flag, value ::
                 Gives(abi, flag, value) || Gives(d, flag, value) || Gives(path, flag, value) || Gives(name, flag, value)
                 ==> Gives(out, flag, value)
  {
    hide Opt, Joined, Join, Gives, Processing;
    var out := Outputs(req, st);
    assert out == [] + abi + d + path + name + friends;
    forall flag, value | || Gives(abi, flag, value) || Gives(d, flag, value)
                         || Gives(path, flag, value) || Gives(name, flag, value)
      ensures Gives(out, flag, value)
    {
      PartsGive([], abi, d, path, name, friends, flag, value);
    }
  }

  lemma {:induction false} PluginOptionsGive(opts: seq<string>, opt: string)
    requires opt in opts
    ensures Gives(PluginOptions(opts), "-P", "plugin:" + opt)
    decreases |opts|
  {
    var head, more := ["-P", "plugin:" + opts[0]], PluginOptions(opts[1..]);
    assert head[0] == "-P" && head[1] == "plugin:" + opts[0];
    assert [] + head + more == head + more && head + more + [] == head + more;
    if opt == opts[0] {
      GivesWithin([], head, more, "-P", "plugin:" + opt);
    } else {
      PluginOptionsGive(opts[1..], opt);
      GivesWithin(head, more, [], "-P", "plugin:" + opt);
    }
  }

  lemma {:induction false} PluginOptionsCount(opts: seq<string>)
    ensures |PluginOptions(opts)| == 2 * |opts|
    decreases |opts|
  {
    if opts == [] {
    } else {
      PluginOptionsCount(opts[1..]);
    }
  }

  lemma VersionsGive(req: CompileRequest)
    ensures var versions := Versions(req);
            && (req.jvmTarget.Some? ==> Gives(versions, "-jvm-target", req.jvmTarget.value))
            && (req.apiVersion.Some? ==> Gives(versions, "-api-version", req.apiVersion.value))
            && (req.languageVersion.Some? ==> Gives(versions, "-language-version", req.languageVersion.value))
            && |versions| == (if req.jvmTarget.Some? then 2 else 0) + (if req.apiVersion.Some? then 2 else 0)
                             + (if req.languageVersion.Some? then 2 else 0)
  {
    hide Opt, Gives;
    var jvm, api := Opt("-jvm-target", req.jvmTarget), Opt("-api-version", req.apiVersion);
    var language := Opt("-language-version", req.languageVersion);
    assert Versions(req) == [] + [] + jvm + api + language + [];
    OptGives("-jvm-target", req.jvmTarget);
    OptGives("-api-version", req.apiVersion);
    OptGives("-language-version", req.languageVersion);
    if req.jvmTarget.Some? {
      PartsGive([], [], jvm, api, language, [], "-jvm-target", req.jvmTarget.value);
    }
    if req.apiVersion.Some? {
      PartsGive([], [], jvm, api, language, [], "-api-version", req.apiVersion.value);
    }
    if req.languageVersion.Some? {
      PartsGive([], [], jvm, api, language, [], "-language-version", req.languageVersion.value);
    }
  }

  lemma {:induction false} UnrewrittenKeeps(flags: seq<string>, flag: string)
    requires flag in flags && !IsRewrittenXplugin(flag)
    ensures flag in Unrewritten(flags)
    decreases |flags|
  {
    hide IsRewrittenXplugin;
    if flags[0] == flag {
    } else {
      UnrewrittenKeeps(flags[1..], flag);
    }
  }

  /** The compiler's arguments hold whatever the outputs, the ABI plugin, the plugin options
      or the versions give, and the flags passed through; they end in the sources; and
      nothing is in them that is not counted here. */
  lemma BehindGives(req: CompileRequest, st: Setting, flag: string, value: string)
    ensures var behind, sources := Behind(req, st), req.sources + st.extraSources;
            && (Gives(Outputs(req, st), flag, value) ==> Gives(behind, flag, value))
            && (Gives(AbiPlugin(req, st), flag, value) ==> Gives(behind, flag, value))
            && (Gives(PluginOptions(req.compilerPluginOptions), flag, value) ==> Gives(behind, flag, value))
            && (Gives(Versions(req), flag, value) ==> Gives(behind, flag, value))
            && (flag in Outputs(req, st) ==> flag in behind)
            && (flag in req.passthroughFlags && !IsRewrittenXplugin(flag) ==> flag in behind)
            && |sources| <= |behind| && behind[|behind| - |sources|..] == sources
            && |behind| == |Outputs(req, st)| + |AbiPlugin(req, st)|
                           + |ClasspathPlugins(req.compilerPluginClasspath, Detect(req), req.passthroughFlags)|
                           + 2 * |req.compilerPluginOptions| + |Versions(req)|
                           + |Unrewritten(req.passthroughFlags)| + |sources|
  {
    hide Outputs, AbiPlugin, ClasspathPlugins, PluginOptions, Versions, Unrewritten, Detect, Gives, IsRewrittenXplugin;
    var a, b := Outputs(req, st), AbiPlugin(req, st);
    var c := ClasspathPlugins(req.compilerPluginClasspath, Detect(req), req.passthroughFlags);
    var d, e := PluginOptions(req.compilerPluginOptions), Versions(req);
    var f, sources := Unrewritten(req.passthroughFlags), req.sources + st.extraSources;
    assert Behind(req, st) == a + b + c + d + e + (f + sources);
    PluginOptionsCount(req.compilerPluginOptions);
    PartsGive(a, b, c, d, e, f + sources, flag, value);
    if flag in req.passthroughFlags && !IsRewrittenXplugin(flag) {
      UnrewrittenKeeps(req.passthroughFlags, flag);
    }
  }

  /** The ABI plugin of legacy mode, with its option. */
  lemma AbiPluginGives(req: CompileRequest, st: Setting)
    ensures var abi := AbiPlugin(req, st);
            if req.abiJar.Some? && !st.native && st.abiGen.Some? then
              && |abi| == 3 && abi[0] == "-Xplugin=" + st.abiGen.value
              && Gives(abi, "-P", "plugin:" + "org.jetbrains.kotlin.jvm.abi" + ":outputDir=" + req.abiJar.value)
            else abi == []
  {
    var abi := AbiPlugin(req, st);
    if req.abiJar.Some? && !st.native && st.abiGen.Some? {
      assert abi[1] == "-P" && abi[1 + 1] == "plugin:" + ABI_GEN + ":outputDir=" + req.abiJar.value;
    }
  }

  /** The options in front of the separator, by kind of request; no other token is there. */
  lemma BeforeGives(req: CompileRequest, st: Setting)
    ensures var before := Before(req, st);
            && |before| >= 2 && before[0] == st.elide && before[1] == "kotlinc"
            && (st.usedDeps.Some? ==> Gives(before, "--report-used-deps", st.usedDeps.value))
            && (st.native ==>
                  forall flag, value :: Gives(NativeOptions(req), flag, value) ==> Gives(before, flag, value))
            && (forall flag :: st.native && flag in NativeOptions(req) ==> flag in before)
            && |before| == 2 + (if st.native then |NativeOptions(req)| else 0)
                           + (if st.usedDeps.Some? then 2 else 0)
                           + (if Names(Detect(req)) != [] then 1 else 0)
  {
    hide NativeOptions, Opt, Names, Detect, Gives, Join;
    var native := if st.native then NativeOptions(req) else [];
    var report, plugins := Opt("--report-used-deps", st.usedDeps), PluginsOption(Names(Detect(req)));
    assert Before(req, st) == [] + [st.elide, "kotlinc"] + native + report + plugins + [];
    OptGives("--report-used-deps", st.usedDeps);
    forall flag, value | Gives(native, flag, value) || Gives(report, flag, value)
      ensures Gives(Before(req, st), flag, value)
    {
      PartsGive([], [st.elide, "kotlinc"], native, report, plugins, [], flag, value);
    }
  }

  lemma {:induction false} EachGives(flag: string, values: seq<string>, v: string)
    requires v in values
    ensures Gives(Each(flag, values), flag, v)
  {
    var head, more := [flag, values[0]], Each(flag, values[1..]);
    assert head[0] == flag && head[1] == values[0];
    assert [] + head + more == head + more && head + more + [] == head + more;
    if v == values[0] {
      GivesWithin([], head, more, flag, v);
    } else {
      EachGives(flag, values[1..], v);
      GivesWithin(head, more, [], flag, v);
    }
  }

  lemma {:induction false} EachCount(flag: string, values: seq<string>)
    ensures |Each(flag, values)| == 2 * |values|
  {
    if values == [] {
    } else {
      EachCount(flag, values[1..]);
    }
  }

  function OptCount(v: Option<string>): nat {
    if v.Some? then 2 else 0
  }

  /** Native options of a request that only compiles. */
  lemma CompileOptionsGive(req: CompileRequest)
    requires req.kspSources.None? && req.kaptSources.None?
    ensures var options := NativeOptions(req);
            && (req.jdeps.Some? ==> Gives(options, "--jdeps", req.jdeps.value))
            && (req.targetLabel.Some? ==> "--target-label=" + req.targetLabel.value in options)
            && |options| == OptCount(req.jdeps) + if req.targetLabel.Some? then 1 else 0
  {
    hide Opt, Gives;
    var target := Prefixed("--target-label=", req.targetLabel);
    assert NativeOptions(req) == [] + [] + Opt("--jdeps", req.jdeps) + target + [] + [];
    OptGives("--jdeps", req.jdeps);
    if req.jdeps.Some? {
      PartsGive([], [], Opt("--jdeps", req.jdeps), target, [], [], "--jdeps", req.jdeps.value);
    }
  }

  /** Native options of a processing request: KSP when its sources are given, or else kapt. */
  lemma ProcessingOptionsGive(req: CompileRequest)
    requires req.kspSources.Some? || req.kaptSources.Some?
    ensures var options, ksp := NativeOptions(req), req.kspSources.Some?;
            && (ksp ==> Gives(options, "--ksp-sources", req.kspSources.value))
            && (ksp && req.kspClasses.Some? ==> Gives(options, "--ksp-classes", req.kspClasses.value))
            && (!ksp ==> Gives(options, "--kapt-sources", req.kaptSources.value))
            && (!ksp && req.kaptClasses.Some? ==> Gives(options, "--kapt-classes", req.kaptClasses.value))
            && (!ksp && req.kaptStubs.Some? ==> Gives(options, "--kapt-stubs", req.kaptStubs.value))
            && (!ksp && req.processors != [] ==> Gives(options, "--processors", Join(req.processors, ',')))
            && (req.processorPath != [] ==> Gives(options, "--processorpath", Join(req.processorPath, ':')))
            && (forall o :: o in req.processorOptions ==> Gives(options, "--processor-option", o))
            && |options| == (if ksp then 2 + OptCount(req.kspClasses)
                             else 2 + OptCount(req.kaptClasses) + OptCount(req.kaptStubs)
                                  + if req.processors != [] then 2 else 0)
                            + (if req.processorPath != [] then 2 else 0) + 2 * |req.processorOptions|
  {
    hide Opt, Joined, Join, Each, Gives;
    var path := Joined("--processorpath", req.processorPath, ':');
    var each := Each("--processor-option", req.processorOptions);
    EachCount("--processor-option", req.processorOptions);
    JoinedGives("--processorpath", req.processorPath, ':');
    if req.kspSources.Some? {
      KspGives(req, path, each);
    } else {
      KaptGives(req, path, each);
    }
    EachAtEnd(req, each);
  }

  lemma EachAtEnd(req: CompileRequest, each: seq<string>)
    requires req.kspSources.Some? || req.kaptSources.Some?
    requires each == Each("--processor-option", req.processorOptions)
    ensures forall o :: o in req.processorOptions ==> Gives(NativeOptions(req), "--processor-option", o)
  {
    hide Opt, Joined, Each, Gives;
    var options := NativeOptions(req);
    var front := options[..|options| - |each|];
    assert options == front + each + [];
    forall o | o in req.processorOptions
      ensures Gives(options, "--processor-option", o)
    {
      EachGives("--processor-option", req.processorOptions, o);
      GivesWithin(front, each, [], "--processor-option", o);
    }
  }

  lemma KspGives(req: CompileRequest, path: seq<string>, each: seq<string>)
    requires req.kspSources.Some?
    ensures var options :=
              Opt("--ksp-sources", req.kspSources) + Opt("--ksp-classes", req.kspClasses) + (path + each);
            && Gives(options, "--ksp-sources", req.kspSources.value)
            && (req.kspClasses.Some? ==> Gives(options, "--ksp-classes", req.kspClasses.value))
            && (forall flag, value :: Gives(path, flag, value) ==> Gives(options, flag, value))
            && |options| == 2 + OptCount(req.kspClasses) + |path| + |each|
  {
    hide Opt, Gives;
    var a, b := Opt("--ksp-sources", req.kspSources), Opt("--ksp-classes", req.kspClasses);
    var options := a + b + (path + each);
    assert options == [] + [] + a + b + path + each;
    OptGives("--ksp-sources", req.kspSources);
    OptGives("--ksp-classes", req.kspClasses);
    forall flag, value | Gives(a, flag, value) || Gives(b, flag, value) || Gives(path, flag, value)
      ensures Gives(options, flag, value)
    {
      PartsGive([], [], a, b, path, each, flag, value);
    }
  }

  lemma KaptGives(req: CompileRequest, path: seq<string>, each: seq<string>)
    requires req.kaptSources.Some?
    ensures var options :=
              Opt("--kapt-sources", req.kaptSources) + Opt("--kapt-classes", req.kaptClasses)
              + Opt("--kapt-stubs", req.kaptStubs) + Joined("--processors", req.processors, ',') + (path + each);
            && Gives(options, "--kapt-sources", req.kaptSources.value)
            && (req.kaptClasses.Some? ==> Gives(options, "--kapt-classes", req.kaptClasses.value))
            && (req.kaptStubs.Some? ==> Gives(options, "--kapt-stubs", req.kaptStubs.value))
            && (req.processors != [] ==> Gives(options, "--processors", Join(req.processors, ',')))
            && (forall flag, value :: Gives(path, flag, value) ==> Gives(options, flag, value))
            && |options| == 2 + OptCount(req.kaptClasses) + OptCount(req.kaptStubs)
                            + (if req.processors != [] then 2 else 0) + |path| + |each|
  {
    hide Opt, Joined, Join, Gives;
    var a, b := Opt("--kapt-sources", req.kaptSources), Opt("--kapt-classes", req.kaptClasses);
    var c, d := Opt("--kapt-stubs", req.kaptStubs), Joined("--processors", req.processors, ',');
    var options := a + b + c + d + (path + each);
    assert options == a + b + c + d + path + each;
    OptGives("--kapt-sources", req.kaptSources);
    OptGives("--kapt-classes", req.kaptClasses);
    OptGives("--kapt-stubs", req.kaptStubs);
    JoinedGives("--processors", req.processors, ',');
    forall flag, value | || Gives(a, flag, value) || Gives(b, flag, value) || Gives(c, flag, value)
                         || Gives(d, flag, value) || Gives(path, flag, value)
      ensures Gives(options, flag, value)
    {
      PartsGive(a, b, c, d, path, each, flag, value);
    }
  }

  /** The plan: refused without an output to compile to, or without an ABI plugin that is
      needed; else the compile, and behind it the source jar of exactly the sources, when
      one is asked for and nothing is processed. */
  lemma PlanIs(req: CompileRequest, st: Setting)
    ensures var processing := req.kaptSources.Some? || req.kspSources.Some?;
            && (Plan(req, st).None? <==>
                  (!processing && req.output.None?) || (req.abiJar.Some? && !st.native && st.abiGen.None?))
            && (Plan(req, st).Some? ==>
                  var cmds := Plan(req, st).value;
                  && |cmds| == (if req.srcjar.Some? && !processing then 2 else 1)
                  && cmds[0] == Before(req, st) + ["--"] + Behind(req, st)
                  && (|cmds| == 2 ==>
                        cmds[1] == [st.elide, "jar", "--", "--create", "--date=1980-01-01T00:00:02Z", "--file",
                                    req.srcjar.value] + req.sources))
  {
    hide Before, Behind;
  }

  // ------------------------------------------------------------------ the code

  /** `plan` */
  method MakePlan(req: CompileRequest, st: Setting) returns (cmds: Option<seq<Command>>)
    ensures cmds == Plan(req, st)
  {
    var rewrites := DetectRewrites(req);
    var before := PlanBefore(req, st, rewrites);
    if !Processing(req) && req.output.None? {
      return None;
    }
    if WantsAbiGen(req, st) && st.abiGen.None? {
      return None;
    }
    var behind := PlanBehind(req, st, rewrites);
    var kt := before + ["--"] + behind;
    var all := [kt];
    if req.srcjar.Some? && !Processing(req) {
      all := all + [[st.elide, "jar", "--", "--create", "--date=1980-01-01T00:00:02Z", "--file", req.srcjar.value]
                    + req.sources];
    } else {
      assert all + [] == all;
    }
    return Some(all);
  }

  /** The part of `plan` that appends the Elide options. */
  method PlanBefore(req: CompileRequest, st: Setting, rewrites: seq<Rewrite>) returns (kt: seq<string>)
    requires rewrites == Detect(req)
    ensures kt == Before(req, st)
  {
    hide Each, Join, Detect, Names;
    var processing := Processing(req);
    kt := [st.elide, "kotlinc"];
    if st.native {
      var options := PlanNative(req);
      kt := kt + options;
    } else {
      assert kt + [] == kt;
    }
    if st.usedDeps.Some? {
      kt := kt + ["--report-used-deps", st.usedDeps.value];
    } else {
      assert kt + [] == kt;
    }
    var builtins := Names(rewrites);
    if builtins != [] {
      kt := kt + ["--plugins=" + Join(builtins, ',')];
    } else {
      assert kt + [] == kt;
    }
  }

  method AddOpt(kt: seq<string>, flag: string, value: Option<string>) returns (more: seq<string>)
    ensures more == kt + Opt(flag, value)
  {
    more := kt;
    if value.Some? {
      more := more + [flag, value.value];
    }
  }

  method AddJoined(kt: seq<string>, flag: string, values: seq<string>, separator: char)
    returns (more: seq<string>)
    ensures more == kt + Joined(flag, values, separator)
  {
    more := kt;
    if values != [] {
      more := more + [flag];
      more := more + [Join(values, separator)];
    }
  }

  method PlanNative(req: CompileRequest) returns (kt: seq<string>)
    ensures kt == NativeOptions(req)
  {
    hide Joined, Opt, Each, Processing;
    if req.kspSources.Some? {
      kt := AddOpt([], "--ksp-sources", req.kspSources);
      kt := AddOpt(kt, "--ksp-classes", req.kspClasses);
      assert kt == Opt("--ksp-sources", req.kspSources) + Opt("--ksp-classes", req.kspClasses);
    } else if req.kaptSources.Some? {
      kt := PlanKapt(req);
    } else {
      kt := AddOpt([], "--jdeps", req.jdeps);
      assert kt == Opt("--jdeps", req.jdeps);
      if req.targetLabel.Some? {
        kt := kt + ["--target-label=" + req.targetLabel.value];
      }
    }
    if Processing(req) {
      var tail := PlanProcessing(req);
      kt := kt + tail;
    } else {
      assert kt + [] == kt;
    }
  }

  method PlanKapt(req: CompileRequest) returns (kt: seq<string>)
    ensures kt == Opt("--kapt-sources", req.kaptSources) + Opt("--kapt-classes", req.kaptClasses)
                  + Opt("--kapt-stubs", req.kaptStubs) + Joined("--processors", req.processors, ',')
  {
    hide Joined, Opt;
    kt := AddOpt([], "--kapt-sources", req.kaptSources);
    assert kt == Opt("--kapt-sources", req.kaptSources);
    kt := AddOpt(kt, "--kapt-classes", req.kaptClasses);
    kt := AddOpt(kt, "--kapt-stubs", req.kaptStubs);
    kt := AddJoined(kt, "--processors", req.processors, ',');
  }

  method PlanProcessing(req: CompileRequest) returns (kt: seq<string>)
    ensures kt == Joined("--processorpath", req.processorPath, PATH_SEPARATOR)
                  + Each("--processor-option", req.processorOptions)
  {
    hide Joined;
    kt := AddJoined([], "--processorpath", req.processorPath, PATH_SEPARATOR);
    ghost var path := kt;
    assert path == Joined("--processorpath", req.processorPath, PATH_SEPARATOR);
    assert req.processorOptions[0..] == req.processorOptions;
    for i := 0 to |req.processorOptions|
      invariant kt + Each("--processor-option", req.processorOptions[i..])
             == path + Each("--processor-option", req.processorOptions)
    {
      assert req.processorOptions[i..][1..] == req.processorOptions[i + 1..];
      kt := kt + ["--processor-option", req.processorOptions[i]];
    }
    assert kt + [] == kt;
  }

  /** The part of `plan` that appends the compiler's arguments. */
  method PlanBehind(req: CompileRequest, st: Setting, rewrites: seq<Rewrite>) returns (kt: seq<string>)
    requires rewrites == Detect(req) && !Refused(req, st)
    ensures kt == Behind(req, st)
  {
    hide Outputs, Versions, Detect, ClasspathPlugins, PluginOptions, Unrewritten;
    kt := PlanOutputs(req, st);
    if WantsAbiGen(req, st) {
      kt := kt + [XPLUGIN + st.abiGen.value, "-P", "plugin:" + ABI_GEN + ":outputDir=" + req.abiJar.value];
    } else {
      assert kt + [] == kt;
    }
    var plugins := PlanPlugins(req.compilerPluginClasspath, rewrites, req.passthroughFlags);
    var options := PlanPluginOptions(req.compilerPluginOptions);
    var versions := PlanVersions(req);
    kt := kt + plugins + options + versions + Unrewritten(req.passthroughFlags) + req.sources + st.extraSources;
  }

  method PlanPlugins(jars: seq<string>, rewrites: seq<Rewrite>, passthrough: seq<string>) returns (kt: seq<string>)
    ensures kt == ClasspathPlugins(jars, rewrites, passthrough)
  {
    hide Known, XPLUGIN, ClasspathPlugins;
    kt := [];
    ClasspathPluginsFrom([], jars, 0, rewrites, passthrough);
    for i := 0 to |jars|
      invariant ClasspathPlugins(jars, rewrites, passthrough)
             == kt + ClasspathPlugins(jars[i..], rewrites, passthrough)
    {
      ClasspathPluginsFrom(kt, jars, i, rewrites, passthrough);
      if Known(rewrites, jars[i]) {
        assert kt + [] == kt;
        continue;
      }
      var flag := XPLUGIN + jars[i];
      if flag !in passthrough {
        kt := kt + [flag];
      } else {
        assert kt + [] == kt;
      }
    }
    ClasspathPluginsFrom(kt, jars, |jars|, rewrites, passthrough);
  }

  lemma ClasspathPluginsFrom(
    kt: seq<string>, jars: seq<string>, i: nat, rewrites: seq<Rewrite>, passthrough: seq<string>)
    requires i <= |jars|
    ensures jars[0..] == jars && [] + ClasspathPlugins(jars, rewrites, passthrough)
                                 == ClasspathPlugins(jars, rewrites, passthrough)
    ensures kt + ClasspathPlugins(jars[i..], rewrites, passthrough) ==
            if i == |jars| then kt
            else kt + ClasspathPlugin(jars[i], rewrites, passthrough)
                 + ClasspathPlugins(jars[i + 1..], rewrites, passthrough)
  {
    hide ClasspathPlugin;
    if i < |jars| {
      assert jars[i..][0] == jars[i] && jars[i..][1..] == jars[i + 1..];
      var own, more := ClasspathPlugin(jars[i], rewrites, passthrough),
                       ClasspathPlugins(jars[i + 1..], rewrites, passthrough);
      assert kt + (own + more) == kt + own + more;
    } else {
      assert kt + [] == kt;
    }
  }

  method PlanPluginOptions(opts: seq<string>) returns (kt: seq<string>)
    ensures kt == PluginOptions(opts)
  {
    kt := [];
    assert opts[0..] == opts;
    for i := 0 to |opts|
      invariant PluginOptions(opts) == kt + PluginOptions(opts[i..])
    {
      assert opts[i..][0] == opts[i] && opts[i..][1..] == opts[i + 1..];
      kt := kt + ["-P", "plugin:" + opts[i]];
    }
  }

  method PlanOutputs(req: CompileRequest, st: Setting) returns (kt: seq<string>)
    requires !Refused(req, st)
    ensures kt == Outputs(req, st)
  {
    hide Joined, Opt, Join, Processing;
    kt := [];
    if st.native && !Processing(req) {
      kt := AddOpt(kt, "--emit-abi", req.abiJar);
    }
    ghost var abi := if st.native && !Processing(req) then Opt("--emit-abi", req.abiJar) else [];
    assert kt == abi;
    if !Processing(req) {
      kt := AddOpt(kt, "-d", req.output);
    }
    ghost var out := if !Processing(req) then Opt("-d", req.output) else [];
    assert kt == abi + out;
    kt := AddJoined(kt, "-classpath", req.classpath, PATH_SEPARATOR);
    kt := AddOpt(kt, "-module-name", req.moduleName);
    if req.friendPaths != [] {
      kt := kt + ["-Xfriend-paths=" + Join(req.friendPaths, ',')];
    } else {
      assert kt + [] == kt;
    }
  }

  method PlanVersions(req: CompileRequest) returns (kt: seq<string>)
    ensures kt == Versions(req)
  {
    hide Opt;
    kt := AddOpt([], "-jvm-target", req.jvmTarget);
    kt := AddOpt(kt, "-api-version", req.apiVersion);
    kt := AddOpt(kt, "-language-version", req.languageVersion);
  }
}
