/**
 * `ElideCompile.run` and `Main.compileCmds`: running a plan command by command, or its
 * first command in a resident process. The world that commands act on is abstract.
 */
module KotlinMain {
  import opened Common
  import opened ElideCompile
  import opened Flagfile

  /** How one command ends: with an exit code and output, or with an exception from its log
      file or its process, at whatever point. */
  datatype Execution<W> = Exited(world: W, code: int, output: string) | Raised(world: W)

  type System<!W> = (W, Command) -> Execution<W>

  /** How running a plan ends. */
  datatype Outcome<W> = Finished(world: W, code: int, output: string) | Threw(world: W)

  /** `run`: stop at the first non-zero exit, outputs concatenated. */
  function Run<W>(sys: System<W>, w: W, cmds: seq<Command>): Outcome<W>
    decreases |cmds|
  {
    if cmds == [] then Finished(w, 0, "")
    else
      var first := sys(w, cmds[0]);
      if first.Raised? then Threw(first.world)
      else if first.code != 0 then Finished(first.world, first.code, first.output)
      else
        match Run(sys, first.world, cmds[1..])
        case Threw(w') => Threw(w')
        case Finished(w', code, out) => Finished(w', code, first.output + out)
  }

  /** What a forwarded compile comes back with; a failed one may have changed the world. */
  datatype Forwarded<W> = Returned(world: W, code: int, output: string) | Failed(world: W)

  type Resident<!W> = (W, seq<string>) -> Forwarded<W>

  /** `kotlincWorkerArgs`: without the program and the tool name. */
  function WorkerArgs(c: Command): seq<string> {
    if |c| < 2 then [] else c[2..]
  }

  /** `compileCmds` */
  function CompileCmds<W>(sys: System<W>, resident: Option<Resident<W>>, w: W, cmds: seq<Command>): Outcome<W> {
    if resident.None? || cmds == [] then Run(sys, w, cmds)
    else
      match resident.value(w, WorkerArgs(cmds[0]))
      case Failed(w') => Run(sys, w', cmds)
      case Returned(w', code, out) =>
        var rest := cmds[1..];
        if code != 0 || rest == [] then Finished(w', code, out)
        else
          match Run(sys, w', rest)
          case Threw(w'') => Run(sys, w'', cmds)
          case Finished(w'', jc, jo) => Finished(w'', if jc != 0 then jc else code, out + jo)
  }

  // ---------------------------------------------------------------- exceptions

  /** The world in which command `i` is executed, if it is reached. */
  function WorldBefore<W>(sys: System<W>, w: W, cmds: seq<Command>, i: nat): Option<W>
    requires i <= |cmds|
    decreases i
  {
    if i == 0 then Some(w)
    else
      var before := WorldBefore(sys, w, cmds, i - 1);
      if before.None? then None
      else
        var execution := sys(before.value, cmds[i - 1]);
        if execution.Exited? && execution.code == 0 then Some(execution.world) else None
  }

  /** Command `i` is reached and ends in an exception that leaves the world `after`. */
  predicate RaisesAt<W(==)>(sys: System<W>, w: W, cmds: seq<Command>, i: nat, after: W) {
    i < |cmds| && (var before := WorldBefore(sys, w, cmds, i);
                   before.Some? && sys(before.value, cmds[i]) == Raised(after))
  }

  lemma {:induction false} WorldBeforeTail<W>(sys: System<W>, w: W, cmds: seq<Command>, i: nat)
    requires 1 <= i <= |cmds|
    ensures WorldBefore(sys, w, cmds, i) ==
            var first := sys(w, cmds[0]);
            if first.Exited? && first.code == 0 then WorldBefore(sys, first.world, cmds[1..], i - 1) else None
    decreases i
  {
    if i == 1 {
      assert WorldBefore(sys, w, cmds, 0) == Some(w);
    } else {
      WorldBeforeTail(sys, w, cmds, i - 1);
      assert cmds[1..][i - 2] == cmds[i - 1];
    }
  }

  lemma RaisesLater<W>(sys: System<W>, w: W, cmds: seq<Command>, i: nat, after: W)
    requires cmds != []
    ensures var first := sys(w, cmds[0]);
            RaisesAt(sys, w, cmds, i + 1, after) <==>
            first.Exited? && first.code == 0 && RaisesAt(sys, first.world, cmds[1..], i, after)
  {
    hide WorldBefore;
    if i + 1 < |cmds| {
      WorldBeforeTail(sys, w, cmds, i + 1);
    }
  }

  /** Running throws exactly when a command that is reached raises, and leaves the world
      as that command left it. */
  lemma {:induction false} RunThrowsExactlyWhen<W>(sys: System<W>, w: W, cmds: seq<Command>, after: W)
    ensures Run(sys, w, cmds) == Threw(after) <==> exists i :: RaisesAt(sys, w, cmds, i, after)
    decreases |cmds|
  {
    if cmds == [] {
    } else {
      var first := sys(w, cmds[0]);
      assert RaisesAt(sys, w, cmds, 0, after) <==> first == Raised(after);
      if i: nat :| RaisesAt(sys, w, cmds, i, after) {
        if i > 0 {
          RaisesLater(sys, w, cmds, i - 1, after);
          RunThrowsExactlyWhen(sys, first.world, cmds[1..], after);
        }
      } else if first.Exited? && first.code == 0 {
        RunThrowsExactlyWhen(sys, first.world, cmds[1..], after);
        if i: nat :| RaisesAt(sys, first.world, cmds[1..], i, after) {
          RaisesLater(sys, w, cmds, i, after);
          assert false;
        }
      }
    }
  }

  /** The output of the first `i` commands, one after the other. */
  function OutputBefore<W>(sys: System<W>, w: W, cmds: seq<Command>, i: nat): string
    requires i <= |cmds| && WorldBefore(sys, w, cmds, i).Some?
    decreases i
  {
    if i == 0 then ""
    else OutputBefore(sys, w, cmds, i - 1) + sys(WorldBefore(sys, w, cmds, i - 1).value, cmds[i - 1]).output
  }

  lemma {:induction false} OutputBeforeTail<W>(sys: System<W>, w: W, cmds: seq<Command>, i: nat)
    requires 1 <= i <= |cmds| && WorldBefore(sys, w, cmds, i).Some?
    ensures var first := sys(w, cmds[0]);
            && first.Exited? && first.code == 0
            && WorldBefore(sys, first.world, cmds[1..], i - 1) == WorldBefore(sys, w, cmds, i)
            && OutputBefore(sys, w, cmds, i) == first.output + OutputBefore(sys, first.world, cmds[1..], i - 1)
    decreases i
  {
    var first := sys(w, cmds[0]);
    WorldBeforeTail(sys, w, cmds, i);
    if i == 1 {
      assert WorldBefore(sys, w, cmds, 0) == Some(w);
      assert OutputBefore(sys, w, cmds, 0) == "";
      assert OutputBefore(sys, first.world, cmds[1..], 0) == "";
      assert "" + first.output == first.output + "";
    } else {
      WorldBeforeTail(sys, w, cmds, i - 1);
      OutputBeforeTail(sys, w, cmds, i - 1);
      var tail := OutputBefore(sys, first.world, cmds[1..], i - 2);
      var last := sys(WorldBefore(sys, w, cmds, i - 1).value, cmds[i - 1]).output;
      assert cmds[1..][i - 2] == cmds[i - 1];
      assert first.output + tail + last == first.output + (tail + last);
    }
  }

  /** Running stops at the first command with a non-zero exit code, with its code, and else
      at the end, with 0; and has the output of every command executed until then. */
  lemma {:induction false} RunStopsAtFirstFailure<W>(sys: System<W>, w: W, cmds: seq<Command>, i: nat)
    requires i <= |cmds| && WorldBefore(sys, w, cmds, i).Some?
    ensures var here, log := WorldBefore(sys, w, cmds, i).value, OutputBefore(sys, w, cmds, i);
            if i == |cmds| then Run(sys, w, cmds) == Finished(here, 0, log)
            else
              var c := sys(here, cmds[i]);
              c.Exited? && c.code != 0 ==> Run(sys, w, cmds) == Finished(c.world, c.code, log + c.output)
    decreases |cmds|
  {
    if i == 0 {
      assert WorldBefore(sys, w, cmds, 0) == Some(w) && OutputBefore(sys, w, cmds, 0) == "";
      assert forall o: string :: "" + o == o;
    } else {
      var first := sys(w, cmds[0]);
      OutputBeforeTail(sys, w, cmds, i);
      RunStopsAtFirstFailure(sys, first.world, cmds[1..], i - 1);
      var tail := OutputBefore(sys, first.world, cmds[1..], i - 1);
      assert forall o: string :: first.output + (tail + o) == first.output + tail + o;
      assert i < |cmds| ==> cmds[1..][i - 1] == cmds[i];
    }
  }

  // --------------------------------------------------------------- refinement

  /** On a command the resident, when it returns, returns what running it would. */
  predicate Mirrors<W(==)>(sys: System<W>, resident: Resident<W>, w: W, c: Command) {
    match resident(w, WorkerArgs(c))
    case Failed(_) => true
    case Returned(done, code, out) => sys(w, c) == Exited(done, code, out)
  }

  /** Forwarding the first command refines running the whole plan, for every length of the
      plan. Without a resident, and behind one that returns, the world, exit code and
      output are those of running the plan, unless that throws: then the plan is run once
      more from where it stopped. Behind one that fails the plan is run from where that
      has left the world. */
  lemma ForwardingRefinesRunning<W>(sys: System<W>, resident: Option<Resident<W>>, w: W, cmds: seq<Command>)
    requires resident.Some? && cmds != [] ==> Mirrors(sys, resident.value, w, cmds[0])
    ensures var forwarded, ran := CompileCmds(sys, resident, w, cmds), Run(sys, w, cmds);
            if resident.None? || cmds == [] then forwarded == ran
            else
              var r := resident.value(w, WorkerArgs(cmds[0]));
              forwarded == if r.Failed? then Run(sys, r.world, cmds)
                           else if ran.Threw? then Run(sys, ran.world, cmds)
                           else ran
  {
    if resident.Some? && cmds != [] {
      var r := resident.value(w, WorkerArgs(cmds[0]));
      if r.Returned? && r.code == 0 {
        assert Run(sys, w, cmds) == match Run(sys, r.world, cmds[1..])
                                    case Threw(w'') => Threw(w'')
                                    case Finished(w'', c, o) => Finished(w'', c, r.output + o);
        if cmds[1..] == [] {
          assert r.output + "" == r.output;
        }
      }
    }
  }

  predicate OneProgram(cmds: seq<Command>, program: string) {
    forall c :: c in cmds ==> c != [] && c[0] == program
  }

  lemma PlanIsOneProgram(req: CompileRequest, st: Setting, cmds: seq<Command>)
    requires Plan(req, st) == Some(cmds)
    ensures OneProgram(cmds, st.elide) && cmds != []
    ensures cmds[0] == [st.elide, "kotlinc"] + WorkerArgs(cmds[0])
  {
    hide NativeOptions, Opt, PluginsOption, Behind, Refused;
    var kt := Kotlinc(req, st);
    assert Before(req, st)[..2] == [st.elide, "kotlinc"];
    assert kt == Before(req, st)[..2] + kt[2..];
  }

  /** The resident path against the one-shot path on every plan, behind a resident that
      returns: the same world, exit code and output, exactly unless the compile succeeds,
      the source jar that is left to do raises, and doing both again does not end the same
      way. */
  lemma ResidentRefinesOneShot<W>(
    sys: System<W>, resident: Resident<W>, w: W, req: CompileRequest, st: Setting, cmds: seq<Command>)
    requires Plan(req, st) == Some(cmds) && cmds != []
    requires Mirrors(sys, resident, w, cmds[0]) && resident(w, WorkerArgs(cmds[0])).Returned?
    ensures var r := resident(w, WorkerArgs(cmds[0]));
            CompileCmds(sys, Some(resident), w, cmds) == Run(sys, w, cmds) <==>
            (r.code == 0 && |cmds| == 2 && sys(r.world, cmds[1]).Raised? ==>
               Run(sys, sys(r.world, cmds[1]).world, cmds) == Threw(sys(r.world, cmds[1]).world))
  {
    hide Kotlinc, Refused, CompileCmds, Run;
    var r := resident(w, WorkerArgs(cmds[0]));
    ForwardingRefinesRunning(sys, Some(resident), w, cmds);
    assert |cmds| <= 2;
    if |cmds| == 2 {
      RunOfTwo(sys, w, cmds);
    } else {
      RunOfOne(sys, w, cmds);
    }
  }

  lemma RunOfOne<W>(sys: System<W>, w: W, cmds: seq<Command>)
    requires |cmds| == 1
    ensures Run(sys, w, cmds).Threw? <==> sys(w, cmds[0]).Raised?
  {
    assert cmds[1..] == [];
  }

  lemma RunOfTwo<W>(sys: System<W>, w: W, cmds: seq<Command>)
    requires |cmds| == 2 && sys(w, cmds[0]).Exited?
    ensures var first := sys(w, cmds[0]);
            Run(sys, w, cmds).Threw? <==> first.code == 0 && sys(first.world, cmds[1]).Raised?
    ensures var first := sys(w, cmds[0]);
            Run(sys, w, cmds).Threw? ==> Run(sys, w, cmds) == Threw(sys(first.world, cmds[1]).world)
  {
    assert cmds[1..] == [cmds[1]];
    RunOfOne(sys, sys(w, cmds[0]).world, cmds[1..]);
  }

  /** In particular the two paths are equal when nothing raises. */
  lemma NothingRaisesNothingDiffers<W>(
    sys: System<W>, resident: Resident<W>, w: W, req: CompileRequest, st: Setting, cmds: seq<Command>)
    requires Plan(req, st) == Some(cmds) && cmds != []
    requires Mirrors(sys, resident, w, cmds[0]) && resident(w, WorkerArgs(cmds[0])).Returned?
    requires forall i, after :: !RaisesAt(sys, w, cmds, i, after)
    ensures CompileCmds(sys, Some(resident), w, cmds) == Run(sys, w, cmds)
  {
    hide Plan, CompileCmds, RaisesAt;
    ForwardingRefinesRunning(sys, Some(resident), w, cmds);
    if Run(sys, w, cmds).Threw? {
      RunThrowsExactlyWhen(sys, w, cmds, Run(sys, w, cmds).world);
      assert false;
    }
  }

  /** The exception is real: where the second command raises once, the one-shot path throws
      and the resident path, trying again, succeeds. The world counts the commands. */
  lemma LateFailureIsRetried(resident: Resident<nat>, req: CompileRequest, st: Setting, cmds: seq<Command>)
    requires Plan(req, st) == Some(cmds) && |cmds| == 2
    requires resident(0, WorkerArgs(cmds[0])) == Returned(1, 0, "")
    ensures var sys: System<nat> := (w, c) => if w == 1 then Raised(2) else Exited(w + 1, 0, "");
            && Run(sys, 0, cmds) == Threw(2)
            && CompileCmds(sys, Some(resident), 0, cmds) == Finished(4, 0, "")
  {
    hide Plan, CompileCmds;
    var sys: System<nat> := (w, c) => if w == 1 then Raised(2) else Exited(w + 1, 0, "");
    assert cmds[1..] == [cmds[1]] && [cmds[1]][1..] == [];
    assert Run(sys, 4, []) == Finished(4, 0, "");
    assert Run(sys, 3, [cmds[1]]) == Finished(4, 0, "");
    assert Run(sys, 2, cmds) == Finished(4, 0, "");
    assert Run(sys, 1, [cmds[1]]) == Threw(2);
    ForwardingRefinesRunning(sys, Some(resident), 0, cmds);
  }

  // ------------------------------------------------------------------ the code

  /** `run`, with its string builder. */
  method Execute<W>(sys: System<W>, w: W, cmds: seq<Command>) returns (r: Outcome<W>)
    ensures r == Run(sys, w, cmds)
  {
    var world, output := w, "";
    assert cmds[0..] == cmds;
    assert forall o: string :: "" + o == o;
    for i := 0 to |cmds|
      invariant Run(sys, w, cmds) == match Run(sys, world, cmds[i..])
                                     case Threw(w') => Threw(w')
                                     case Finished(w', c, o) => Finished(w', c, output + o)
    {
      assert cmds[i..][0] == cmds[i] && cmds[i..][1..] == cmds[i + 1..];
      var execution := sys(world, cmds[i]);
      world := execution.world;
      if execution.Raised? {
        return Threw(world);
      }
      assert forall o: string :: output + (execution.output + o) == output + execution.output + o;
      output := output + execution.output;
      if execution.code != 0 {
        return Finished(world, execution.code, output);
      }
    }
    assert output + "" == output;
    return Finished(world, 0, output);
  }
}
