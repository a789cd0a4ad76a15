/**
 * The merge of `benchmarks/java_partial_compile.py`: a partial compile of the changed
 * sources laid over the baseline, in place of a full compile. A compile is known by the
 * classes it emits, each with the source it comes from.
 */
module PartialCompile {
  import opened Common

  type ClassFiles = map<string, Bytes>

  /** A class file and the source that emitted it. */
  datatype Emitted = Emitted(source: string, contents: Bytes)

  type Compile = map<string, Emitted>

  /** What `classes` reads from the jar of a compile. */
  function Contents(c: Compile): ClassFiles {
    map name | name in c :: c[name].contents
  }

  /** The classes that a compile owes to the changed sources. */
  function Share(full: Compile, changed: set<string>): Compile {
    map name | name in full && full[name].source in changed :: full[name]
  }

  /** What is asked of the compiler: the compile of the changed sources alone, against the
      baseline, emits what the full compile emits for them. */
  predicate EmitsItsShare(partial: ClassFiles, full: Compile, changed: set<string>) {
    partial == Contents(Share(full, changed))
  }

  /** The name test of the merge: the prefix's own class or one nested in it. */
  predicate Matches(name: string, prefix: string) {
    name == prefix + ".class" || StartsWith(name, prefix + "$")
  }

  predicate Stale(name: string, changed: set<string>, prefixOf: string -> string) {
    exists s :: s in changed && Matches(name, prefixOf(s))
  }

  /** The merged dictionary: the baseline without the stale names, updated with the
      partial output. */
  function Merged(baseline: ClassFiles, partial: ClassFiles, changed: set<string>, prefixOf: string -> string)
    : ClassFiles
  {
    (map name | name in baseline && !Stale(name, changed, prefixOf) :: baseline[name]) + partial
  }

  /** Sources that did not change emit what they emitted before. */
  ghost predicate UnchangedEmitTheSame(before: Compile, after: Compile, changed: set<string>) {
    && (forall n :: n in before && before[n].source !in changed ==> n in after && after[n] == before[n])
    && (forall n :: n in after && after[n].source !in changed ==> n in before && before[n] == after[n])
  }

  /** No class that a changed source has stopped emitting escapes the name test. */
  ghost predicate NoLeftover(before: Compile, after: Compile, changed: set<string>, prefixOf: string -> string) {
    forall n :: n in before && before[n].source in changed && n !in after ==> Stale(n, changed, prefixOf)
  }

  /** No class of an unchanged source is taken for one of a changed source. */
  ghost predicate NoMistake(after: Compile, changed: set<string>, prefixOf: string -> string) {
    forall n :: n in after && after[n].source !in changed ==> !Stale(n, changed, prefixOf)
  }

  /** Which classes are merged, and from where: those of the partial compile, and those of
      the baseline that are not named after a changed source, be it in full or up to a `$`. */
  lemma MergeIsByName(
    baseline: ClassFiles, partial: ClassFiles, changed: set<string>, prefixOf: string -> string, name: string)
    ensures var merged := Merged(baseline, partial, changed, prefixOf);
            && (name in merged <==>
                  || name in partial
                  || (name in baseline
                      && forall s :: s in changed ==>
                           name != prefixOf(s) + ".class" && !Within(name, prefixOf(s) + "$")))
            && (name in merged ==> merged[name] == if name in partial then partial[name] else baseline[name])
  {
    hide Matches;
    forall s
      ensures Matches(name, prefixOf(s)) <==> name == prefixOf(s) + ".class" || Within(name, prefixOf(s) + "$")
    {
      MatchesIsByName(name, prefixOf(s));
    }
  }

  /** Some characters, or none, behind a prefix. */
  ghost predicate Within(name: string, prefix: string) {
    exists rest :: name == prefix + rest
  }

  lemma MatchesIsByName(name: string, prefix: string)
    ensures Matches(name, prefix) <==> name == prefix + ".class" || Within(name, prefix + "$")
  {
    if StartsWith(name, prefix + "$") {
      assert name == prefix + "$" + name[|prefix + "$"|..];
    }
  }

  /** The merge equals the full compile exactly when the name test errs on no side: it
      catches every class that has disappeared and spares every class of an unchanged
      source. */
  lemma MergeIsFullExactlyWhen(
    before: Compile, after: Compile, partial: ClassFiles, changed: set<string>, prefixOf: string -> string)
    requires UnchangedEmitTheSame(before, after, changed) && EmitsItsShare(partial, after, changed)
    ensures Merged(Contents(before), partial, changed, prefixOf) == Contents(after)
            <==> NoLeftover(before, after, changed, prefixOf) && NoMistake(after, changed, prefixOf)
  {
    hide Stale;
    var merged := Merged(Contents(before), partial, changed, prefixOf);
    var full := Contents(after);
    if NoLeftover(before, after, changed, prefixOf) && NoMistake(after, changed, prefixOf) {
      MergedHasAll(before, after, partial, changed, prefixOf);
      assert merged.Keys == full.Keys;
      assert merged == full;
    }
    if merged == full {
      forall n | n in before && before[n].source in changed && n !in after
        ensures Stale(n, changed, prefixOf)
      {
        assert n !in merged;
      }
      forall n | n in after && after[n].source !in changed
        ensures !Stale(n, changed, prefixOf)
      {
        assert n in merged && n !in partial;
      }
    }
  }

  lemma MergedHasAll(
    before: Compile, after: Compile, partial: ClassFiles, changed: set<string>, prefixOf: string -> string)
    requires UnchangedEmitTheSame(before, after, changed) && EmitsItsShare(partial, after, changed)
    requires NoLeftover(before, after, changed, prefixOf) && NoMistake(after, changed, prefixOf)
    ensures var merged := Merged(Contents(before), partial, changed, prefixOf);
            forall n :: (n in merged <==> n in after) && (n in after ==> merged[n] == after[n].contents)
  {
    hide Stale;
  }

  /** Every class is named after its source, with or without a nested part. */
  ghost predicate NamedAfterSource(c: Compile, prefixOf: string -> string) {
    forall n :: n in c ==> Matches(n, prefixOf(c[n].source))
  }

  /** Under the naming convention the merge is the full compile, for every set of changed
      sources whose prefixes no other source's classes carry. */
  lemma NamingMakesMergeFull(
    before: Compile, after: Compile, partial: ClassFiles, changed: set<string>, prefixOf: string -> string)
    requires UnchangedEmitTheSame(before, after, changed) && EmitsItsShare(partial, after, changed)
    requires NamedAfterSource(before, prefixOf) && NoMistake(after, changed, prefixOf)
    ensures Merged(Contents(before), partial, changed, prefixOf) == Contents(after)
  {
    MergeIsFullExactlyWhen(before, after, partial, changed, prefixOf);
  }

  /** The names that the merge has and the full compile has not: exactly the vanished
      classes of changed sources that the name test misses. */
  lemma LeftBehind(
    before: Compile, after: Compile, partial: ClassFiles, changed: set<string>, prefixOf: string -> string)
    requires UnchangedEmitTheSame(before, after, changed) && EmitsItsShare(partial, after, changed)
    ensures Merged(Contents(before), partial, changed, prefixOf).Keys - Contents(after).Keys
         == set n | n in before && before[n].source in changed && n !in after && !Stale(n, changed, prefixOf)
  {
    hide Stale;
  }

  /** The secondary class of `boundary_probes`: `Api.java` also owns `Helper` and the
      class nested in it; when that one is deleted the merge still has it, and it is the
      only class left behind. */
  lemma SecondaryClassIsLeftBehind(api: Bytes, helper: Bytes, hidden: Bytes)
    ensures var source, left := "probe/Api", "probe/Helper$Hidden.class";
            var after := map["probe/Api.class" := Emitted(source, api),
                             "probe/Helper.class" := Emitted(source, helper)];
            var before := after[left := Emitted(source, hidden)];
            Merged(Contents(before), Contents(Share(after, {source})), {source}, s => s).Keys
            - Contents(after).Keys == {left}
  {
    hide Merged, Contents, Share;
    var left := "probe/Helper$Hidden.class";
    LeftIsMissed();
    assert |"probe/Api.class"| < |left| && |"probe/Helper.class"| < |left|;
    SecondaryClass("probe/Api", left, "probe/Api.class", "probe/Helper.class", s => s, api, helper, hidden);
  }

  lemma LeftIsMissed()
    ensures !Matches("probe/Helper$Hidden.class", "probe/Api")
  {
    var left := "probe/Helper$Hidden.class";
    assert left[6] == 'H' && ("probe/Api" + ".class")[6] == 'A' && ("probe/Api" + "$")[6] == 'A';
  }

  lemma SecondaryClass(
    source: string, left: string, first: string, second: string, prefixOf: string -> string,
    api: Bytes, helper: Bytes, hidden: Bytes)
    requires left != first && left != second && !Matches(left, prefixOf(source))
    ensures var after := map[first := Emitted(source, api), second := Emitted(source, helper)];
            var before := after[left := Emitted(source, hidden)];
            Merged(Contents(before), Contents(Share(after, {source})), {source}, prefixOf).Keys
            - Contents(after).Keys == {left}
  {
    hide Merged, Contents, Share, Matches;
    var after := map[first := Emitted(source, api), second := Emitted(source, helper)];
    var before := after[left := Emitted(source, hidden)];
    LeftBehind(before, after, Contents(Share(after, {source})), {source}, prefixOf);
    assert before[left].source in {source};
  }

  /** The merge as the script performs it: a comprehension, then an update in place. */
  method MergeClasses(baseline: ClassFiles, partial: ClassFiles, changed: set<string>, prefixOf: string -> string)
    returns (merged: ClassFiles)
    ensures merged == Merged(baseline, partial, changed, prefixOf)
  {
    merged := map name | name in baseline && !Stale(name, changed, prefixOf) :: baseline[name];
    var names := partial.Keys;
    ghost var kept := merged;
    while names != {}
      invariant names <= partial.Keys
      invariant merged == kept + (map name | name in partial && name !in names :: partial[name])
    {
      var name :| name in names;
      merged := merged[name := partial[name]];
      names := names - {name};
    }
    assert (map name | name in partial && name !in names :: partial[name]) == partial;
  }
}
