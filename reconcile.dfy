/**
  One reconciliation pass (the body of `main`): build the declared set, remove every
  labelled container that is no longer declared, then bring each declared container
  in line with its command. The pass is a method over the runtime, proved equal to a
  pure description (`Pass`) about which the per-name transitions and idempotence are proved.
 */
module Reconcile {
  import opened Wrappers
  import opened Strs
  import opened Base64
  import opened Dns
  import opened Runtime

  /** `shellquote.Split`: the words of a command line, or None when its quoting is malformed. */
  type Splitter = string -> Option<seq<string>>

  /** The configuration the program runs with: DNS prefix, host name, inheritance switch. */
  datatype Config = Config(prefix: string, hostname: string, inheritance: bool)

  /** The containers DNS declares for the host. */
  function DeclaredSet(dns: Resolver, cfg: Config): set<string>
  {
    Declared(dns, RecordNames(cfg.prefix, cfg.hostname), cfg.inheritance)
  }

  /** The command line DNS gives a container ("" when it gives none). */
  function Command(dns: Resolver, cfg: Config, name: string): string
  {
    ContainerCommands(dns, name, cfg.prefix, cfg.hostname)
  }

  /** The argument vector of the `docker run` that launches `name` with the split command `words`. */
  function LaunchArgs(name: string, fp: string, words: seq<string>): seq<string>
  {
    ["run", "-d", "--name", name, "--label", LabelKey + "=" + fp] + words
  }

  /**
    The decision for one declared name, given the runtime's state when it is handled:
    an empty command removes an existing container; a command that does not split is
    skipped; otherwise the container is started when absent, left alone when its label
    matches the command's fingerprint, and replaced when it does not.
   */
  function Step(s: State, name: string, cmd: string, split: Splitter): (acts: seq<Action>)
    ensures forall i :: 0 <= i < |acts| ==> acts[i].name == name
    ensures forall i :: 0 <= i < |acts| && acts[i].Rm? ==> 0 < i && acts[i - 1] == Kill(name)
    ensures forall i :: 0 <= i < |acts| && acts[i].Run? ==>
      && cmd != "" && split(cmd).Some?
      && acts[i] == Run(name, Fingerprint(cmd), LaunchArgs(name, Fingerprint(cmd), split(cmd).value))
  {
    if cmd == "" then
      if InspectOutput(s, name).Some? then [Kill(name), Rm(name)] else []
    else match split(cmd)
      case None => []
      case Some(words) =>
        var fp := Fingerprint(cmd);
        var launch := LaunchArgs(name, fp, words);
        match InspectOutput(s, name)
        case None => [Run(name, fp, launch)]
        case Some(out) =>
          if TrimNewlines(out) == fp then [] else [Kill(name), Rm(name), Run(name, fp, launch)]
  }

  /** The cleanup of the listed names: a kill and a remove for each one that is not declared. */
  function Cleanup(listed: seq<string>, declared: set<string>): (acts: seq<Action>)
    ensures forall i :: 0 <= i < |acts| ==> !acts[i].Run? && acts[i].name in listed && acts[i].name !in declared
    decreases |listed|
  {
    if listed == [] then []
    else
      var n := listed[|listed| - 1];
      Cleanup(listed[..|listed| - 1], declared) + (if n in declared then [] else [Kill(n), Rm(n)])
  }

  lemma CleanupSnoc(init: seq<string>, m: string, declared: set<string>)
    ensures Cleanup(init + [m], declared) ==
      Cleanup(init, declared) + (if m in declared then [] else [Kill(m), Rm(m)])
    ensures m in declared ==> Cleanup(init + [m], declared) == Cleanup(init, declared)
  {
    assert (init + [m])[..|init|] == init;
    assert Cleanup(init, declared) + [] == Cleanup(init, declared);
  }

  /** The actions for the declared names handled in `order`, each decided on the state left by the ones before. */
  function Steps(s: State, order: seq<string>, dns: Resolver, split: Splitter, cfg: Config): seq<Action>
    decreases |order|
  {
    if order == [] then []
    else
      var before := Steps(s, order[..|order| - 1], dns, split, cfg);
      var n := order[|order| - 1];
      before + Step(ApplyAll(s, before), n, Command(dns, cfg, n), split)
  }

  lemma StepsSnoc(s: State, init: seq<string>, m: string, dns: Resolver, split: Splitter, cfg: Config)
    ensures Steps(s, init + [m], dns, split, cfg) ==
      Steps(s, init, dns, split, cfg) + Step(ApplyAll(s, Steps(s, init, dns, split, cfg)), m, Command(dns, cfg, m), split)
  {
    assert (init + [m])[..|init|] == init;
  }

  /** The actions of a whole pass: the cleanup first, then every declared name. */
  function Pass(s: State, dns: Resolver, split: Splitter, cfg: Config, listed: seq<string>, order: seq<string>): seq<Action>
  {
    var cleanup := Cleanup(listed, DeclaredSet(dns, cfg));
    cleanup + Steps(ApplyAll(s, cleanup), order, dns, split, cfg)
  }

  /**
    What splitting the `ps` output yields: the labelled names, each once, followed by
    the empty piece after the final newline; nothing when the listing fails.
   */
  ghost predicate ListingOf(s: State, listed: seq<string>)
  {
    if s.up then
      |listed| >= 1 && listed[|listed| - 1] == "" && Enumerates(listed[..|listed| - 1], Labelled(s))
    else listed == []
  }

  // ------------------------------------------------------------- the pass

  /** `docker kill` then `docker rm` of one name. */
  method KillAndRemove(docker: Docker, name: string)
    requires docker.Valid()
    modifies docker
    ensures docker.Valid()
    ensures docker.trace == old(docker.trace) + [Kill(name), Rm(name)]
    ensures docker.Snapshot() == ApplyAll(old(docker.Snapshot()), [Kill(name), Rm(name)])
  {
    ghost var s := docker.Snapshot();
    docker.Kill(name);
    docker.Rm(name);
    ApplyAllTwo(s, Kill(name), Rm(name));
  }

  /** The loop body of `main` for one declared name. */
  method ConvergeOne(docker: Docker, name: string, commandLine: string, split: Splitter)
    requires docker.Valid()
    modifies docker
    ensures docker.Valid()
    ensures docker.trace == old(docker.trace) + Step(old(docker.Snapshot()), name, commandLine, split)
    ensures docker.Snapshot() == ApplyAll(old(docker.Snapshot()), Step(old(docker.Snapshot()), name, commandLine, split))
  {
    ghost var s := docker.Snapshot();
    var fp := Fingerprint(commandLine);
    if commandLine == "" {
      var inspected := docker.Inspect(name);
      if inspected.Some? {
        KillAndRemove(docker, name);
      }
    } else {
      var words := split(commandLine);
      if words.Some? {
        var launch := LaunchArgs(name, fp, words.value);
        var inspected := docker.Inspect(name);
        if inspected.None? {
          docker.Run(name, fp, launch);
          assert [Run(name, fp, launch)][1..] == [];
          assert ApplyAll(s, [Run(name, fp, launch)]) == ApplyAll(Apply(s, Run(name, fp, launch)), []);
        } else if TrimNewlines(inspected.value) != fp {
          docker.Kill(name);
          docker.Rm(name);
          docker.Run(name, fp, launch);
          ApplyAllThree(s, Kill(name), Rm(name), Run(name, fp, launch));
        }
      }
    }
  }

  /** Splitting the listing of a well-formed runtime at newlines gives pieces as `ListingOf` describes them. */
  lemma ListingPieces(s: State, names: seq<string>)
    requires s.up && WellFormed(s) && Enumerates(names, Labelled(s))
    ensures ListingOf(s, Split(ListingOutput(names), '\n'))
  {
    forall i | 0 <= i < |names|
      ensures '\n' !in names[i]
    {
      assert names[i] in Labelled(s);
    }
    ListingLines(names);
    var listed := Split(ListingOutput(names), '\n');
    assert listed[..|listed| - 1] == names;
  }

  /** How the cleanup of a listing prefix grows by one listed name. */
  lemma CleanupNext(listed: seq<string>, i: nat, declared: set<string>)
    requires i < |listed|
    ensures listed[i] in declared ==> Cleanup(listed[..i + 1], declared) == Cleanup(listed[..i], declared)
    ensures listed[i] !in declared ==>
      Cleanup(listed[..i + 1], declared) == Cleanup(listed[..i], declared) + [Kill(listed[i]), Rm(listed[i])]
  {
    assert listed[..i + 1] == listed[..i] + [listed[i]];
    CleanupSnoc(listed[..i], listed[i], declared);
  }

  /** Kill then remove every listed name that is not declared, in listing order. */
  method RemoveUndeclared(docker: Docker, listed: seq<string>, declared: set<string>)
    requires docker.Valid()
    modifies docker
    ensures docker.Valid()
    ensures docker.trace == old(docker.trace) + Cleanup(listed, declared)
    ensures docker.Snapshot() == ApplyAll(old(docker.Snapshot()), Cleanup(listed, declared))
  {
    ghost var s0 := docker.Snapshot();
    ghost var t0 := docker.trace;
    ghost var done: seq<Action> := [];
    var i := 0;
    assert ApplyAll(s0, []) == s0;
    while i < |listed|
      invariant 0 <= i <= |listed|
      invariant done == Cleanup(listed[..i], declared)
      invariant docker.Valid()
      invariant docker.trace == t0 + done
      invariant docker.Snapshot() == ApplyAll(s0, done)
    {
      var n := listed[i];
      CleanupNext(listed, i, declared);
      if n !in declared {
        KillAndRemove(docker, n);
        ApplyAllAppend(s0, done, [Kill(n), Rm(n)]);
        AppendAssoc(t0, done, [Kill(n), Rm(n)]);
        done := done + [Kill(n), Rm(n)];
      }
      i := i + 1;
    }
    assert listed[..i] == listed;
  }

  /**
    The cleanup phase: list the labelled containers and kill then remove every listed
    name that is not declared. Returns the pieces of the listing (none when it fails).
   */
  method CleanupListed(docker: Docker, declared: set<string>) returns (listed: seq<string>)
    requires docker.Valid()
    modifies docker
    ensures docker.Valid()
    ensures ListingOf(old(docker.Snapshot()), listed)
    ensures docker.trace == old(docker.trace) + Cleanup(listed, declared)
    ensures docker.Snapshot() == ApplyAll(old(docker.Snapshot()), Cleanup(listed, declared))
  {
    ghost var s0 := docker.Snapshot();
    var namesOut, lorder := docker.List();
    if namesOut.None? {
      assert Cleanup([], declared) == [];
      assert ApplyAll(s0, []) == s0;
      return [];
    }
    ListingPieces(s0, lorder);
    listed := Split(namesOut.value, '\n');
    RemoveUndeclared(docker, listed, declared);
  }

  /** The second phase: every declared container, in the order the set is iterated. */
  method ConvergeDeclared(docker: Docker, dns: Resolver, split: Splitter, cfg: Config, declared: set<string>)
    returns (order: seq<string>)
    requires docker.Valid()
    modifies docker
    ensures docker.Valid()
    ensures Enumerates(order, declared)
    ensures docker.trace == old(docker.trace) + Steps(old(docker.Snapshot()), order, dns, split, cfg)
    ensures docker.Snapshot() == ApplyAll(old(docker.Snapshot()), Steps(old(docker.Snapshot()), order, dns, split, cfg))
  {
    ghost var s1 := docker.Snapshot();
    ghost var t1 := docker.trace;
    var remaining := declared;
    order := [];
    assert Steps(s1, order, dns, split, cfg) == [];
    assert ApplyAll(s1, []) == s1;
    while remaining != {}
      invariant remaining <= declared
      invariant Distinct(order)
      invariant forall x :: x in order <==> x in declared && x !in remaining
      invariant docker.Valid()
      invariant docker.trace == t1 + Steps(s1, order, dns, split, cfg)
      invariant docker.Snapshot() == ApplyAll(s1, Steps(s1, order, dns, split, cfg))
      decreases remaining
    {
      var containerName :| containerName in remaining;
      ghost var before := Steps(s1, order, dns, split, cfg);
      ghost var cur := docker.Snapshot();
      var commandLine := Command(dns, cfg, containerName);
      ConvergeOne(docker, containerName, commandLine, split);
      ghost var step := Step(cur, containerName, commandLine, split);
      StepsSnoc(s1, order, containerName, dns, split, cfg);
      ApplyAllAppend(s1, before, step);
      VisitNext(order, remaining, declared, containerName);
      AppendAssoc(t1, before, step);
      order := order + [containerName];
      remaining := remaining - {containerName};
    }
  }

  /** Moving one name from the pending set to the visited order keeps the order an enumeration of what was visited. */
  lemma VisitNext(order: seq<string>, remaining: set<string>, declared: set<string>, x: string)
    requires Distinct(order) && x in remaining && remaining <= declared
    requires forall y :: y in order <==> y in declared && y !in remaining
    ensures Distinct(order + [x])
    ensures forall y :: y in order + [x] <==> y in declared && y !in remaining - {x}
  {
    DistinctSnoc(order, x);
  }

  /**
    One run of the program against `docker`, returning the declared set, the pieces of
    the listing it cleaned up from and the order it visited the declared names in.
   */
  method Reconcile(docker: Docker, dns: Resolver, split: Splitter, cfg: Config)
    returns (declared: set<string>, listed: seq<string>, order: seq<string>)
    requires docker.Valid()
    modifies docker
    ensures docker.Valid()
    ensures declared == DeclaredSet(dns, cfg)
    ensures ListingOf(old(docker.Snapshot()), listed)
    ensures Enumerates(order, declared)
    ensures docker.trace == old(docker.trace) + Pass(old(docker.Snapshot()), dns, split, cfg, listed, order)
    ensures docker.Snapshot() == ApplyAll(old(docker.Snapshot()), Pass(old(docker.Snapshot()), dns, split, cfg, listed, order))
  {
    ghost var s0 := docker.Snapshot();
    ghost var t0 := docker.trace;
    var queried;
    declared, queried := ContainerRecords(dns, cfg.prefix, cfg.hostname, cfg.inheritance);
    listed := CleanupListed(docker, declared);
    ghost var cleanup := Cleanup(listed, declared);
    ghost var s1 := docker.Snapshot();
    ghost var t1 := docker.trace;
    order := ConvergeDeclared(docker, dns, split, cfg, declared);
    ghost var steps := Steps(s1, order, dns, split, cfg);
    PassPhases(s0, dns, split, cfg, listed, order);
    AppendAssoc(t0, cleanup, steps);
  }

  /** A pass is its cleanup followed by the declared-name phase run on the state the cleanup leaves. */
  lemma PassPhases(s: State, dns: Resolver, split: Splitter, cfg: Config, listed: seq<string>, order: seq<string>)
    ensures var cleanup := Cleanup(listed, DeclaredSet(dns, cfg));
      var steps := Steps(ApplyAll(s, cleanup), order, dns, split, cfg);
      && Pass(s, dns, split, cfg, listed, order) == cleanup + steps
      && ApplyAll(s, Pass(s, dns, split, cfg, listed, order)) == ApplyAll(ApplyAll(s, cleanup), steps)
  {
    var cleanup := Cleanup(listed, DeclaredSet(dns, cfg));
    ApplyAllAppend(s, cleanup, Steps(ApplyAll(s, cleanup), order, dns, split, cfg));
  }

  // ------------------------------------------------- per-name transitions

  /** A name's decision depends only on whether the runtime answers and on that name's own entry. */
  lemma StepLocal(s1: State, s2: State, name: string, cmd: string, split: Splitter)
    requires s1.up == s2.up && Entry(s1, name) == Entry(s2, name)
    ensures Step(s1, name, cmd, split) == Step(s2, name, cmd, split)
  {
    assert InspectOutput(s1, name) == InspectOutput(s2, name);
  }

  /** Of the cleanup, a listed undeclared name receives exactly a kill and then a remove; any other name nothing. */
  lemma {:induction false} CleanupProject(listed: seq<string>, declared: set<string>, n: string)
    requires Distinct(listed)
    ensures Project(Cleanup(listed, declared), n) ==
      if n in listed && n !in declared then [Kill(n), Rm(n)] else []
    decreases |listed|
  {
    if listed != [] {
      var init, m := listed[..|listed| - 1], listed[|listed| - 1];
      assert listed == init + [m];
      DistinctInit(listed);
      CleanupProject(init, declared, n);
      CleanupSnocProject(init, m, declared, n);
    } else {
      assert Cleanup(listed, declared) == [];
    }
  }

  lemma CleanupSnocProject(init: seq<string>, m: string, declared: set<string>, n: string)
    requires m !in init
    requires Project(Cleanup(init, declared), n) == if n in init && n !in declared then [Kill(n), Rm(n)] else []
    ensures Project(Cleanup(init + [m], declared), n) ==
      if n in init + [m] && n !in declared then [Kill(n), Rm(n)] else []
  {
    var tail: seq<Action> := if m in declared then [] else [Kill(m), Rm(m)];
    CleanupSnoc(init, m, declared);
    ProjectAppend(Cleanup(init, declared), tail, n);
    ProjectOwn(tail, m, n);
  }

  /** Of the declared-name actions, a name visited once receives exactly its own decision, taken on its initial entry. */
  lemma {:induction false} StepsProject(s: State, order: seq<string>, dns: Resolver, split: Splitter, cfg: Config, n: string)
    requires Distinct(order)
    ensures Project(Steps(s, order, dns, split, cfg), n) ==
      if n in order then Step(s, n, Command(dns, cfg, n), split) else []
    decreases |order|
  {
    if order != [] {
      var init, m := order[..|order| - 1], order[|order| - 1];
      assert order == init + [m];
      DistinctInit(order);
      StepsProject(s, init, dns, split, cfg, n);
      StepsSnocProject(s, init, m, dns, split, cfg, n);
    } else {
      assert Steps(s, order, dns, split, cfg) == [];
    }
  }

  lemma StepsSnocProject(s: State, init: seq<string>, m: string, dns: Resolver, split: Splitter, cfg: Config, n: string)
    requires m !in init
    requires Project(Steps(s, init, dns, split, cfg), n) == if n in init then Step(s, n, Command(dns, cfg, n), split) else []
    ensures Project(Steps(s, init + [m], dns, split, cfg), n) ==
      if n in init + [m] then Step(s, n, Command(dns, cfg, n), split) else []
  {
    var before := Steps(s, init, dns, split, cfg);
    var step := Step(ApplyAll(s, before), m, Command(dns, cfg, m), split);
    StepsSnoc(s, init, m, dns, split, cfg);
    ProjectAppend(before, step, n);
    ProjectOwn(step, m, n);
    if m == n {
      assert Project(before, n) == [];
      ApplyAllEntry(s, before, n);
      StepLocal(ApplyAll(s, before), s, n, Command(dns, cfg, n), split);
      assert Project(Steps(s, init + [m], dns, split, cfg), n) == [] + step;
    } else {
      assert Project(Steps(s, init + [m], dns, split, cfg), n) == Project(before, n) + [];
      assert n in init + [m] <==> n in init;
    }
  }

  /**
    The exact per-name contract of a pass, whatever order the declared set is visited
    in: a declared name gets its decision taken on its entry before the pass; a listed
    name that is not declared gets a kill and then a remove, and never a run; any other
    name is not touched.
   */
  lemma PassProject(s: State, dns: Resolver, split: Splitter, cfg: Config, listed: seq<string>, order: seq<string>, n: string)
    requires Distinct(listed) && Enumerates(order, DeclaredSet(dns, cfg))
    ensures Project(Pass(s, dns, split, cfg, listed, order), n) ==
      if n in DeclaredSet(dns, cfg) then Step(s, n, Command(dns, cfg, n), split)
      else if n in listed then [Kill(n), Rm(n)]
      else []
  {
    var declared := DeclaredSet(dns, cfg);
    var cleanup := Cleanup(listed, declared);
    var s1 := ApplyAll(s, cleanup);
    ProjectAppend(cleanup, Steps(s1, order, dns, split, cfg), n);
    CleanupProject(listed, declared, n);
    StepsProject(s1, order, dns, split, cfg, n);
    if n in declared {
      ApplyAllEntry(s, cleanup, n);
      StepLocal(s1, s, n, Command(dns, cfg, n), split);
    }
  }

  /**
    Where one decision leaves a name on a runtime that answers: removed when the
    command is empty, untouched when the command does not split, and otherwise present
    with a label that `inspect` reports as the command's fingerprint.
   */
  lemma StepConverges(s: State, name: string, cmd: string, split: Splitter)
    requires s.up && ValidName(name)
    ensures var e := ApplyEntries(s.up, Entry(s, name), Step(s, name, cmd, split));
      && (cmd == "" ==> e.None?)
      && (cmd != "" && split(cmd).None? ==> e == Entry(s, name))
      && (cmd != "" && split(cmd).Some? ==> e.Some? && TrimNewlines(LabelText(e.value) + "\n") == Fingerprint(cmd))
  {
    var e0 := Entry(s, name);
    if cmd == "" {
      KillThenRm(s.up, e0, name);
    } else if split(cmd).Some? {
      StepLaunches(s, name, cmd, split);
    }
  }

  /** A command that splits leaves the name running under a label that trims to its fingerprint. */
  lemma StepLaunches(s: State, name: string, cmd: string, split: Splitter)
    requires s.up && ValidName(name) && cmd != "" && split(cmd).Some?
    ensures var e := ApplyEntries(s.up, Entry(s, name), Step(s, name, cmd, split));
      e.Some? && TrimNewlines(LabelText(e.value) + "\n") == Fingerprint(cmd)
  {
    var e0 := Entry(s, name);
    var fp := Fingerprint(cmd);
    var run := Run(name, fp, LaunchArgs(name, fp, split(cmd).value));
    TrimLine(fp);
    if e0.None? {
      assert [run][1..] == [];
      assert ApplyEntries(s.up, e0, [run]) == ApplyEntries(s.up, ApplyEntry(s.up, e0, run), []);
    } else if TrimNewlines(LabelText(e0.value) + "\n") != fp {
      KillRmRun(s.up, e0, name, fp, LaunchArgs(name, fp, split(cmd).value));
    }
  }

  /** After its decision, a name needs no further action: deciding again on the resulting entry issues nothing. */
  lemma StepStable(s: State, t: State, name: string, cmd: string, split: Splitter)
    requires s.up && ValidName(name) && t.up
    requires Entry(t, name) == ApplyEntries(s.up, Entry(s, name), Step(s, name, cmd, split))
    ensures Step(t, name, cmd, split) == []
  {
    StepConverges(s, name, cmd, split);
    assert InspectOutput(t, name).Some? <==> Entry(t, name).Some?;
  }

  /** Disabled transition: an empty command kills then removes a container that inspect finds, and never runs one. */
  lemma StepDisabled(s: State, name: string, split: Splitter)
    ensures Step(s, name, "", split) ==
      if s.up && name in s.containers then [Kill(name), Rm(name)] else []
  {
  }

  /** A non-empty command whose quoting does not split is skipped: no action at all for that name. */
  lemma StepUnsplittable(s: State, name: string, cmd: string, split: Splitter)
    requires cmd != "" && split(cmd).None?
    ensures Step(s, name, cmd, split) == []
  {
  }

  /** New-container transition: when inspect fails, exactly one run, labelled with the command's fingerprint. */
  lemma StepNew(s: State, name: string, cmd: string, split: Splitter)
    requires cmd != "" && split(cmd).Some?
    requires !s.up || name !in s.containers
    ensures var fp := Fingerprint(cmd);
      Step(s, name, cmd, split) == [Run(name, fp, LaunchArgs(name, fp, split(cmd).value))]
  {
  }

  /**
    Unchanged transition: a container whose label, with the newlines at both ends of the
    inspect line trimmed, is the command's fingerprint is left alone.
   */
  lemma StepUnchanged(s: State, name: string, cmd: string, split: Splitter)
    requires cmd != "" && split(cmd).Some?
    requires s.up && name in s.containers
    requires TrimNewlines(LabelText(s.containers[name]) + "\n") == Fingerprint(cmd)
    ensures Step(s, name, cmd, split) == []
  {
  }

  /** The common case: a container labelled with exactly the command's fingerprint is left alone. */
  lemma StepUnchangedExact(s: State, name: string, cmd: string, split: Splitter)
    requires cmd != "" && split(cmd).Some?
    requires s.up && name in s.containers && s.containers[name].labelValue == Some(Fingerprint(cmd))
    ensures Step(s, name, cmd, split) == []
  {
    TrimLine(Fingerprint(cmd));
    StepUnchanged(s, name, cmd, split);
  }

  /**
    Changed transition: a container whose label, with the newlines at both ends of the
    inspect line trimmed, is not the command's fingerprint is killed, removed and run
    again, in that order. A missing label reads as "", which is never a fingerprint.
   */
  lemma StepReplaced(s: State, name: string, cmd: string, split: Splitter)
    requires cmd != "" && split(cmd).Some?
    requires s.up && name in s.containers
    requires TrimNewlines(LabelText(s.containers[name]) + "\n") != Fingerprint(cmd)
    ensures var fp := Fingerprint(cmd);
      Step(s, name, cmd, split) == [Kill(name), Rm(name), Run(name, fp, LaunchArgs(name, fp, split(cmd).value))]
  {
  }

  /**
    The common case of a replacement: a container with no label, or with a one-line
    label other than the command's fingerprint, is killed, removed and run again.
   */
  lemma StepReplacedLine(s: State, name: string, cmd: string, split: Splitter)
    requires cmd != "" && split(cmd).Some?
    requires s.up && name in s.containers
    requires '\n' !in LabelText(s.containers[name]) && LabelText(s.containers[name]) != Fingerprint(cmd)
    ensures var fp := Fingerprint(cmd);
      Step(s, name, cmd, split) == [Kill(name), Rm(name), Run(name, fp, LaunchArgs(name, fp, split(cmd).value))]
  {
    TrimLine(LabelText(s.containers[name]));
    StepReplaced(s, name, cmd, split);
  }

  /**
    Changed-config transition: a container launched for command `c1` and now declared
    with a different command `c2` is killed, removed and run with the fingerprint of `c2`.
   */
  lemma StepChangedConfig(s: State, name: string, c1: string, c2: string, split: Splitter)
    requires c1 != c2 && c2 != "" && split(c2).Some?
    requires s.up && name in s.containers && s.containers[name].labelValue == Some(Fingerprint(c1))
    ensures var fp := Fingerprint(c2);
      Step(s, name, c2, split) == [Kill(name), Rm(name), Run(name, fp, LaunchArgs(name, fp, split(c2).value))]
  {
    if Fingerprint(c1) == Fingerprint(c2) {
      FingerprintInjective(c1, c2);
    }
    StepReplacedLine(s, name, c2, split);
  }

  /** While the runtime does not answer, every decision is a run or nothing: no kill and no remove. */
  lemma {:induction false} StepsDownRunOnly(s: State, order: seq<string>, dns: Resolver, split: Splitter, cfg: Config)
    requires !s.up
    ensures forall i :: 0 <= i < |Steps(s, order, dns, split, cfg)| ==> Steps(s, order, dns, split, cfg)[i].Run?
    decreases |order|
  {
    if order != [] {
      var init := order[..|order| - 1];
      StepsDownRunOnly(s, init, dns, split, cfg);
    }
  }

  /**
    When the listing fails no cleanup action is issued, and since inspect fails too,
    the pass issues runs only.
   */
  lemma ListingFailedNoCleanup(s: State, dns: Resolver, split: Splitter, cfg: Config, listed: seq<string>, order: seq<string>)
    requires !s.up && ListingOf(s, listed)
    ensures Pass(s, dns, split, cfg, listed, order) == Steps(s, order, dns, split, cfg)
    ensures forall i :: 0 <= i < |Pass(s, dns, split, cfg, listed, order)| ==> Pass(s, dns, split, cfg, listed, order)[i].Run?
  {
    assert Cleanup(listed, DeclaredSet(dns, cfg)) == [];
    assert ApplyAll(s, []) == s;
    StepsDownRunOnly(s, order, dns, split, cfg);
  }

  /**
    An answer at the full host name decides a walk without inheritance: the declared
    set is that answer's strings, and a container's command is the first string of the
    answer at `containerName.prefix.hostname`, whatever the shorter suffixes hold.
   */
  lemma MostSpecificDecides(dns: Resolver, cfg: Config, containerName: string)
    requires !cfg.inheritance
    ensures dns(cfg.prefix + "." + cfg.hostname).Found? ==>
      DeclaredSet(dns, cfg) == dns(cfg.prefix + "." + cfg.hostname).Values()
    ensures dns(containerName + "." + cfg.prefix + "." + cfg.hostname).Found? ==>
      Command(dns, cfg, containerName) == dns(containerName + "." + cfg.prefix + "." + cfg.hostname).first
  {
    SuffixesOrder(cfg.hostname);
    var names := RecordNames(cfg.prefix, cfg.hostname);
    var cnames := CommandNames(containerName, cfg.prefix, cfg.hostname);
    if dns(names[0]).Found? {
      FirstHitAt(dns, names, 0);
    }
    if dns(cnames[0]).Found? {
      FirstHitAt(dns, cnames, 0);
    }
  }

  /** The runtime half of the worked example below: the one `docker run` and its argument vector. */
  lemma ExampleLaunch(s: State, split: Splitter, cmd: string)
    requires cmd == "-p 80:80 nginx:1.25"
    requires split(cmd) == Some(["-p", "80:80", "nginx:1.25"])
    requires "nginx-edge" !in s.containers
    ensures var fp := Fingerprint(cmd);
      Step(s, "nginx-edge", cmd, split) ==
        [Run("nginx-edge", fp, ["run", "-d", "--name", "nginx-edge", "--label", "docker-dns-provision.command=" + fp,
                                "-p", "80:80", "nginx:1.25"])]
  {
    StepNew(s, "nginx-edge", cmd, split);
    var fp := Fingerprint(cmd);
    var tag := "docker-dns-provision.command=" + fp;
    assert LabelKey + "=" + fp == tag;
    var words: seq<string> := ["-p", "80:80", "nginx:1.25"];
    assert LaunchArgs("nginx-edge", fp, words) == ["run", "-d", "--name", "nginx-edge", "--label", tag] + words;
    assert ["run", "-d", "--name", "nginx-edge", "--label", tag] + words ==
      ["run", "-d", "--name", "nginx-edge", "--label", tag, "-p", "80:80", "nginx:1.25"];
  }

  /**
    A single-container deployment, for any host name and prefix (for instance host
    `web1.prod.example.com` and prefix `containers.docker`), inheritance off:
    `prefix.hostname` answers `nginx-edge`, `nginx-edge.prefix.hostname` answers
    `cmd` = `-p 80:80 nginx:1.25`, and no such container exists yet. The declared set
    is that one name, and its decision is a single run labelled with the command's
    fingerprint.
   */
  lemma ExampleScenario(s: State, dns: Resolver, split: Splitter, cfg: Config, cmd: string)
    requires !cfg.inheritance
    requires cmd == "-p 80:80 nginx:1.25"
    requires dns(cfg.prefix + "." + cfg.hostname) == Found("nginx-edge", [])
    requires dns("nginx-edge" + "." + cfg.prefix + "." + cfg.hostname) == Found(cmd, [])
    requires split(cmd) == Some(["-p", "80:80", "nginx:1.25"])
    requires "nginx-edge" !in s.containers
    ensures DeclaredSet(dns, cfg) == {"nginx-edge"}
    ensures Command(dns, cfg, "nginx-edge") == cmd
    ensures var fp := Fingerprint(cmd);
      Step(s, "nginx-edge", Command(dns, cfg, "nginx-edge"), split) ==
        [Run("nginx-edge", fp, ["run", "-d", "--name", "nginx-edge", "--label", "docker-dns-provision.command=" + fp,
                                "-p", "80:80", "nginx:1.25"])]
  {
    MostSpecificDecides(dns, cfg, "nginx-edge");
    assert dns(cfg.prefix + "." + cfg.hostname).Strings() == ["nginx-edge"];
    ExampleLaunch(s, split, cmd);
  }

  // ------------------------------------------------------------ idempotence

  /**
    A runtime in which every labelled container is declared and every declared
    name needs no action.
   */
  ghost predicate Converged(s: State, dns: Resolver, split: Splitter, cfg: Config)
  {
    && Labelled(s) <= DeclaredSet(dns, cfg)
    && forall n :: n in DeclaredSet(dns, cfg) ==> Step(s, n, Command(dns, cfg, n), split) == []
  }

  /** The pieces of a listing name each container once: the labelled names are valid, so none is the final empty piece. */
  lemma ListingDistinct(s: State, listed: seq<string>)
    requires s.up && WellFormed(s) && ListingOf(s, listed)
    ensures Distinct(listed)
  {
    var init := listed[..|listed| - 1];
    forall i | 0 <= i < |init|
      ensures init[i] != ""
    {
      assert init[i] in Labelled(s);
    }
    assert listed == init + [""];
    DistinctSnoc(init, "");
  }

  /** After a pass, no container outside the declared set carries the label. */
  lemma PassClears(s: State, dns: Resolver, split: Splitter, cfg: Config, listed: seq<string>, order: seq<string>, n: string)
    requires s.up && WellFormed(s)
    requires ListingOf(s, listed) && Enumerates(order, DeclaredSet(dns, cfg))
    requires n !in DeclaredSet(dns, cfg)
    ensures n !in Labelled(ApplyAll(s, Pass(s, dns, split, cfg, listed, order)))
  {
    var acts := Pass(s, dns, split, cfg, listed, order);
    ListingDistinct(s, listed);
    PassProject(s, dns, split, cfg, listed, order, n);
    ApplyAllEntry(s, acts, n);
    if n in listed {
      KillThenRm(s.up, Entry(s, n), n);
    } else {
      assert n !in listed[..|listed| - 1];
      assert Project(acts, n) == [];
    }
  }

  /** After a pass, a valid declared name needs no further action. */
  lemma PassSettles(s: State, dns: Resolver, split: Splitter, cfg: Config, listed: seq<string>, order: seq<string>, n: string)
    requires s.up && WellFormed(s)
    requires ListingOf(s, listed) && Enumerates(order, DeclaredSet(dns, cfg))
    requires n in DeclaredSet(dns, cfg) && ValidName(n)
    ensures Step(ApplyAll(s, Pass(s, dns, split, cfg, listed, order)), n, Command(dns, cfg, n), split) == []
  {
    var acts := Pass(s, dns, split, cfg, listed, order);
    ListingDistinct(s, listed);
    PassProject(s, dns, split, cfg, listed, order, n);
    ApplyAllEntry(s, acts, n);
    StepStable(s, ApplyAll(s, acts), n, Command(dns, cfg, n), split);
  }

  /** A pass on a runtime that answers, with valid declared names, leaves it converged. */
  lemma PassConverges(s: State, dns: Resolver, split: Splitter, cfg: Config, listed: seq<string>, order: seq<string>)
    requires s.up && WellFormed(s)
    requires forall n :: n in DeclaredSet(dns, cfg) ==> ValidName(n)
    requires ListingOf(s, listed) && Enumerates(order, DeclaredSet(dns, cfg))
    ensures Converged(ApplyAll(s, Pass(s, dns, split, cfg, listed, order)), dns, split, cfg)
  {
    var s1 := ApplyAll(s, Pass(s, dns, split, cfg, listed, order));
    forall n | n in Labelled(s1)
      ensures n in DeclaredSet(dns, cfg)
    {
      if n !in DeclaredSet(dns, cfg) {
        PassClears(s, dns, split, cfg, listed, order, n);
      }
    }
    forall n | n in DeclaredSet(dns, cfg)
      ensures Step(s1, n, Command(dns, cfg, n), split) == []
    {
      PassSettles(s, dns, split, cfg, listed, order, n);
    }
  }

  lemma {:induction false} CleanupDeclared(listed: seq<string>, declared: set<string>)
    requires forall i :: 0 <= i < |listed| ==> listed[i] in declared
    ensures Cleanup(listed, declared) == []
    decreases |listed|
  {
    if listed != [] {
      CleanupDeclared(listed[..|listed| - 1], declared);
    }
  }

  lemma {:induction false} StepsQuiet(s: State, order: seq<string>, dns: Resolver, split: Splitter, cfg: Config)
    requires forall i :: 0 <= i < |order| ==> Step(s, order[i], Command(dns, cfg, order[i]), split) == []
    ensures Steps(s, order, dns, split, cfg) == []
    decreases |order|
  {
    if order != [] {
      StepsQuiet(s, order[..|order| - 1], dns, split, cfg);
    }
  }

  /** On a converged runtime the cleanup kills and removes only the empty name after the listing's final newline. */
  lemma ConvergedCleanup(s: State, declared: set<string>, listed: seq<string>)
    requires s.up && ListingOf(s, listed)
    requires Labelled(s) <= declared && "" !in declared
    ensures Cleanup(listed, declared) == [Kill(""), Rm("")]
  {
    var init := listed[..|listed| - 1];
    CleanupDeclared(init, declared);
    assert listed == init + [""];
    CleanupSnoc(init, "", declared);
  }

  /** Killing and removing a name the runtime does not hold changes nothing. */
  lemma KillRmAbsent(s: State, n: string)
    requires n !in s.containers
    ensures ApplyAll(s, [Kill(n), Rm(n)]) == s
  {
    ApplyAllTwo(s, Kill(n), Rm(n));
    assert Apply(s, Kill(n)) == s;
  }

  /**
    On a converged runtime a pass changes nothing; its only actions are the kill and
    remove of the empty name that follows the listing's final newline.
   */
  lemma ConvergedPassQuiet(s: State, dns: Resolver, split: Splitter, cfg: Config, listed: seq<string>, order: seq<string>)
    requires s.up && WellFormed(s) && Converged(s, dns, split, cfg)
    requires forall n :: n in DeclaredSet(dns, cfg) ==> ValidName(n)
    requires ListingOf(s, listed) && Enumerates(order, DeclaredSet(dns, cfg))
    ensures Pass(s, dns, split, cfg, listed, order) == [Kill(""), Rm("")]
    ensures ApplyAll(s, Pass(s, dns, split, cfg, listed, order)) == s
  {
    var declared := DeclaredSet(dns, cfg);
    assert "" !in declared;
    ConvergedCleanup(s, declared, listed);
    assert "" !in s.containers;
    KillRmAbsent(s, "");
    StepsQuiet(s, order, dns, split, cfg);
    assert Pass(s, dns, split, cfg, listed, order) == [Kill(""), Rm("")] + [];
  }

  /**
    Idempotence: with DNS unchanged and a runtime that answers, a second pass changes
    no container, starts nothing and stops nothing; its only actions are the kill and
    remove of the empty name after the listing's final newline.
   */
  lemma PassIdempotent(s: State, dns: Resolver, split: Splitter, cfg: Config,
                       listed1: seq<string>, order1: seq<string>, listed2: seq<string>, order2: seq<string>)
    requires s.up && WellFormed(s)
    requires forall n :: n in DeclaredSet(dns, cfg) ==> ValidName(n)
    requires ListingOf(s, listed1) && Enumerates(order1, DeclaredSet(dns, cfg))
    requires ListingOf(ApplyAll(s, Pass(s, dns, split, cfg, listed1, order1)), listed2)
    requires Enumerates(order2, DeclaredSet(dns, cfg))
    ensures var s1 := ApplyAll(s, Pass(s, dns, split, cfg, listed1, order1));
      && Pass(s1, dns, split, cfg, listed2, order2) == [Kill(""), Rm("")]
      && ApplyAll(s1, Pass(s1, dns, split, cfg, listed2, order2)) == s1
  {
    PassConverges(s, dns, split, cfg, listed1, order1);
    ConvergedPassQuiet(ApplyAll(s, Pass(s, dns, split, cfg, listed1, order1)), dns, split, cfg, listed2, order2);
  }
}
