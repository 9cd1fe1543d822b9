/**
  The container runtime the program drives through the `docker` command: its state
  (containers by name, each with the program's ownership label if it carries one and
  whether it is running), the three state-changing commands as actions, and the
  textual output of the `ps` and `inspect` queries.
 */
module Runtime {
  import opened Wrappers
  import opened Strs

  /** The ownership label key; its value is the fingerprint of the launch command. */
  const LabelKey := "docker-dns-provision.command"

  datatype Container = Container(labelValue: Option<string>, running: bool)

  /** `up` is false when the runtime answers no command at all. */
  datatype State = State(up: bool, containers: map<string, Container>)

  /** The state-changing runtime commands the program issues, as they appear in the trace. */
  datatype Action = Kill(name: string) | Rm(name: string) | Run(name: string, labelValue: string, args: seq<string>)

  /** A character that may start a container name: an ASCII letter or digit. */
  predicate NameStart(c: char)
  {
    'a' <= c <= 'z' || 'A' <= c <= 'Z' || '0' <= c <= '9'
  }

  /** A character that may follow the first one in a container name. */
  predicate NameChar(c: char)
  {
    NameStart(c) || c == '_' || c == '.' || c == '-'
  }

  /**
    The container names the runtime accepts, `[a-zA-Z0-9][a-zA-Z0-9_.-]+`: at least two
    characters, a letter or digit first.
   */
  predicate ValidName(n: string)
  {
    |n| >= 2 && NameStart(n[0]) && forall i :: 1 <= i < |n| ==> NameChar(n[i])
  }

  ghost predicate WellFormed(s: State)
  {
    forall n :: n in s.containers ==> ValidName(n)
  }

  /** The containers that carry the ownership label, whatever its value. */
  function Labelled(s: State): set<string>
  {
    set n | n in s.containers && s.containers[n].labelValue.Some?
  }

  /** What the runtime holds under one name. */
  function Entry(s: State, n: string): Option<Container>
  {
    if n in s.containers then Some(s.containers[n]) else None
  }

  /**
    The effect of one command on the entry of the name it is about. A kill stops the
    container; a remove deletes only a stopped container (a running one is refused);
    a run creates a running, labelled container when the name is valid and free.
    Nothing changes when the runtime does not answer.
   */
  function ApplyEntry(up: bool, e: Option<Container>, a: Action): Option<Container>
  {
    if !up then e
    else match a
      case Kill(_) => if e.Some? then Some(e.value.(running := false)) else e
      case Rm(_) => if e.Some? && !e.value.running then None else e
      case Run(n, l, _) => if e.None? && ValidName(n) then Some(Container(Some(l), true)) else e
  }

  /** The state after one command: only the entry of the command's name can change. */
  function Apply(s: State, a: Action): (t: State)
    ensures t.up == s.up
    ensures WellFormed(s) ==> WellFormed(t)
    ensures forall m :: Entry(t, m) == if m == a.name then ApplyEntry(s.up, Entry(s, a.name), a) else Entry(s, m)
  {
    match ApplyEntry(s.up, Entry(s, a.name), a)
    case None => s.(containers := s.containers - {a.name})
    case Some(c) => s.(containers := s.containers[a.name := c])
  }

  /** The state after a sequence of commands, issued in order. */
  function ApplyAll(s: State, acts: seq<Action>): (t: State)
    ensures t.up == s.up
    ensures WellFormed(s) ==> WellFormed(t)
    decreases |acts|
  {
    if acts == [] then s else ApplyAll(Apply(s, acts[0]), acts[1..])
  }

  lemma {:induction false} ApplyAllAppend(s: State, a: seq<Action>, b: seq<Action>)
    ensures ApplyAll(s, a + b) == ApplyAll(ApplyAll(s, a), b)
    decreases |a|
  {
    if a == [] {
      assert a + b == b;
    } else {
      assert (a + b)[0] == a[0] && (a + b)[1..] == a[1..] + b;
      ApplyAllAppend(Apply(s, a[0]), a[1..], b);
    }
  }

  /** Appending traces is associative (kept as a lemma so that it is proved outside large method contexts). */
  lemma AppendAssoc(a: seq<Action>, b: seq<Action>, c: seq<Action>)
    ensures (a + b) + c == a + (b + c)
  {
  }

  /** The commands of a trace that are about name `n`, in order. */
  function Project(acts: seq<Action>, n: string): (p: seq<Action>)
    ensures forall i :: 0 <= i < |p| ==> p[i].name == n
    ensures |p| <= |acts|
    decreases |acts|
  {
    if acts == [] then []
    else (if acts[0].name == n then [acts[0]] else []) + Project(acts[1..], n)
  }

  lemma {:induction false} ProjectAppend(a: seq<Action>, b: seq<Action>, n: string)
    ensures Project(a + b, n) == Project(a, n) + Project(b, n)
    decreases |a|
  {
    if a == [] {
      assert a + b == b;
    } else {
      assert (a + b)[0] == a[0] && (a + b)[1..] == a[1..] + b;
      ProjectAppend(a[1..], b, n);
    }
  }

  /** A trace all of whose commands are about `n` projects to itself on `n` and to nothing elsewhere. */
  lemma {:induction false} ProjectOwn(acts: seq<Action>, n: string, m: string)
    requires forall i :: 0 <= i < |acts| ==> acts[i].name == n
    ensures Project(acts, n) == acts
    ensures m != n ==> Project(acts, m) == []
    decreases |acts|
  {
    if acts != [] {
      ProjectOwn(acts[1..], n, m);
      assert [acts[0]] + acts[1..] == acts;
    }
  }

  /** The entry of one name after a sequence of commands about that name. */
  function ApplyEntries(up: bool, e: Option<Container>, acts: seq<Action>): Option<Container>
    decreases |acts|
  {
    if acts == [] then e else ApplyEntries(up, ApplyEntry(up, e, acts[0]), acts[1..])
  }

  /** A kill followed by a remove deletes whatever the name held, running or not. */
  lemma KillThenRm(up: bool, e: Option<Container>, n: string)
    requires up
    ensures ApplyEntries(up, e, [Kill(n), Rm(n)]) == None
  {
    var e1 := ApplyEntry(up, e, Kill(n));
    assert [Kill(n), Rm(n)][1..] == [Rm(n)];
    assert [Rm(n)][1..] == [];
    assert ApplyEntries(up, e, [Kill(n), Rm(n)]) == ApplyEntries(up, e1, [Rm(n)]);
    assert ApplyEntries(up, e1, [Rm(n)]) == ApplyEntries(up, ApplyEntry(up, e1, Rm(n)), []);
  }

  /** A kill, a remove and a run leave a valid name holding a fresh running container with the new label. */
  lemma KillRmRun(up: bool, e: Option<Container>, n: string, l: string, args: seq<string>)
    requires up && ValidName(n)
    ensures ApplyEntries(up, e, [Kill(n), Rm(n), Run(n, l, args)]) == Some(Container(Some(l), true))
  {
    var e1 := ApplyEntry(up, e, Kill(n));
    var e2 := ApplyEntry(up, e1, Rm(n));
    assert e2 == None;
    assert [Kill(n), Rm(n), Run(n, l, args)][1..] == [Rm(n), Run(n, l, args)];
    assert [Rm(n), Run(n, l, args)][1..] == [Run(n, l, args)];
    assert [Run(n, l, args)][1..] == [];
    assert ApplyEntries(up, e, [Kill(n), Rm(n), Run(n, l, args)]) == ApplyEntries(up, e1, [Rm(n), Run(n, l, args)]);
    assert ApplyEntries(up, e1, [Rm(n), Run(n, l, args)]) == ApplyEntries(up, e2, [Run(n, l, args)]);
    assert ApplyEntries(up, e2, [Run(n, l, args)]) == ApplyEntries(up, ApplyEntry(up, e2, Run(n, l, args)), []);
  }

  /** The state after two commands. */
  lemma ApplyAllTwo(s: State, a: Action, b: Action)
    ensures ApplyAll(s, [a, b]) == Apply(Apply(s, a), b)
  {
    assert [a, b][1..] == [b];
    assert [b][1..] == [];
    assert ApplyAll(s, [a, b]) == ApplyAll(Apply(s, a), [b]);
    assert ApplyAll(Apply(s, a), [b]) == ApplyAll(Apply(Apply(s, a), b), []);
  }

  /** The state after three commands. */
  lemma ApplyAllThree(s: State, a: Action, b: Action, c: Action)
    ensures ApplyAll(s, [a, b, c]) == Apply(Apply(Apply(s, a), b), c)
  {
    assert [a, b, c][1..] == [b, c];
    assert ApplyAll(s, [a, b, c]) == ApplyAll(Apply(s, a), [b, c]);
    ApplyAllTwo(Apply(s, a), b, c);
  }

  /** Names evolve independently: a name's entry after a trace depends only on the commands about it. */
  lemma {:induction false} ApplyAllEntry(s: State, acts: seq<Action>, n: string)
    ensures Entry(ApplyAll(s, acts), n) == ApplyEntries(s.up, Entry(s, n), Project(acts, n))
    decreases |acts|
  {
    if acts != [] {
      ApplyAllEntry(Apply(s, acts[0]), acts[1..], n);
      var rest := Project(acts[1..], n);
      if acts[0].name == n {
        assert Project(acts, n) == [acts[0]] + rest;
        assert ([acts[0]] + rest)[1..] == rest;
      } else {
        assert Project(acts, n) == [] + rest == rest;
      }
    }
  }

  /** The label value `inspect` prints: the label's value, or nothing when the container has no label. */
  function LabelText(c: Container): string
  {
    match c.labelValue
    case Some(v) => v
    case None => ""
  }

  /** The output of `docker inspect` for the label: None when the command fails. */
  function InspectOutput(s: State, n: string): Option<string>
  {
    if s.up && n in s.containers then Some(LabelText(s.containers[n]) + "\n") else None
  }

  /** The output of `docker ps` listing `names`: each name on its own newline-terminated line. */
  function ListingOutput(names: seq<string>): string
    decreases |names|
  {
    if names == [] then "" else names[0] + "\n" + ListingOutput(names[1..])
  }

  lemma {:induction false} ListingOutputAppend(names: seq<string>, n: string)
    ensures ListingOutput(names + [n]) == ListingOutput(names) + n + "\n"
    decreases |names|
  {
    if names != [] {
      assert (names + [n])[1..] == names[1..] + [n];
      ListingOutputAppend(names[1..], n);
    }
  }

  /**
    Splitting a listing at newlines gives the listed names followed by one empty
    string, the piece after the final newline.
   */
  lemma {:induction false} ListingLines(names: seq<string>)
    requires forall i :: 0 <= i < |names| ==> '\n' !in names[i]
    ensures Split(ListingOutput(names), '\n') == names + [""]
    decreases |names|
  {
    if names != [] {
      ListingLines(names[1..]);
      SplitPrefix(names[0], '\n', ListingOutput(names[1..]));
      assert [names[0]] + (names[1..] + [""]) == names + [""];
    }
  }

  predicate Distinct(xs: seq<string>)
  {
    forall i, j :: 0 <= i < j < |xs| ==> xs[i] != xs[j]
  }

  /** Dropping the last element of a list without repetitions leaves one without it. */
  lemma DistinctInit(xs: seq<string>)
    requires Distinct(xs) && xs != []
    ensures Distinct(xs[..|xs| - 1]) && xs[|xs| - 1] !in xs[..|xs| - 1]
  {
  }

  lemma DistinctSnoc(xs: seq<string>, x: string)
    requires Distinct(xs) && x !in xs
    ensures Distinct(xs + [x])
  {
  }

  /** `xs` lists every element of `s` exactly once, in some order. */
  ghost predicate Enumerates(xs: seq<string>, s: set<string>)
  {
    Distinct(xs) && forall x :: x in xs <==> x in s
  }

  /** The runtime, as the program reaches it through the `docker` command. */
  class Docker {
    const up: bool
    var containers: map<string, Container>
    /** Every state-changing command issued so far, in order. */
    var trace: seq<Action>

    function Snapshot(): State
      reads this
    {
      State(up, containers)
    }

    ghost predicate Valid()
      reads this
    {
      WellFormed(Snapshot())
    }

    constructor (up: bool, containers: map<string, Container>)
      requires WellFormed(State(up, containers))
      ensures Valid() && Snapshot() == State(up, containers) && trace == []
    {
      this.up := up;
      this.containers := containers;
      this.trace := [];
    }

    /**
      `docker ps -a --format {{ .Names }} -f label=...`: the names of the labelled
      containers, one per line in an order the runtime picks; fails when the runtime is down.
     */
    method List() returns (out: Option<string>, ghost order: seq<string>)
      requires Valid()
      ensures out.Some? <==> up
      ensures out.Some? ==> Enumerates(order, Labelled(Snapshot())) && out.value == ListingOutput(order)
    {
      order := [];
      if !up {
        return None, order;
      }
      var labelled := set n | n in containers && containers[n].labelValue.Some?;
      var pending := labelled;
      var text := "";
      while pending != {}
        invariant pending <= labelled
        invariant Distinct(order)
        invariant forall x :: x in order <==> x in labelled && x !in pending
        invariant text == ListingOutput(order)
        decreases pending
      {
        var n :| n in pending;
        ListingOutputAppend(order, n);
        text := text + n + "\n";
        order := order + [n];
        pending := pending - {n};
      }
      out := Some(text);
    }

    /** `docker inspect -f <label template> name`: the label line, or None when the command fails. */
    method Inspect(name: string) returns (out: Option<string>)
      ensures out == InspectOutput(Snapshot(), name)
    {
      if up && name in containers {
        out := Some(LabelText(containers[name]) + "\n");
      } else {
        out := None;
      }
    }

    /** `docker kill name`. */
    method Kill(name: string)
      requires Valid()
      modifies this
      ensures Valid()
      ensures Snapshot() == Apply(old(Snapshot()), Action.Kill(name))
      ensures trace == old(trace) + [Action.Kill(name)]
    {
      containers := Apply(Snapshot(), Action.Kill(name)).containers;
      trace := trace + [Action.Kill(name)];
    }

    /** `docker rm name`. */
    method Rm(name: string)
      requires Valid()
      modifies this
      ensures Valid()
      ensures Snapshot() == Apply(old(Snapshot()), Action.Rm(name))
      ensures trace == old(trace) + [Action.Rm(name)]
    {
      containers := Apply(Snapshot(), Action.Rm(name)).containers;
      trace := trace + [Action.Rm(name)];
    }

    /** `docker run -d --name name --label <key>=labelValue ...`, with `args` the whole argument vector. */
    method Run(name: string, labelValue: string, args: seq<string>)
      requires Valid()
      modifies this
      ensures Valid()
      ensures Snapshot() == Apply(old(Snapshot()), Action.Run(name, labelValue, args))
      ensures trace == old(trace) + [Action.Run(name, labelValue, args)]
    {
      containers := Apply(Snapshot(), Action.Run(name, labelValue, args)).containers;
      trace := trace + [Action.Run(name, labelValue, args)];
    }
  }
}
