/**
  The desired-state resolver: the walk over the domain suffixes of the host name,
  the declared container set it builds (`containerRecords`) and the per-container
  command lookup (`containerCommands`). DNS is an oracle from query names to answers.
 */
module Dns {
  import opened Wrappers
  import opened Strs

  /**
    The outcome of one TXT lookup. Go's resolver reports an error when a name has no
    TXT record, so a successful answer carries at least one string: `first` is `txt[0]`.
   */
  datatype TxtAnswer = Failed | Found(first: string, rest: seq<string>)
  {
    /** The strings of a successful answer, in order. */
    function Strings(): seq<string>
      requires Found?
    {
      [first] + rest
    }

    /** The set of strings an answer contributes: none for a failed lookup. */
    function Values(): set<string>
    {
      if Failed? then {} else set x | x in Strings()
    }
  }

  /** DNS as seen by the program: every query name has an answer. */
  type Resolver = string -> TxtAnswer

  // ------------------------------------------------------------- suffixes

  /** The tails of the host name's labels, joined with dots: index `i` drops the first `i` labels. */
  function Suffixes(hostname: string): (sfx: seq<string>)
    ensures |sfx| == |Split(hostname, '.')|
  {
    var parts := Split(hostname, '.');
    seq(|parts|, i requires 0 <= i < |parts| => Join(parts[i..], '.'))
  }

  /**
    A host name with n labels (n - 1 dots) has exactly n suffixes: the full name first,
    each next one the previous one without its first label, the last label last.
   */
  lemma SuffixesOrder(hostname: string)
    ensures var sfx, parts := Suffixes(hostname), Split(hostname, '.');
      && |sfx| == Count(hostname, '.') + 1
      && sfx[0] == hostname
      && sfx[|sfx| - 1] == parts[|parts| - 1]
      && forall i :: 0 <= i < |sfx| - 1 ==> sfx[i] == parts[i] + "." + sfx[i + 1]
  {
    var sfx, parts := Suffixes(hostname), Split(hostname, '.');
    JoinSplit(hostname, '.');
    assert parts[0..] == parts;
    forall i | 0 <= i < |sfx| - 1
      ensures sfx[i] == parts[i] + "." + sfx[i + 1]
    {
      assert parts[i..][1..] == parts[i + 1..];
    }
    assert parts[|parts| - 1..] == [parts[|parts| - 1]];
  }

  /** The names queried for the declared set: `prefix.<suffix>`, most specific first. */
  function RecordNames(prefix: string, hostname: string): seq<string>
  {
    var sfx := Suffixes(hostname);
    seq(|sfx|, i requires 0 <= i < |sfx| => prefix + "." + sfx[i])
  }

  /**
    A host name with n labels gives n declared-set queries: `prefix.hostname` first, each
    next one without the previous one's first host label, `prefix.<last label>` last.
   */
  lemma RecordNamesOrder(prefix: string, hostname: string)
    ensures var names, parts := RecordNames(prefix, hostname), Split(hostname, '.');
      && |names| == Count(hostname, '.') + 1
      && names[0] == prefix + "." + hostname
      && names[|names| - 1] == prefix + "." + parts[|parts| - 1]
      && forall i :: 0 <= i < |names| - 1 ==> names[i] == prefix + "." + parts[i] + "." + Suffixes(hostname)[i + 1]
  {
    var names, sfx, parts := RecordNames(prefix, hostname), Suffixes(hostname), Split(hostname, '.');
    SuffixesOrder(hostname);
    assert names[0] == prefix + "." + sfx[0];
    assert names[|names| - 1] == prefix + "." + sfx[|sfx| - 1];
    PrefixedSteps(prefix + ".", sfx, parts, names);
  }

  /** Prefixing every suffix with `p` keeps each one's split into first label and next suffix. */
  lemma PrefixedSteps(p: string, sfx: seq<string>, parts: seq<string>, names: seq<string>)
    requires |names| == |sfx| <= |parts|
    requires forall i :: 0 <= i < |names| ==> names[i] == p + sfx[i]
    requires forall i :: 0 <= i < |sfx| - 1 ==> sfx[i] == parts[i] + "." + sfx[i + 1]
    ensures forall i :: 0 <= i < |names| - 1 ==> names[i] == p + parts[i] + "." + sfx[i + 1]
  {
    forall i | 0 <= i < |names| - 1
      ensures names[i] == p + parts[i] + "." + sfx[i + 1]
    {
      assert names[i] == p + (parts[i] + "." + sfx[i + 1]);
    }
  }

  /** The names queried for a container's command: `containerName.prefix.<suffix>`. */
  function CommandNames(containerName: string, prefix: string, hostname: string): seq<string>
  {
    RecordNames(containerName + "." + prefix, hostname)
  }

  /**
    The command queries for a container follow the same walk under `containerName.prefix`:
    `containerName.prefix.hostname` first, down to `containerName.prefix.<last label>`.
   */
  lemma CommandNamesOrder(containerName: string, prefix: string, hostname: string)
    ensures var names, parts := CommandNames(containerName, prefix, hostname), Split(hostname, '.');
      && |names| == Count(hostname, '.') + 1
      && names[0] == containerName + "." + prefix + "." + hostname
      && names[|names| - 1] == containerName + "." + prefix + "." + parts[|parts| - 1]
      && forall i :: 0 <= i < |names| - 1 ==>
        names[i] == containerName + "." + prefix + "." + parts[i] + "." + Suffixes(hostname)[i + 1]
  {
    RecordNamesOrder(containerName + "." + prefix, hostname);
  }

  // ------------------------------------------------------- the walk itself

  /** The position of the first name whose lookup succeeds, if any. */
  function FirstHit(dns: Resolver, names: seq<string>): (r: Option<nat>)
    ensures r.Some? ==> r.value < |names| && dns(names[r.value]).Found?
    ensures r.Some? ==> forall j :: 0 <= j < r.value ==> dns(names[j]).Failed?
    ensures r.None? ==> forall j :: 0 <= j < |names| ==> dns(names[j]).Failed?
    decreases |names|
  {
    if names == [] then None
    else if dns(names[0]).Found? then Some(0)
    else match FirstHit(dns, names[1..])
      case None => None
      case Some(k) => Some(k + 1)
  }

  /** Whether a walk that stops at the first success gets as far as position `i`. */
  ghost predicate Reached(dns: Resolver, names: seq<string>, i: int)
  {
    forall j :: 0 <= j < i && j < |names| ==> dns(names[j]).Failed?
  }

  /** The first success depends only on the answers for the names a stopping walk reaches. */
  lemma {:induction false} FirstHitDependsOnReached(dns1: Resolver, dns2: Resolver, names: seq<string>)
    requires forall i :: 0 <= i < |names| && Reached(dns1, names, i) ==> dns1(names[i]) == dns2(names[i])
    ensures FirstHit(dns1, names) == FirstHit(dns2, names)
    ensures FirstHit(dns1, names).Some? ==>
      dns1(names[FirstHit(dns1, names).value]) == dns2(names[FirstHit(dns1, names).value])
    decreases |names|
  {
    if names != [] {
      assert Reached(dns1, names, 0);
      if dns1(names[0]).Failed? {
        forall i | 0 <= i < |names[1..]| && Reached(dns1, names[1..], i)
          ensures dns1(names[1..][i]) == dns2(names[1..][i])
        {
          assert Reached(dns1, names, i + 1);
        }
        FirstHitDependsOnReached(dns1, dns2, names[1..]);
      }
    }
  }

  /** The union of the strings of every successful answer, gathered front to back. */
  function Gathered(dns: Resolver, names: seq<string>): set<string>
    decreases |names|
  {
    if names == [] then {}
    else Gathered(dns, names[..|names| - 1]) + dns(names[|names| - 1]).Values()
  }

  /** A string is gathered exactly when some successful answer carries it. */
  lemma {:induction false} GatheredMembership(dns: Resolver, names: seq<string>, x: string)
    ensures x in Gathered(dns, names) <==> exists i :: 0 <= i < |names| && x in dns(names[i]).Values()
    decreases |names|
  {
    if names != [] {
      var init := names[..|names| - 1];
      GatheredMembership(dns, init, x);
      if x in Gathered(dns, init) {
        var i :| 0 <= i < |init| && x in dns(init[i]).Values();
        assert names[i] == init[i];
      }
      if i :| 0 <= i < |names| && x in dns(names[i]).Values() {
        if i < |init| {
          assert init[i] == names[i];
        }
      }
    }
  }

  /**
    The declared container set: with inheritance, every string of every successful
    answer; without, the strings of the first successful answer only.
   */
  function Declared(dns: Resolver, names: seq<string>, inherit: bool): set<string>
  {
    if inherit then Gathered(dns, names)
    else match FirstHit(dns, names)
      case None => {}
      case Some(k) => dns(names[k]).Values()
  }

  /** The first success is at `i` when the lookup there succeeds and every earlier one fails. */
  lemma {:induction false} FirstHitAt(dns: Resolver, names: seq<string>, i: nat)
    requires i < |names| && dns(names[i]).Found?
    requires forall j :: 0 <= j < i ==> dns(names[j]).Failed?
    ensures FirstHit(dns, names) == Some(i)
    decreases i
  {
    if i > 0 {
      assert dns(names[0]).Failed?;
      var tail := names[1..];
      assert tail[i - 1] == names[i];
      forall j | 0 <= j < i - 1
        ensures dns(tail[j]).Failed?
      {
        assert tail[j] == names[j + 1];
      }
      FirstHitAt(dns, tail, i - 1);
    }
  }

  lemma GatheredSnoc(dns: Resolver, names: seq<string>, i: nat)
    requires i < |names|
    ensures Gathered(dns, names[..i + 1]) == Gathered(dns, names[..i]) + dns(names[i]).Values()
  {
    assert names[..i + 1][..i] == names[..i];
  }

  /** Failed lookups contribute nothing: when every lookup fails, nothing is declared. */
  lemma DeclaredAllFailed(dns: Resolver, names: seq<string>, inherit: bool)
    requires forall i :: 0 <= i < |names| ==> dns(names[i]).Failed?
    ensures Declared(dns, names, inherit) == {}
  {
    if inherit {
      forall x | x in Gathered(dns, names)
        ensures false
      {
        GatheredMembership(dns, names, x);
      }
    }
  }

  /** With inheritance a name is declared exactly when some successful answer lists it. */
  lemma DeclaredInherited(dns: Resolver, names: seq<string>, x: string)
    ensures x in Declared(dns, names, true) <==>
      exists i :: 0 <= i < |names| && dns(names[i]).Found? && x in dns(names[i]).Strings()
  {
    GatheredMembership(dns, names, x);
  }

  /** Without inheritance the declared set depends only on the answers the walk reaches. */
  lemma DeclaredFirstMatchReached(dns1: Resolver, dns2: Resolver, names: seq<string>)
    requires forall i :: 0 <= i < |names| && Reached(dns1, names, i) ==> dns1(names[i]) == dns2(names[i])
    ensures Declared(dns1, names, false) == Declared(dns2, names, false)
  {
    FirstHitDependsOnReached(dns1, dns2, names);
  }

  /** Adds each string of one answer to the set, as the inner loop of `containerRecords` does. */
  method AddRecords(containers: set<string>, records: seq<string>) returns (result: set<string>)
    ensures result == containers + set x | x in records
  {
    result := containers;
    var k := 0;
    while k < |records|
      invariant 0 <= k <= |records|
      invariant result == containers + set x | x in records[..k]
    {
      assert records[..k + 1] == records[..k] + [records[k]];
      result := result + {records[k]};
      k := k + 1;
    }
    assert records[..k] == records;
  }

  /** A walk without inheritance that stops at `i`: the declared set is the answer there. */
  lemma FirstMatchStop(dns: Resolver, names: seq<string>, i: nat)
    requires i < |names| && dns(names[i]).Found?
    requires forall j :: 0 <= j < i ==> dns(names[j]).Failed?
    ensures FirstHit(dns, names) == Some(i)
    ensures Declared(dns, names, false) == set x | x in dns(names[i]).Strings()
  {
    FirstHitAt(dns, names, i);
  }

  /** A walk that went through every name without stopping. */
  lemma WalkExhausted(dns: Resolver, names: seq<string>, idx: nat, inherit: bool)
    requires idx == |names|
    requires !inherit ==> forall j :: 0 <= j < idx ==> dns(names[j]).Failed?
    ensures names[..idx] == names
    ensures !inherit ==> FirstHit(dns, names).None? && Declared(dns, names, inherit) == {}
    ensures inherit ==> Declared(dns, names, inherit) == Gathered(dns, names)
  {
  }

  /**
    The walk's query at position `i`, built from the host labels as the loop builds it,
    is the `i`-th declared-set name, and the queries so far grow by exactly that name.
   */
  lemma QueryAt(prefix: string, hostname: string, i: nat)
    requires i < |Split(hostname, '.')|
    ensures var names := RecordNames(prefix, hostname);
      && names[i] == prefix + "." + Join(Split(hostname, '.')[i..], '.')
      && names[..i + 1] == names[..i] + [names[i]]
  {
    var names := RecordNames(prefix, hostname);
    assert names[..i + 1] == names[..i] + [names[i]];
  }

  /**
    `containerRecords`: walks the suffixes, querying `prefix.<suffix>` (recorded in
    `queried`, in order) and adding every string of a successful answer to the set;
    without inheritance it stops after the first successful lookup.
   */
  method ContainerRecords(dns: Resolver, prefix: string, hostname: string, canInherit: bool)
    returns (containers: set<string>, queried: seq<string>)
    ensures containers == Declared(dns, RecordNames(prefix, hostname), canInherit)
    ensures canInherit ==> queried == RecordNames(prefix, hostname)
    ensures !canInherit ==> var names := RecordNames(prefix, hostname);
      match FirstHit(dns, names)
      case None => queried == names
      case Some(k) => queried == names[..k + 1]
  {
    ghost var names := RecordNames(prefix, hostname);
    containers := {};
    queried := [];
    var hostParts := Split(hostname, '.');
    var idx := 0;
    while idx < |hostParts|
      invariant 0 <= idx <= |hostParts| == |names|
      invariant queried == names[..idx]
      invariant canInherit ==> containers == Gathered(dns, names[..idx])
      invariant !canInherit ==> containers == {} && forall j :: 0 <= j < idx ==> dns(names[j]).Failed?
    {
      var domain := Join(hostParts[idx..], '.');
      var dnsName := prefix + "." + domain;
      QueryAt(prefix, hostname, idx);
      assert dnsName == names[idx];
      queried := queried + [dnsName];
      var txt := dns(dnsName);
      if txt.Found? {
        containers := AddRecords(containers, txt.Strings());
        if !canInherit {
          FirstMatchStop(dns, names, idx);
          break;
        }
      }
      GatheredSnoc(dns, names, idx);
      idx := idx + 1;
    }
    if idx == |names| {
      WalkExhausted(dns, names, idx, canInherit);
    }
  }

  // ------------------------------------------------------ command lookup

  /** The first string of the first successful answer along `names`, or "" when all fail. */
  function FirstRecord(dns: Resolver, names: seq<string>): (r: string)
    ensures FirstHit(dns, names).None? ==> r == ""
    ensures FirstHit(dns, names).Some? ==> r == dns(names[FirstHit(dns, names).value]).first
    decreases |names|
  {
    if names == [] then ""
    else match dns(names[0])
      case Found(first, _) => first
      case Failed => FirstRecord(dns, names[1..])
  }

  /**
    `containerCommands`: the command line for a container is the first string of the
    first suffix whose `containerName.prefix.<suffix>` lookup succeeds; later strings
    and later suffixes are ignored; "" when every lookup fails.
   */
  function ContainerCommands(dns: Resolver, containerName: string, prefix: string, hostname: string): (cmd: string)
    ensures var names := CommandNames(containerName, prefix, hostname);
      match FirstHit(dns, names)
      case None => cmd == ""
      case Some(k) => cmd == dns(names[k]).first
  {
    FirstRecord(dns, CommandNames(containerName, prefix, hostname))
  }

  /** A container's command depends only on the answers the walk reaches before its first success. */
  lemma CommandDependsOnReached(dns1: Resolver, dns2: Resolver, containerName: string, prefix: string, hostname: string)
    requires var names := CommandNames(containerName, prefix, hostname);
      forall i :: 0 <= i < |names| && Reached(dns1, names, i) ==> dns1(names[i]) == dns2(names[i])
    ensures ContainerCommands(dns1, containerName, prefix, hostname) ==
            ContainerCommands(dns2, containerName, prefix, hostname)
  {
    FirstHitDependsOnReached(dns1, dns2, CommandNames(containerName, prefix, hostname));
  }
}
