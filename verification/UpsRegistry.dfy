/** The three dictionaries of the UPS collector and the mark-and-sweep cycle that keeps them in step. */
module UpsRegistry {
  // ---- names ----------------------------------------------------------------------------------------

  function CleanChar(c: char): char {
    if c == ' ' || c == '.' then '_' else c
  }

  function CleanName(n: string): string {
    seq(|n|, i requires 0 <= i < |n| => CleanChar(n[i]))
  }

  predicate IsClean(n: string) {
    ' ' !in n && '.' !in n
  }

  /** `clean_name`, on the characters before the terminator. */
  method CleanInPlace(name: array<char>)
    modifies name
    ensures name[..] == CleanName(old(name[..]))
  {
    for i := 0 to name.Length
      invariant forall j :: 0 <= j < i ==> name[j] == CleanChar(old(name[j]))
      invariant forall j :: i <= j < name.Length ==> name[j] == old(name[j])
    {
      name[i] := if name[i] == ' ' || name[i] == '.' then '_' else name[i];
    }
  }

  /** Cleaning turns each space and dot into an underscore and keeps all else: every name becomes clean, and
      exactly the clean ones stay the same. */
  lemma CleanNameIsClean(n: string)
    ensures |CleanName(n)| == |n|
    ensures forall i :: 0 <= i < |n| ==> CleanName(n)[i] == if n[i] == ' ' || n[i] == '.' then '_' else n[i]
    ensures IsClean(CleanName(n))
    ensures CleanName(n) == n <==> IsClean(n)
  {
    if CleanName(n) == n {
      assert forall i :: 0 <= i < |n| ==> n[i] == CleanChar(n[i]);
    }
    if IsClean(n) {
      assert forall i :: 0 <= i < |n| ==> n[i] in n;
    }
  }

  // ---- the dictionaries as values -------------------------------------------------------------------

  /** `nd_ups_name`, the keys of `nd_ups_vars`, and `nd_ups_seen`. */
  datatype Reg = Reg(name: map<string, string>, vars: set<string>, seen: map<string, bool>)

  const NOTHING := Reg(map[], {}, map[])

  function Register(s: Reg, n: string): Reg {
    s.(name := s.name[n := CleanName(n)], vars := s.vars + {n})
  }

  /** The listing at start-up registers every name it meets. */
  function Enlist(s: Reg, list: seq<string>): Reg {
    if list == [] then s else Register(Enlist(s, list[..|list| - 1]), list[|list| - 1])
  }

  /** One listed UPS in a collection cycle. */
  function Visit(s: Reg, n: string): Reg {
    var s' := if n in s.name then s else Register(s, n);
    s'.(seen := s'.seen[n := true])
  }

  function Collect(s: Reg, list: seq<string>): Reg {
    if list == [] then s else Visit(Collect(s, list[..|list| - 1]), list[|list| - 1])
  }

  /** The names a collection cycle registers, in order. */
  function News(s: Reg, list: seq<string>): seq<string> {
    if list == [] then []
    else
      var (init, n) := (list[..|list| - 1], list[|list| - 1]);
      if n in Collect(s, init).name then News(s, init) else News(s, init) + [n]
  }

  predicate Seen(s: Reg, n: string) {
    n in s.seen && s.seen[n]
  }

  /** One item of the sweep; the stored value, not the key, says which entries are touched. */
  function SweepItem(s: Reg, k: string): Reg {
    if k !in s.name then s
    else
      var n := s.name[k];
      if Seen(s, n) then s.(seen := s.seen[n := false])
      else Reg(s.name - {n}, s.vars - {n}, s.seen - {n})
  }

  function Sweep(s: Reg, order: seq<string>): Reg {
    if order == [] then s else SweepItem(Sweep(s, order[..|order| - 1]), order[|order| - 1])
  }

  // ---- the dictionaries, updated in place -----------------------------------------------------------

  class Registry {
    var name: map<string, string>
    var vars: set<string>
    var seen: map<string, bool>

    ghost function S(): Reg
      reads this
    {
      Reg(name, vars, seen)
    }

    constructor ()
      ensures S() == NOTHING
    {
      name, vars, seen := map[], {}, map[];
    }

    /** `register_ups`. */
    method RegisterUps(n: string)
      modifies this
      ensures S() == Register(old(S()), n)
    {
      name := name[n := CleanName(n)];
      vars := vars + {n};
    }

    /** `set_seen`. */
    method SetSeen(n: string, b: bool)
      modifies this`seen
      ensures seen == old(seen)[n := b]
    {
      seen := seen[n := b];
    }

    /** `was_seen`: an absent entry reads as false. */
    method WasSeen(n: string) returns (b: bool)
      ensures b == Seen(S(), n)
    {
      b := n in seen && seen[n];
    }

    /** The listing loop before the first cycle. */
    method EnlistAll(list: seq<string>)
      modifies this
      ensures S() == Enlist(old(S()), list)
    {
      for i := 0 to |list|
        invariant S() == Enlist(old(S()), list[..i])
      {
        assert list[..i + 1][..i] == list[..i];
        RegisterUps(list[i]);
      }
      assert list[..|list|] == list;
    }

    /** The listing loop of one cycle; the result is the names it registered. */
    method CollectAll(list: seq<string>) returns (registered: seq<string>)
      modifies this
      ensures S() == Collect(old(S()), list)
      ensures registered == News(old(S()), list)
    {
      registered := [];
      for i := 0 to |list|
        invariant S() == Collect(old(S()), list[..i])
        invariant registered == News(old(S()), list[..i])
      {
        assert list[..i + 1][..i] == list[..i];
        if list[i] !in name {
          RegisterUps(list[i]);
          registered := registered + [list[i]];
        }
        SetSeen(list[i], true);
      }
      assert list[..|list|] == list;
    }

    /** The sweep at the end of a cycle, over the items in any order. */
    method SweepAll(order: seq<string>)
      modifies this
      ensures S() == Sweep(old(S()), order)
    {
      for i := 0 to |order|
        invariant S() == Sweep(old(S()), order[..i])
      {
        assert order[..i + 1][..i] == order[..i];
        if order[i] in name {
          var n := name[order[i]];
          var was := WasSeen(n);
          if was {
            SetSeen(n, false);
          } else {
            vars := vars - {n};
            seen := seen - {n};
            name := name - {n};
          }
        }
      }
      assert order[..|order|] == order;
    }
  }

  // ---- what every step keeps ------------------------------------------------------------------------

  /** The dictionaries are in step: the same names, and nothing marked that is not registered. */
  predicate InStep(s: Reg) {
    && s.vars == s.name.Keys
    && s.seen.Keys <= s.name.Keys
    && forall n :: n in s.name ==> s.name[n] == CleanName(n)
  }

  lemma {:induction false} EnlistMeans(s: Reg, list: seq<string>)
    requires InStep(s)
    ensures var s' := Enlist(s, list);
            InStep(s') && s'.seen == s.seen && forall n :: n in s'.name <==> n in s.name || n in list
  {
    if list != [] {
      EnlistMeans(s, list[..|list| - 1]);
      assert list == list[..|list| - 1] + [list[|list| - 1]];
    }
  }

  lemma {:induction false} CollectMeans(s: Reg, list: seq<string>)
    requires InStep(s)
    ensures var s' := Collect(s, list);
            && InStep(s')
            && (forall n :: n in s'.name <==> n in s.name || n in list)
            && (forall n :: Seen(s', n) <==> Seen(s, n) || n in list)
            && (forall n :: n in s'.seen <==> n in s.seen || n in list)
  {
    if list != [] {
      CollectMeans(s, list[..|list| - 1]);
      assert list == list[..|list| - 1] + [list[|list| - 1]];
    }
  }

  /** A cycle registers exactly the listed names that were not registered, each once. */
  lemma {:induction false} NewsMeans(s: Reg, list: seq<string>)
    requires InStep(s)
    ensures forall n :: n in News(s, list) <==> n in list && n !in s.name
    ensures forall i, j :: 0 <= i < j < |News(s, list)| ==> News(s, list)[i] != News(s, list)[j]
  {
    if list != [] {
      var init := list[..|list| - 1];
      NewsMeans(s, init);
      CollectMeans(s, init);
      assert list == init + [list[|list| - 1]];
      assert forall i :: 0 <= i < |News(s, init)| ==> News(s, init)[i] in News(s, init);
    }
  }

  lemma {:induction false} SweepInStep(s: Reg, order: seq<string>)
    requires InStep(s)
    ensures InStep(Sweep(s, order))
  {
    if order != [] {
      SweepInStep(s, order[..|order| - 1]);
    }
  }

  /** With clean names the sweep drops exactly the unmarked names it meets and unmarks the others. */
  lemma {:induction false} SweepClean(s: Reg, order: seq<string>)
    requires InStep(s) && forall n :: n in s.name ==> IsClean(n)
    requires forall i, j :: 0 <= i < j < |order| ==> order[i] != order[j]
    ensures var s' := Sweep(s, order);
            && (forall n :: n in s'.name <==> n in s.name && (n in order ==> Seen(s, n)))
            && (forall n :: n in s'.seen <==> n in s.seen && (n in order ==> Seen(s, n)))
            && (forall n :: Seen(s', n) <==> Seen(s, n) && n !in order)
  {
    if order != [] {
      var (init, k) := (order[..|order| - 1], order[|order| - 1]);
      SweepClean(s, init);
      SweepInStep(s, init);
      assert order == init + [k];
      assert k !in init;
      CleanNameIsClean(k);
      hide CleanName, IsClean;
    }
  }

  /** The sweep never touches an unclean name. */
  lemma {:induction false} SweepSkipsUnclean(s: Reg, order: seq<string>, n: string)
    requires InStep(s) && !IsClean(n)
    ensures n in Sweep(s, order).name <==> n in s.name
    ensures Seen(Sweep(s, order), n) <==> Seen(s, n)
  {
    if order != [] {
      var (init, k) := (order[..|order| - 1], order[|order| - 1]);
      SweepSkipsUnclean(s, init, n);
      SweepInStep(s, init);
      CleanNameIsClean(k);
      hide CleanName;
    }
  }

  // ---- runs -----------------------------------------------------------------------------------------

  /** One completed cycle: the list upsd gave, and the order in which the sweep met the items. */
  datatype Cycle = Cycle(list: seq<string>, order: seq<string>)

  /** The sweep meets every item once. */
  ghost predicate Enumerates(order: seq<string>, names: set<string>) {
    && (forall n :: n in order <==> n in names)
    && (forall i, j :: 0 <= i < j < |order| ==> order[i] != order[j])
  }

  function Run(first: seq<string>, cycles: seq<Cycle>): Reg {
    if cycles == [] then Enlist(NOTHING, first)
    else
      var (init, c) := (cycles[..|cycles| - 1], cycles[|cycles| - 1]);
      Sweep(Collect(Run(first, init), c.list), c.order)
  }

  ghost predicate IsRun(first: seq<string>, cycles: seq<Cycle>) {
    cycles != [] ==>
      var (init, c) := (cycles[..|cycles| - 1], cycles[|cycles| - 1]);
      IsRun(first, init) && Enumerates(c.order, Collect(Run(first, init), c.list).name.Keys)
  }

  /** The list of the latest cycle, or the one at start-up. */
  function LastList(first: seq<string>, cycles: seq<Cycle>): seq<string> {
    if cycles == [] then first else cycles[|cycles| - 1].list
  }

  predicate AllClean(list: seq<string>) {
    forall n :: n in list ==> IsClean(n)
  }

  predicate CleanRun(first: seq<string>, cycles: seq<Cycle>) {
    AllClean(first) && forall i :: 0 <= i < |cycles| ==> AllClean(cycles[i].list)
  }

  /** What a completed sweep is meant to leave behind. */
  ghost predicate Synced(s: Reg, list: seq<string>) {
    && (forall n :: n in s.name <==> n in list)
    && s.vars == s.name.Keys && s.seen.Keys == s.name.Keys
    && (forall n :: n in s.seen ==> !s.seen[n])
  }

  /** In every run, whatever the names, the dictionaries stay in step. */
  lemma {:induction false} RunInStep(first: seq<string>, cycles: seq<Cycle>)
    ensures InStep(Run(first, cycles))
  {
    if cycles == [] {
      EnlistMeans(NOTHING, first);
    } else {
      var (init, c) := (cycles[..|cycles| - 1], cycles[|cycles| - 1]);
      RunInStep(first, init);
      CollectMeans(Run(first, init), c.list);
      SweepInStep(Collect(Run(first, init), c.list), c.order);
    }
  }

  /** Between cycles of a clean run: exactly the listed names, none marked. */
  ghost predicate Ready(s: Reg, list: seq<string>) {
    InStep(s) && (forall n :: n in s.name <==> n in list) && forall n :: !Seen(s, n)
  }

  /** What a cycle of clean names does to any one name. */
  lemma CycleMeans(s: Reg, prev: seq<string>, c: Cycle)
    requires Ready(s, prev) && AllClean(prev) && AllClean(c.list)
    requires Enumerates(c.order, Collect(s, c.list).name.Keys)
    ensures var s' := Sweep(Collect(s, c.list), c.order);
            && InStep(s')
            && (forall n :: n in s'.name <==> n in c.list)
            && (forall n :: n in s'.seen <==> n in c.list)
            && (forall n :: !Seen(s', n))
  {
    var s1 := Collect(s, c.list);
    CollectMeans(s, c.list);
    assert InStep(s1);
    hide IsClean, Sweep, Collect, InStep;
    SweepClean(s1, c.order);
    SweepInStep(s1, c.order);
    hide Seen;
    assert forall n :: n in s1.seen ==> n in s1.name by { assert InStep(s1); SeenIsNamed(s1); }
  }

  lemma SeenIsNamed(s: Reg)
    requires InStep(s)
    ensures forall n :: n in s.seen ==> n in s.name
  {
  }

  lemma CycleSyncs(s: Reg, prev: seq<string>, c: Cycle)
    requires Ready(s, prev) && AllClean(prev) && AllClean(c.list)
    requires Enumerates(c.order, Collect(s, c.list).name.Keys)
    ensures Synced(Sweep(Collect(s, c.list), c.order), c.list)
    ensures Ready(Sweep(Collect(s, c.list), c.order), c.list)
  {
    CycleMeans(s, prev, c);
    var s' := Sweep(Collect(s, c.list), c.order);
    hide Sweep, Collect, Enumerates, AllClean;
    assert forall n :: n in s'.seen ==> !Seen(s', n);
  }

  lemma {:induction false} CleanRunReady(first: seq<string>, cycles: seq<Cycle>)
    requires IsRun(first, cycles) && CleanRun(first, cycles)
    ensures Ready(Run(first, cycles), LastList(first, cycles))
    ensures cycles != [] ==> Synced(Run(first, cycles), LastList(first, cycles))
  {
    if cycles == [] {
      EnlistMeans(NOTHING, first);
    } else {
      var (init, c) := (cycles[..|cycles| - 1], cycles[|cycles| - 1]);
      CleanRunReady(first, init);
      hide Ready, Synced, Enumerates, AllClean;
      assert forall i :: 0 <= i < |init| ==> init[i] == cycles[i];
      CycleSyncs(Run(first, init), LastList(first, init), c);
    }
  }

  /** An unclean name stays registered for good, and stays marked once a cycle has listed it. */
  lemma {:induction false} UncleanSticks(first: seq<string>, cycles: seq<Cycle>, n: string)
    requires !IsClean(n)
    ensures n in first ==> n in Run(first, cycles).name
    ensures forall i :: 0 <= i < |cycles| && n in cycles[i].list ==> Seen(Run(first, cycles), n)
  {
    if cycles == [] {
      EnlistMeans(NOTHING, first);
    } else {
      var (init, c) := (cycles[..|cycles| - 1], cycles[|cycles| - 1]);
      UncleanSticks(first, init, n);
      RunInStep(first, init);
      CollectMeans(Run(first, init), c.list);
      SweepSkipsUnclean(Collect(Run(first, init), c.list), c.order, n);
      hide Sweep, Collect, InStep, IsClean;
      assert forall i :: 0 <= i < |init| ==> init[i] == cycles[i];
    }
  }

  /** Main result: after a completed sweep the dictionaries agree with the list of that cycle if and only
      if no name listed so far, at start-up or in any cycle, contains a space or a dot. */
  lemma SyncedIffClean(first: seq<string>, cycles: seq<Cycle>)
    requires IsRun(first, cycles) && cycles != []
    ensures Synced(Run(first, cycles), LastList(first, cycles)) <==> CleanRun(first, cycles)
  {
    if CleanRun(first, cycles) {
      CleanRunReady(first, cycles);
    } else {
      hide Run, IsRun, IsClean;
      var s := Run(first, cycles);
      if n :| n in first && !IsClean(n) {
        UncleanSticks(first, cycles, n);
        assert n in s.name;
        assert n in LastList(first, cycles) ==> Seen(s, n);
      } else {
        var i :| 0 <= i < |cycles| && !AllClean(cycles[i].list);
        var n :| n in cycles[i].list && !IsClean(n);
        UncleanSticks(first, cycles, n);
        assert Seen(s, n);
      }
    }
  }

  /** In a clean run a cycle registers exactly the names its list adds to the preceding one, each once. */
  lemma RegistersNewcomers(first: seq<string>, cycles: seq<Cycle>, list: seq<string>)
    requires IsRun(first, cycles) && CleanRun(first, cycles)
    ensures var news := News(Run(first, cycles), list);
            && (forall n :: n in news <==> n in list && n !in LastList(first, cycles))
            && (forall i, j :: 0 <= i < j < |news| ==> news[i] != news[j])
  {
    CleanRunReady(first, cycles);
    NewsMeans(Run(first, cycles), list);
  }

  /** Two names that clean to the same text: the sweep drops a UPS that was just listed. */
  lemma ListedUpsDropped()
    ensures var c := Cycle(["a b", "a_b"], ["a b", "a_b"]);
            IsRun(c.list, [c]) && "a_b" in c.list && "a_b" !in Run(c.list, [c]).name
  {
    var list := ["a b", "a_b"];
    var c := Cycle(list, list);
    assert CleanName("a b") == "a_b" && CleanName("a_b") == "a_b";
    assert list[..1] == ["a b"] && ["a b"][..0] == [];
    assert [c][..0] == [];
    var s0 := Run(list, []);
    assert s0 == Reg(map["a b" := "a_b", "a_b" := "a_b"], {"a b", "a_b"}, map[]);
    var s1 := Collect(s0, list);
    assert Collect(s0, ["a b"]) == s0.(seen := map["a b" := true]);
    assert s1 == s0.(seen := map["a b" := true, "a_b" := true]);
    assert Sweep(s1, ["a b"]) == s0.(seen := map["a b" := true, "a_b" := false]);
    assert Enumerates(list, s1.name.Keys);
    assert IsRun(list, []);
  }
}
