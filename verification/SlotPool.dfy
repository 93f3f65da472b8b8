/** The preallocated record pools with heap fallback: a stack of free slot indices, updated in place.
    The worker pool has 256 slots, the query pool 512; the code is the same. */
module SlotPool {

  /** A record handed out: slot `index` of the pool, or heap allocation number `id`. */
  datatype Record = Slot(index: int) | Heap(id: nat)

  /** Free stack, records held by callers, and the number of heap allocations made so far. */
  datatype Pool = Pool(slots: nat, stack: seq<int>, held: set<Record>, allocs: nat)

  function Init(slots: nat): Pool {
    Pool(slots, seq(slots, i => i), {}, 0)
  }

  /** `get_worker` and `get_query`. */
  function GetRecord(p: Pool): Record {
    if p.stack == [] then Heap(p.allocs) else Slot(p.stack[|p.stack| - 1])
  }

  function Get(p: Pool): Pool {
    var r := GetRecord(p);
    if p.stack == [] then p.(held := p.held + {r}, allocs := p.allocs + 1)
    else p.(stack := p.stack[..|p.stack| - 1], held := p.held + {r})
  }

  /** `return_worker` and `return_query`. */
  function Return(p: Pool, r: Record): Pool {
    if r.Heap? || r.index < 0 || r.index >= p.slots then p.(held := p.held - {r})
    else p.(stack := p.stack + [r.index], held := p.held - {r})
  }

  predicate NoDuplicates(s: seq<int>) {
    forall i, j :: 0 <= i < j < |s| ==> s[i] != s[j]
  }

  /** Free entries and slots held outside are disjoint, free of duplicates and cover every index. */
  predicate Partition(p: Pool) {
    && NoDuplicates(p.stack)
    && (forall i :: 0 <= i < p.slots ==> (i in p.stack <==> Slot(i) !in p.held))
    && (forall i :: i in p.stack ==> 0 <= i < p.slots)
    && (forall r :: r in p.held ==> if r.Slot? then 0 <= r.index < p.slots else r.id < p.allocs)
  }

  lemma InitPartition(slots: nat)
    ensures Partition(Init(slots))
  {
    var s := Init(slots).stack;
    assert forall i :: 0 <= i < slots ==> s[i] == i;
    forall i | 0 <= i < slots
      ensures i in s
    {
      assert s[i] == i;
    }
  }

  /** A record is handed out to one holder at a time, and only a full pool allocates. */
  lemma GetKeeps(p: Pool)
    requires Partition(p)
    ensures Partition(Get(p))
    ensures GetRecord(p) !in p.held && Get(p).held == p.held + {GetRecord(p)}
    ensures GetRecord(p).Heap? <==> forall i :: 0 <= i < p.slots ==> Slot(i) in p.held
  {
    if p.stack != [] {
      var (n, p') := (|p.stack| - 1, Get(p));
      var x := p.stack[n];
      assert x in p.stack;
      assert p.stack == p'.stack + [x];
      assert forall i :: i in p.stack <==> i in p'.stack || i == x;
      assert x !in p'.stack;
      assert Slot(x) !in p.held;
    }
  }

  /** Giving a held record back keeps the partition and never overflows the stack. */
  lemma ReturnKeeps(p: Pool, r: Record)
    requires Partition(p) && r in p.held
    ensures Partition(Return(p, r)) && Return(p, r).held == p.held - {r}
    ensures |Return(p, r).stack| <= p.slots
  {
    var p' := Return(p, r);
    if r.Slot? {
      assert r.index !in p.stack;
      assert forall i :: i in p'.stack <==> i in p.stack || i == r.index;
    }
    StackFits(p');
  }

  /** Distinct indices below the slot count fit the stack. */
  lemma StackFits(p: Pool)
    requires NoDuplicates(p.stack) && forall i :: i in p.stack ==> 0 <= i < p.slots
    ensures |p.stack| <= p.slots
  {
    Pigeonhole(p.stack, p.slots);
  }

  lemma {:induction false} Pigeonhole(s: seq<int>, n: nat)
    requires NoDuplicates(s) && forall i :: i in s ==> 0 <= i < n
    ensures |s| <= n
    decreases n
  {
    assert forall i :: 0 <= i < |s| ==> s[i] in s;
    assert s != [] ==> 0 <= s[0] < n;
    if n > 0 && n - 1 in s {
      var k :| 0 <= k < |s| && s[k] == n - 1;
      var t := s[..k] + s[k + 1..];
      assert forall i :: 0 <= i < |t| ==> t[i] == s[if i < k then i else i + 1];
      assert forall i :: 0 <= i < |t| ==> t[i] in s && t[i] != n - 1;
      Pigeonhole(t, n - 1);
    } else if n > 0 {
      Pigeonhole(s, n - 1);
    }
  }

  // ---- whole runs -----------------------------------------------------------------------------------

  datatype Op = GetOp | ReturnOp(r: Record)

  function Apply(p: Pool, op: Op): Pool {
    match op
    case GetOp => Get(p)
    case ReturnOp(r) => Return(p, r)
  }

  /** Callers give back only what they hold. */
  predicate IsRun(p: Pool, ops: seq<Op>)
    decreases |ops|
  {
    ops == [] || ((ops[0].ReturnOp? ==> ops[0].r in p.held) && IsRun(Apply(p, ops[0]), ops[1..]))
  }

  function Final(p: Pool, ops: seq<Op>): Pool
    decreases |ops|
  {
    if ops == [] then p else Final(Apply(p, ops[0]), ops[1..])
  }

  lemma {:induction false} RunKeeps(p: Pool, ops: seq<Op>)
    requires Partition(p) && IsRun(p, ops)
    ensures Partition(Final(p, ops)) && Final(p, ops).slots == p.slots
    decreases |ops|
  {
    if ops != [] {
      match ops[0]
      case GetOp =>
        GetKeeps(p);
        RunKeeps(Get(p), ops[1..]);
      case ReturnOp(r) =>
        ReturnKeeps(p, r);
        RunKeeps(Return(p, r), ops[1..]);
    }
  }

  /** Over every sequence of gets and returns of held records: slots are partitioned, the next record is
      nobody else's, heap fallback happens exactly when every slot is out, and the stack fits. */
  lemma PoolSafety(slots: nat, ops: seq<Op>)
    requires IsRun(Init(slots), ops)
    ensures var p := Final(Init(slots), ops);
            && Partition(p) && |p.stack| <= slots
            && GetRecord(p) !in p.held
            && (GetRecord(p).Heap? <==> forall i :: 0 <= i < slots ==> Slot(i) in p.held)
  {
    InitPartition(slots);
    RunKeeps(Init(slots), ops);
    var p := Final(Init(slots), ops);
    GetKeeps(p);
    StackFits(p);
  }

  // ---- the implementation ---------------------------------------------------------------------------

  class SlotStack {
    const slots: nat
    var freeStack: array<int>
    var top: nat
    var allocs: nat
    ghost var held: set<Record>

    ghost predicate Valid()
      reads this, freeStack
    {
      freeStack.Length == slots && top <= slots && Partition(View())
    }

    ghost function View(): Pool
      reads this, freeStack
      requires top <= freeStack.Length
    {
      Pool(slots, freeStack[..top], held, allocs)
    }

    constructor (slots: nat)
      ensures Valid() && View() == Init(slots) && this.slots == slots && fresh(freeStack)
    {
      this.slots := slots;
      freeStack := new int[slots](i => i);
      top, allocs, held := slots, 0, {};
      new;
      assert freeStack[..top] == Init(slots).stack;
      InitPartition(slots);
    }

    method Take() returns (r: Record)
      requires Valid()
      modifies this
      ensures Valid() && r !in old(held) && freeStack == old(freeStack)
      ensures r == GetRecord(old(View())) && View() == Get(old(View()))
    {
      GetKeeps(View());
      ghost var p := View();
      if top == 0 {
        r := Heap(allocs);
        allocs := allocs + 1;
      } else {
        top := top - 1;
        r := Slot(freeStack[top]);
        assert freeStack[..top] == p.stack[..top];
      }
      held := held + {r};
    }

    /** The push stays inside the array because the record was held. */
    method GiveBack(r: Record)
      requires Valid() && r in held
      modifies this, freeStack
      ensures Valid() && freeStack == old(freeStack)
      ensures View() == Return(old(View()), r)
    {
      ghost var p := View();
      ReturnKeeps(p, r);
      held := held - {r};
      if r.Heap? || r.index < 0 || r.index >= slots {
        return;
      }
      freeStack[top] := r.index;
      top := top + 1;
      assert freeStack[..top] == p.stack + [r.index];
    }
  }
}
