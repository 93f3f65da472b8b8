/** The bounded command queue of the event loop: a circular buffer updated in place. */
module CommandQueue {

  datatype Cmd = Cmd(opcode: nat, payload: string)

  /** `CmdPool` without its lock: buffer, positions and fill count. */
  datatype Pool = Pool(buffer: seq<Cmd>, head: nat, tail: nat, count: nat) {
    function Size(): nat {
      |buffer|
    }

    /** The position i places after the head. */
    function At(i: nat): nat {
      if head + i < Size() then head + i else head + i - Size()
    }

    predicate Valid() {
      && count <= Size()
      && (Size() > 0 ==> head < Size() && tail < Size() && tail == At(count))
    }

    /** The queued commands, oldest first. */
    function Queue(): (q: seq<Cmd>)
      requires Valid()
      ensures |q| == count
      ensures forall i :: 0 <= i < count ==> q[i] == buffer[At(i)]
    {
      seq(count, i requires 0 <= i < count => buffer[At(i)])
    }
  }

  function InitPool(buffer: seq<Cmd>): Pool {
    Pool(buffer, 0, 0, 0)
  }

  /** The insertion at the end of `push_cmd`. */
  function Push(p: Pool, cmd: Cmd): Pool
    requires p.Valid() && p.count < p.Size()
  {
    p.(buffer := p.buffer[p.tail := cmd], tail := (p.tail + 1) % p.Size(), count := p.count + 1)
  }

  /** The removal in the middle of `pop_cmd`. */
  function Pop(p: Pool): Pool
    requires p.Valid() && p.count > 0
  {
    p.(head := (p.head + 1) % p.Size(), count := p.count - 1)
  }

  lemma NextPosition(i: nat, n: nat)
    requires i < n
    ensures (i + 1) % n == if i + 1 < n then i + 1 else 0
  {
  }

  /** Inserting appends to the queue, whatever the positions are. */
  lemma PushAppends(p: Pool, cmd: Cmd)
    requires p.Valid() && p.count < p.Size()
    ensures Push(p, cmd).Valid() && Push(p, cmd).Size() == p.Size()
    ensures Push(p, cmd).Queue() == p.Queue() + [cmd]
  {
    NextPosition(p.tail, p.Size());
    var p' := Push(p, cmd);
    assert forall i :: 0 <= i < p.count ==> p'.At(i) == p.At(i) && p.At(i) != p.tail;
  }

  /** Removing takes the oldest command off the queue. */
  lemma PopTakesOldest(p: Pool)
    requires p.Valid() && p.count > 0
    ensures Pop(p).Valid() && Pop(p).Size() == p.Size()
    ensures p.Queue() == [p.buffer[p.head]] + Pop(p).Queue()
  {
    NextPosition(p.head, p.Size());
    var p' := Pop(p);
    assert forall i :: 0 <= i < p'.count ==> p'.At(i) == p.At(i + 1);
  }

  /** The pool as the threads share it; its methods are the critical sections. */
  class CmdPool {
    var buffer: array<Cmd>
    var head: nat
    var tail: nat
    var count: nat

    ghost function View(): Pool
      reads this, buffer
    {
      Pool(buffer[..], head, tail, count)
    }

    constructor (size: nat, zero: Cmd)
      ensures View().Valid() && View().Queue() == [] && View().Size() == size && fresh(buffer)
    {
      buffer := new Cmd[size](_ => zero);
      head, tail, count := 0, 0, 0;
    }

    /** `push_cmd` with the lock held and no waiting: fails only when the queue is full. */
    method TryPush(cmd: Cmd) returns (ok: bool)
      requires View().Valid()
      modifies this, buffer
      ensures View().Valid() && buffer == old(buffer)
      ensures ok <==> |old(View().Queue())| < buffer.Length
      ensures View().Queue() == old(View().Queue()) + (if ok then [cmd] else [])
      ensures ok ==> View() == Push(old(View()), cmd)
      ensures !ok ==> View() == old(View())
    {
      if count == buffer.Length {
        return false;
      }
      ghost var p := View();
      buffer[tail] := cmd;
      tail := (tail + 1) % buffer.Length;
      count := count + 1;
      assert View() == Push(p, cmd);
      PushAppends(p, cmd);
      return true;
    }

    /** `pop_cmd` with the lock held. */
    method PopCmd() returns (ok: bool, cmd: Cmd)
      requires View().Valid()
      modifies this
      ensures View().Valid()
      ensures ok <==> old(View().Queue()) != []
      ensures old(View().Queue()) == (if ok then [cmd] else []) + View().Queue()
      ensures View() == if ok then Pop(old(View())) else old(View())
    {
      if count == 0 {
        cmd := Cmd(0, "");
        return false, cmd;
      }
      ghost var p := View();
      cmd := buffer[head];
      head := (head + 1) % buffer.Length;
      count := count - 1;
      assert View() == Pop(p);
      PopTakesOldest(p);
      return true, cmd;
    }
  }
}
