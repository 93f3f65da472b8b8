/** The list of requests that are being answered, and their cancellation flags. */
module PendingRequests {
  /** A message id: the bytes before its terminator. */
  type Id = seq<bv8>

  // ---- the hash -------------------------------------------------------------------------------------

  /** One byte mixed into a 32-bit FNV-1a hash. */
  function Mix(hash: bv32, c: bv8): bv32 {
    (hash ^ (c as bv32)) * 0x0100_0193
  }

  function Fnv1a(s: Id): bv32 {
    if s == [] then 0x811c9dc5 else Mix(Fnv1a(s[..|s| - 1]), s[|s| - 1])
  }

  /** `simple_hash`. */
  method SimpleHash(s: Id) returns (hash: bv32)
    ensures hash == Fnv1a(s)
  {
    hide Mix;
    hash := 0x811c9dc5;
    for i := 0 to |s|
      invariant hash == Fnv1a(s[..i])
    {
      assert s[..i + 1][..i] == s[..i];
      hash := Mix(hash, s[i]);
    }
    assert s[..|s|] == s;
  }

  /** The published values of FNV-1a for no byte, "a" and "ab". */
  lemma FnvVectors()
    ensures Fnv1a([]) == 0x811c_9dc5
    ensures Fnv1a([0x61]) == 0xe40c_292c
    ensures Fnv1a([0x61, 0x62]) == 0x4d25_05ca
  {
    assert [0x61, 0x62][..1] == [0x61] && [0x61 as bv8][..0] == [];
  }

  // ---- the list as a value --------------------------------------------------------------------------

  datatype Req = Req(id: Id, canceled: bool)

  /** The first request from `i` on with this id, by plain comparison, or the number of requests. */
  function Find(l: seq<Req>, id: Id, i: nat): (r: nat)
    requires i <= |l|
    ensures i <= r <= |l| && (r < |l| ==> l[r].id == id)
    ensures forall j :: i <= j < r ==> l[j].id != id
    decreases |l| - i
  {
    if i == |l| || l[i].id == id then i else Find(l, id, i + 1)
  }

  function Add(l: seq<Req>, id: Id): seq<Req> {
    [Req(id, false)] + l
  }

  function Remove(l: seq<Req>, id: Id): seq<Req> {
    var i := Find(l, id, 0);
    if i < |l| then l[..i] + l[i + 1..] else l
  }

  function Cancel(l: seq<Req>, id: Id): seq<Req> {
    var i := Find(l, id, 0);
    if i < |l| then l[i := Req(id, true)] else l
  }

  function CancelAll(l: seq<Req>): seq<Req> {
    seq(|l|, i requires 0 <= i < |l| => l[i].(canceled := true))
  }

  predicate Holds(l: seq<Req>, id: Id) {
    exists k :: 0 <= k < |l| && l[k].id == id
  }

  // ---- the linked list ------------------------------------------------------------------------------

  class Node {
    const id: Id
    const hash: bv32
    var canceled: bool
    var next: Node?

    constructor (id: Id, hash: bv32)
      ensures this.id == id && this.hash == hash && !canceled && next == null
    {
      this.id, this.hash, canceled, next := id, hash, false, null;
    }

    /** `aclk_web_client_interrupt_cb`. */
    method Interrupted() returns (b: bool)
      ensures b == canceled
    {
      b := canceled;
    }
  }

  /** The node at position `i`, null behind the last. */
  ghost function NodeAt(ns: seq<Node>, i: nat): Node? {
    if i < |ns| then ns[i] else null
  }

  ghost predicate Chained(ns: seq<Node>)
    reads ns`next
  {
    forall i :: 0 <= i < |ns| ==> ns[i].next == NodeAt(ns, i + 1)
  }

  ghost predicate Sound(ns: seq<Node>) {
    && (forall i :: 0 <= i < |ns| ==> ns[i].hash == Fnv1a(ns[i].id))
    && (forall i, j :: 0 <= i < j < |ns| ==> ns[i] != ns[j])
  }

  ghost function RequestsOf(ns: seq<Node>): seq<Req>
    reads ns
  {
    seq(|ns|, i requires 0 <= i < |ns| reads ns => Req(ns[i].id, ns[i].canceled))
  }

  lemma ChainedWith(n: Node, ns: seq<Node>)
    requires Chained(ns) && n.next == NodeAt(ns, 0)
    ensures Chained([n] + ns)
  {
    var ns' := [n] + ns;
    forall i | 0 <= i < |ns'|
      ensures ns'[i].next == NodeAt(ns', i + 1)
    {
      assert i > 0 ==> ns'[i] == ns[i - 1] && ns[i - 1].next == NodeAt(ns, i);
    }
  }

  lemma SoundWith(n: Node, ns: seq<Node>)
    requires Sound(ns) && n !in ns && n.hash == Fnv1a(n.id)
    ensures Sound([n] + ns)
  {
    hide Fnv1a;
    var ns' := [n] + ns;
    assert forall i :: 0 < i < |ns'| ==> ns'[i] == ns[i - 1] && ns[i - 1] in ns;
  }

  lemma RequestsWith(n: Node, ns: seq<Node>)
    ensures RequestsOf([n] + ns) == [Req(n.id, n.canceled)] + RequestsOf(ns)
  {
  }

  /** The chain around a removed node, once the link over it is made. */
  lemma ChainedWithout(ns: seq<Node>, i: nat)
    requires i < |ns| && forall j :: 0 <= j < |ns| && j + 1 != i ==> ns[j].next == NodeAt(ns, j + 1)
    requires i > 0 ==> ns[i - 1].next == NodeAt(ns, i + 1)
    ensures Chained(ns[..i] + ns[i + 1..])
  {
    var ns' := ns[..i] + ns[i + 1..];
    forall j | 0 <= j < |ns'|
      ensures ns'[j].next == NodeAt(ns', j + 1)
    {
      var k := if j < i then j else j + 1;
      assert ns'[j] == ns[k];
      assert k + 1 != i ==> ns[k].next == NodeAt(ns, k + 1);
    }
  }

  lemma WithoutNode(ns: seq<Node>, i: nat)
    requires Sound(ns) && i < |ns|
    ensures Sound(ns[..i] + ns[i + 1..])
    ensures RequestsOf(ns[..i] + ns[i + 1..]) == RequestsOf(ns)[..i] + RequestsOf(ns)[i + 1..]
  {
    hide Fnv1a;
    var ns' := ns[..i] + ns[i + 1..];
    assert forall j :: 0 <= j < |ns'| ==> ns'[j] == ns[if j < i then j else j + 1];
  }

  class PendingList {
    var head: Node?
    ghost var nodes: seq<Node>

    ghost predicate Valid()
      reads this, nodes
    {
      head == NodeAt(nodes, 0) && Chained(nodes) && Sound(nodes)
    }

    ghost function Requests(): seq<Req>
      reads this, nodes
    {
      RequestsOf(nodes)
    }

    constructor ()
      ensures Valid() && nodes == []
    {
      head, nodes := null, [];
    }

    /** `pending_req_list_add`. */
    method AddRequest(id: Id) returns (n: Node)
      requires Valid()
      modifies this
      ensures Valid() && fresh(n) && nodes == [n] + old(nodes)
      ensures Requests() == Add(old(Requests()), id)
    {
      hide Fnv1a, Chained, Sound, RequestsOf;
      var hash := SimpleHash(id);
      n := new Node(id, hash);
      n.next := head;
      ChainedWith(n, nodes);
      SoundWith(n, nodes);
      RequestsWith(n, nodes);
      head := n;
      nodes := [n] + nodes;
    }

    /** `mark_pending_req_cancelled`: 0 if the id was found, 1 if not. */
    method CancelRequest(id: Id) returns (rc: int)
      requires Valid()
      modifies nodes
      ensures Valid() && nodes == old(nodes)
      ensures Requests() == Cancel(old(Requests()), id)
      ensures rc == if Holds(old(Requests()), id) then 0 else 1
    {
      hide Fnv1a;
      var hash := SimpleHash(id);
      ghost var l := Requests();
      var curr := head;
      ghost var i := 0;
      while curr != null
        invariant 0 <= i <= |nodes| && curr == NodeAt(nodes, i)
        invariant Find(l, id, i) == Find(l, id, 0)
        decreases |nodes| - i
      {
        if curr.hash == hash && curr.id == id {
          curr.canceled := true;
          assert Requests() == Cancel(l, id);
          return 0;
        }
        curr := curr.next;
        i := i + 1;
      }
      return 1;
    }

    /** `mark_pending_req_cancel_all`. */
    method CancelEverything()
      requires Valid()
      modifies nodes
      ensures Valid() && nodes == old(nodes)
      ensures Requests() == CancelAll(old(Requests()))
    {
      var curr := head;
      ghost var i := 0;
      while curr != null
        invariant Valid()
        invariant 0 <= i <= |nodes| && curr == NodeAt(nodes, i)
        invariant forall j :: 0 <= j < i ==> nodes[j].canceled
        decreases |nodes| - i
      {
        curr.canceled := true;
        curr := curr.next;
        i := i + 1;
      }
    }

    /** `pending_req_list_rm`. */
    method RemoveRequest(id: Id)
      requires Valid()
      modifies this, nodes
      ensures Valid()
      ensures Requests() == Remove(old(Requests()), id)
      ensures forall n :: n in nodes ==> n in old(nodes)
    {
      hide Fnv1a;
      var hash := SimpleHash(id);
      ghost var l := Requests();
      var prev: Node? := null;
      var curr := head;
      ghost var i := 0;
      while curr != null
        invariant 0 <= i <= |nodes| && curr == NodeAt(nodes, i)
        invariant prev == if i == 0 then null else nodes[i - 1]
        invariant Find(l, id, i) == Find(l, id, 0)
        decreases |nodes| - i
      {
        if curr.hash == hash && curr.id == id {
          Unlink(prev, curr, i);
          return;
        }
        prev := curr;
        curr := curr.next;
        i := i + 1;
      }
    }

    /** Takes the node at position `i` out of the chain. */
    method Unlink(prev: Node?, curr: Node, ghost i: nat)
      requires Valid() && i < |nodes| && curr == nodes[i] && prev == if i == 0 then null else nodes[i - 1]
      modifies this, nodes
      ensures Valid() && nodes == old(nodes[..i] + nodes[i + 1..])
      ensures Requests() == old(Requests()[..i] + Requests()[i + 1..])
    {
      hide RequestsOf, Chained, Sound;
      LinkOver(prev, curr, i);
      WithoutNode(nodes, i);
      ChainedWithout(nodes, i);
      nodes := nodes[..i] + nodes[i + 1..];
    }

    /** Points over the node at position `i`. */
    method LinkOver(prev: Node?, curr: Node, ghost i: nat)
      requires Valid() && i < |nodes| && curr == nodes[i] && prev == if i == 0 then null else nodes[i - 1]
      modifies this`head, nodes`next
      ensures head == if i == 0 then NodeAt(nodes, 1) else nodes[0]
      ensures forall j :: 0 <= j < |nodes| && j + 1 != i ==> nodes[j].next == NodeAt(nodes, j + 1)
      ensures i > 0 ==> nodes[i - 1].next == NodeAt(nodes, i + 1)
      ensures Requests() == old(Requests())
    {
      hide Fnv1a;
      if prev != null {
        prev.next := curr.next;
      } else {
        head := curr.next;
      }
      assert RequestsOf(nodes) == old(RequestsOf(nodes));
    }
  }

  // ---- runs -----------------------------------------------------------------------------------------

  datatype Event = Added(id: Id) | Removed(id: Id) | Canceled(id: Id) | CanceledAll

  function Next(l: seq<Req>, ev: Event): seq<Req> {
    match ev
    case Added(id) => Add(l, id)
    case Removed(id) => Remove(l, id)
    case Canceled(id) => Cancel(l, id)
    case CanceledAll => CancelAll(l)
  }

  function Run(evs: seq<Event>): seq<Req> {
    if evs == [] then [] else Next(Run(evs[..|evs| - 1]), evs[|evs| - 1])
  }

  /** The event at `i` added the request with this id that is still live. */
  predicate LiveSince(evs: seq<Event>, id: Id, i: nat) {
    && i < |evs| && evs[i] == Added(id)
    && forall j :: i < j < |evs| ==> evs[j] != Removed(id) && evs[j] != Added(id)
  }

  predicate Live(evs: seq<Event>, id: Id) {
    exists i :: 0 <= i < |evs| && LiveSince(evs, id, i)
  }

  predicate CanceledAfter(evs: seq<Event>, id: Id, i: nat) {
    exists j :: i < j < |evs| && (evs[j] == Canceled(id) || evs[j] == CanceledAll)
  }

  /** A cancel for this id, or a cancel of everything, came after its add. */
  predicate Flagged(evs: seq<Event>, id: Id) {
    exists i :: 0 <= i < |evs| && LiveSince(evs, id, i) && CanceledAfter(evs, id, i)
  }

  /** An id is only added while it is not live. */
  predicate UniqueIds(evs: seq<Event>) {
    forall i :: 0 <= i < |evs| && evs[i].Added? ==> !Live(evs[..i], evs[i].id)
  }

  // ---- how the history of one id grows --------------------------------------------------------------

  lemma LiveSnoc(evs: seq<Event>, ev: Event, id: Id)
    ensures Live(evs + [ev], id) <==> ev == Added(id) || (Live(evs, id) && ev != Removed(id))
  {
    var evs' := evs + [ev];
    assert evs'[|evs|] == ev;
    assert forall i :: 0 <= i < |evs| ==> evs'[i] == evs[i];
    if ev == Added(id) {
      assert LiveSince(evs', id, |evs|);
    } else {
      if i :| 0 <= i < |evs| && LiveSince(evs, id, i) && ev != Removed(id) {
        assert LiveSince(evs', id, i);
      }
      if i :| 0 <= i < |evs'| && LiveSince(evs', id, i) {
        assert LiveSince(evs, id, i);
      }
    }
  }

  predicate Cancels(ev: Event, id: Id) {
    ev == Canceled(id) || ev == CanceledAll
  }

  lemma FlaggedSnoc(evs: seq<Event>, ev: Event, id: Id)
    ensures Flagged(evs + [ev], id) <==>
            ev != Added(id) && ev != Removed(id) && (Flagged(evs, id) || (Live(evs, id) && Cancels(ev, id)))
  {
    var evs' := evs + [ev];
    assert evs'[|evs|] == ev;
    assert forall i :: 0 <= i < |evs| ==> evs'[i] == evs[i];
    if i :| 0 <= i < |evs'| && LiveSince(evs', id, i) && CanceledAfter(evs', id, i) {
      assert i < |evs|;
      assert LiveSince(evs, id, i);
      var j :| i < j < |evs'| && (evs'[j] == Canceled(id) || evs'[j] == CanceledAll);
      assert j < |evs| ==> CanceledAfter(evs, id, i);
    }
    if ev != Added(id) && ev != Removed(id) {
      if i :| 0 <= i < |evs| && LiveSince(evs, id, i) && (CanceledAfter(evs, id, i) || Cancels(ev, id)) {
        assert LiveSince(evs', id, i);
        if Cancels(ev, id) {
          assert CanceledAfter(evs', id, i);
        } else {
          var j :| i < j < |evs| && (evs[j] == Canceled(id) || evs[j] == CanceledAll);
          assert evs'[j] == evs[j];
        }
      }
    }
  }

  // ---- the list agrees with the history -------------------------------------------------------------

  predicate DistinctIds(l: seq<Req>) {
    forall i, j :: 0 <= i < j < |l| ==> l[i].id != l[j].id
  }

  /** The list without the request at `i`. */
  lemma Without(l: seq<Req>, i: nat, r: Req)
    requires DistinctIds(l) && i < |l|
    ensures DistinctIds(l[..i] + l[i + 1..])
    ensures r in l[..i] + l[i + 1..] <==> r in l && r.id != l[i].id
  {
    var l' := l[..i] + l[i + 1..];
    assert forall k :: 0 <= k < |l'| ==> l'[k] == l[if k < i then k else k + 1];
    if r in l && r.id != l[i].id {
      var k :| 0 <= k < |l| && l[k] == r;
      assert l'[if k < i then k else k - 1] == r;
    }
  }

  lemma CancelMember(l: seq<Req>, id: Id, r: Req)
    requires DistinctIds(l)
    ensures DistinctIds(Cancel(l, id)) && DistinctIds(CancelAll(l))
    ensures r in Cancel(l, id) <==> if r.id == id then r.canceled && Holds(l, id) else r in l
  {
    var (i, l') := (Find(l, id, 0), Cancel(l, id));
    assert |l'| == |l| && forall k :: 0 <= k < |l| ==> l'[k] == if k == i then Req(id, true) else l[k];
  }

  lemma CancelAllMember(l: seq<Req>, r: Req)
    ensures r in CancelAll(l) <==> r.canceled && Holds(l, r.id)
  {
    var l' := CancelAll(l);
    assert |l'| == |l| && forall k :: 0 <= k < |l| ==> l'[k] == Req(l[k].id, true);
  }

  lemma AddMember(l: seq<Req>, id: Id, r: Req)
    requires DistinctIds(l) && !Holds(l, id)
    ensures DistinctIds(Add(l, id))
    ensures r in Add(l, id) <==> if r.id == id then !r.canceled else r in l
  {
    var l' := Add(l, id);
    assert l'[0] == Req(id, false) && forall k :: 0 <= k < |l| ==> l'[k + 1] == l[k];
    assert r in l ==> Holds(l, r.id);
  }

  lemma RemoveMember(l: seq<Req>, id: Id, r: Req)
    requires DistinctIds(l)
    ensures DistinctIds(Remove(l, id))
    ensures r in Remove(l, id) <==> r.id != id && r in l
  {
    var i := Find(l, id, 0);
    if i < |l| { Without(l, i, r); }
  }

  /** What one event does to the request `r` as the list holds it. */
  lemma NextMember(l: seq<Req>, ev: Event, r: Req)
    requires DistinctIds(l) && (ev.Added? ==> !Holds(l, ev.id))
    ensures DistinctIds(Next(l, ev))
    ensures r in Next(l, ev) <==>
            if ev == Added(r.id) then !r.canceled
            else if ev == Removed(r.id) then false
            else if Cancels(ev, r.id) then r.canceled && Holds(l, r.id)
            else r in l
  {
    hide Add, Remove, Cancel, CancelAll, DistinctIds, Holds;
    match ev
    case Added(x) => AddMember(l, x, r);
    case Removed(x) => RemoveMember(l, x, r);
    case Canceled(x) => CancelMember(l, x, r);
    case CanceledAll => CancelMember(l, r.id, r); CancelAllMember(l, r);
  }

  lemma HoldsMeans(l: seq<Req>, id: Id)
    ensures Holds(l, id) <==> Req(id, false) in l || Req(id, true) in l
  {
    if Holds(l, id) {
      var k :| 0 <= k < |l| && l[k].id == id;
      assert l[k] == Req(id, l[k].canceled);
    }
  }

  /** Main result: over every run in which live ids are unique, an id is in the list exactly while it is
      live, and its flag is set exactly when a cancel came after its add. */
  lemma {:induction false} RunAgrees(evs: seq<Event>, id: Id)
    requires UniqueIds(evs)
    ensures DistinctIds(Run(evs))
    ensures Holds(Run(evs), id) <==> Live(evs, id)
    ensures Req(id, true) in Run(evs) <==> Flagged(evs, id)
  {
    if evs != [] {
      var (init, ev) := (evs[..|evs| - 1], evs[|evs| - 1]);
      assert evs == init + [ev];
      UniqueInit(evs);
      RunAgrees(init, id);
      if ev.Added? {
        RunAgrees(init, ev.id);
      }
      hide UniqueIds, Holds, DistinctIds, Live, Flagged, Next;
      NextMember(Run(init), ev, Req(id, true));
      NextMember(Run(init), ev, Req(id, false));
      HoldsMeans(Run(init), id);
      HoldsMeans(Run(evs), id);
      LiveSnoc(init, ev, id);
      FlaggedSnoc(init, ev, id);
    }
  }

  lemma UniqueInit(evs: seq<Event>)
    requires UniqueIds(evs) && evs != []
    ensures UniqueIds(evs[..|evs| - 1])
    ensures evs[|evs| - 1].Added? ==> !Live(evs[..|evs| - 1], evs[|evs| - 1].id)
  {
    var init := evs[..|evs| - 1];
    forall i | 0 <= i < |init| && init[i].Added?
      ensures !Live(init[..i], init[i].id)
    {
      assert init[..i] == evs[..i] && init[i] == evs[i];
    }
  }

  /** The same, request by request: each one in the list is live, and is interrupted exactly when a
      cancel for its id, or of everything, came after its add. */
  lemma InterruptedIffCanceled(evs: seq<Event>, k: nat)
    requires UniqueIds(evs) && k < |Run(evs)|
    ensures Live(evs, Run(evs)[k].id)
    ensures Run(evs)[k].canceled <==> Flagged(evs, Run(evs)[k].id)
  {
    var r := Run(evs)[k];
    RunAgrees(evs, r.id);
    hide Run, UniqueIds, Live, Flagged;
    assert Holds(Run(evs), r.id);
    if Req(r.id, true) in Run(evs) {
      var j :| 0 <= j < |Run(evs)| && Run(evs)[j] == Req(r.id, true);
      assert j == k;
    }
  }

  /** Why ids must be unique: a cancel reaches only the newest request with its id, so it flags all of them
      if and only if there is at most one. */
  lemma CancelReachesOne(l: seq<Req>, id: Id)
    requires forall r :: r in l && r.id == id ==> !r.canceled
    ensures (forall r :: r in Cancel(l, id) && r.id == id ==> r.canceled) <==>
            (forall i, j :: 0 <= i < j < |l| && l[i].id == id ==> l[j].id != id)
  {
    var (l', k) := (Cancel(l, id), Find(l, id, 0));
    assert forall i :: 0 <= i < |l| ==> l[i] in l;
    assert forall i :: 0 <= i < |l| ==> l'[i] == if i == k then Req(id, true) else l[i];
    assert forall i :: 0 <= i < |l'| ==> l'[i] in l';
  }
}
