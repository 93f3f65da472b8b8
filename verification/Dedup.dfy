/** The crash-report dedup table: fifty slots kept in memory and in a file. */
module Dedup {
  import opened Basics

  const SLOTS: nat := 50
  const USEC_PER_SEC: nat := 1_000_000
  const WINDOW: nat := (86400 - 3600) * USEC_PER_SEC
  const U64: nat := 0x1_0000_0000_0000_0000

  datatype Key = Key(hash: nat, sentry: bool)

  /** One slot, and equally one call of `dedup_keep_hash`: what was kept, and when. */
  datatype Slot = Slot(sentry: bool, hash: nat, timestamp: nat) {
    function Id(): Key { Key(hash, sentry) }
  }

  const EMPTY := Slot(false, 0, 0)

  function Zeroed(): (t: seq<Slot>)
    ensures |t| == SLOTS && forall i :: 0 <= i < SLOTS ==> t[i] == EMPTY
  {
    seq(SLOTS, _ => EMPTY)
  }

  // ---- the table as a value -------------------------------------------------------------------------

  /** The first slot from `i` on with this key, or the number of slots. */
  function FindKey(t: seq<Slot>, k: Key, i: nat): (r: nat)
    requires i <= |t|
    ensures i <= r <= |t| && (r < |t| ==> t[r].Id() == k)
    ensures forall j :: i <= j < r ==> t[j].Id() != k
    decreases |t| - i
  {
    if i == |t| || t[i].Id() == k then i else FindKey(t, k, i + 1)
  }

  /** The first slot from `i` on with a zero hash, or the number of slots. */
  function FindEmpty(t: seq<Slot>, i: nat): (r: nat)
    requires i <= |t|
    ensures i <= r <= |t| && (r < |t| ==> t[r].hash == 0)
    ensures forall j :: i <= j < r ==> t[j].hash != 0
    decreases |t| - i
  {
    if i == |t| || t[i].hash == 0 then i else FindEmpty(t, i + 1)
  }

  /** The first slot with the least timestamp among the first `n`. */
  function Oldest(t: seq<Slot>, n: nat): (r: nat)
    requires 0 < n <= |t|
    ensures r < n && forall j :: 0 <= j < n ==> t[r].timestamp <= t[j].timestamp
    ensures forall j :: 0 <= j < r ==> t[r].timestamp < t[j].timestamp
  {
    if n == 1 then 0
    else
      var r := Oldest(t, n - 1);
      if t[n - 1].timestamp < t[r].timestamp then n - 1 else r
  }

  /** Where `dedup_keep_hash` stores: the same key, else an empty slot, else the oldest one. */
  function Place(t: seq<Slot>, k: Key): (r: nat)
    requires |t| > 0
    ensures r < |t|
  {
    if FindKey(t, k, 0) < |t| then FindKey(t, k, 0)
    else if FindEmpty(t, 0) < |t| then FindEmpty(t, 0)
    else Oldest(t, |t|)
  }

  function Keep(t: seq<Slot>, e: Slot): (t': seq<Slot>)
    requires |t| > 0
    ensures |t'| == |t|
  {
    t[Place(t, e.Id()) := e]
  }

  /** The test of one slot in `dedup_already_posted`; the subtraction is unsigned. */
  predicate Hit(s: Slot, k: Key, now: nat) {
    s.timestamp != 0 && s.Id() == k && (now - s.timestamp) % U64 < WINDOW
  }

  predicate Posted(t: seq<Slot>, k: Key, now: nat) {
    exists i :: 0 <= i < |t| && Hit(t[i], k, now)
  }

  // ---- the reference: a history of what was kept ----------------------------------------------------

  /** Nonzero hashes kept at strictly increasing positive times. */
  predicate GoodHistory(h: seq<Slot>) {
    && (forall i :: 0 <= i < |h| ==> h[i].hash != 0 && 0 < h[i].timestamp < U64)
    && (forall i, j :: 0 <= i < j < |h| ==> h[i].timestamp < h[j].timestamp)
  }

  /** The distinct keys kept after time `since`. */
  function KeptSince(h: seq<Slot>, since: nat): set<Key> {
    set f | f in h && f.timestamp > since :: f.Id()
  }

  /** `e` was kept, and fewer than fifty distinct keys were kept since. */
  predicate Remembered(h: seq<Slot>, e: Slot) {
    e in h && |KeptSince(h, e.timestamp)| < 50
  }

  /** `e` is the last time its key was kept. */
  predicate Latest(h: seq<Slot>, e: Slot) {
    e in h && forall f :: f in h && f.Id() == e.Id() ==> f.timestamp <= e.timestamp
  }

  // ---- the relation between table and history -------------------------------------------------------

  predicate NoKeyTwice(t: seq<Slot>) {
    forall i, j :: 0 <= i < j < |t| && t[i].hash != 0 ==> t[i].Id() != t[j].Id()
  }

  /** What is missing from the table is older than everything in it, and the table is full. */
  predicate MissingIsOlder(t: seq<Slot>, h: seq<Slot>) {
    forall e :: e in h && Latest(h, e) && e !in t ==>
      forall i :: 0 <= i < |t| ==> t[i].hash != 0 && t[i].timestamp > e.timestamp
  }

  predicate Reflects(t: seq<Slot>, h: seq<Slot>) {
    && |t| == SLOTS
    && (forall i :: 0 <= i < |t| ==> if t[i].hash == 0 then t[i] == EMPTY else Latest(h, t[i]))
    && NoKeyTwice(t)
    && MissingIsOlder(t, h)
  }

  lemma EqualTimes(h: seq<Slot>, e: Slot, f: Slot)
    requires GoodHistory(h) && e in h && f in h && e.timestamp == f.timestamp
    ensures e == f
  {
    var i :| 0 <= i < |h| && h[i] == e;
    var j :| 0 <= j < |h| && h[j] == f;
  }

  lemma LatestSnoc(h: seq<Slot>, e: Slot, f: Slot)
    requires GoodHistory(h + [e])
    ensures Latest(h + [e], f) <==> f == e || (f.Id() != e.Id() && Latest(h, f))
    ensures forall g :: g in h ==> g.timestamp < e.timestamp
    ensures GoodHistory(h)
  {
    var h' := h + [e];
    assert forall i :: 0 <= i < |h| ==> h'[i] == h[i] && h'[i].timestamp < h'[|h|].timestamp;
    assert forall g :: g in h' <==> g in h || g == e;
    assert e in h';
  }

  /** The three ways of choosing a slot, told apart by what was in the table. */
  lemma PlaceCases(t: seq<Slot>, k: Key)
    requires |t| > 0 && k.hash != 0
    ensures var p := Place(t, k);
            || t[p].Id() == k
            || ((forall i :: 0 <= i < |t| ==> t[i].Id() != k) && t[p].hash == 0)
            || ((forall i :: 0 <= i < |t| ==> t[i].Id() != k && t[i].hash != 0)
                && (forall i :: 0 <= i < |t| ==> t[p].timestamp <= t[i].timestamp))
  {
  }

  lemma KeepMissing(t: seq<Slot>, h: seq<Slot>, e: Slot, f: Slot)
    requires Reflects(t, h) && GoodHistory(h + [e])
    requires Latest(h + [e], f) && f !in Keep(t, e)
    ensures forall i :: 0 <= i < SLOTS ==> Keep(t, e)[i].hash != 0 && Keep(t, e)[i].timestamp > f.timestamp
  {
    var (t', p) := (Keep(t, e), Place(t, e.Id()));
    assert t'[p] == e;
    LatestSnoc(h, e, f);
    assert e in h + [e] && (h + [e])[|h|] == e;
    assert forall i :: 0 <= i < SLOTS && i != p ==> t'[i] == t[i];
    if f in t {
      assert f == t[p];
      assert (h + [e])[|h|].hash != 0;
      PlaceCases(t, e.Id());
      hide Place;
      forall i | 0 <= i < SLOTS && i != p
        ensures t[i].hash != 0 && t[i].timestamp > f.timestamp
      {
        if t[i].timestamp == f.timestamp {
          EqualTimes(h, t[i], f);
        }
      }
    }
  }

  lemma KeepDistinct(t: seq<Slot>, e: Slot)
    requires |t| > 0 && NoKeyTwice(t) && forall i :: 0 <= i < |t| && t[i].hash == 0 ==> t[i] == EMPTY
    ensures e.hash != 0 ==> NoKeyTwice(Keep(t, e))
  {
    if e.hash != 0 {
      PlaceCases(t, e.Id());
      hide Place;
    }
  }

  lemma KeepSlots(t: seq<Slot>, h: seq<Slot>, e: Slot)
    requires Reflects(t, h) && GoodHistory(h + [e])
    ensures e.hash != 0
    ensures forall i :: 0 <= i < SLOTS ==>
              if Keep(t, e)[i].hash == 0 then Keep(t, e)[i] == EMPTY else Latest(h + [e], Keep(t, e)[i])
  {
    var t' := Keep(t, e);
    assert (h + [e])[|h|].hash != 0;
    PlaceCases(t, e.Id());
    hide Place;
    forall i | 0 <= i < SLOTS
      ensures if t'[i].hash == 0 then t'[i] == EMPTY else Latest(h + [e], t'[i])
    {
      LatestSnoc(h, e, t'[i]);
    }
  }

  /** Keeping a key preserves the relation: the table still mirrors the history. */
  lemma KeepReflects(t: seq<Slot>, h: seq<Slot>, e: Slot)
    requires Reflects(t, h) && GoodHistory(h + [e])
    ensures Reflects(Keep(t, e), h + [e])
  {
    var t' := Keep(t, e);
    KeepDistinct(t, e);
    KeepSlots(t, h, e);
    hide Keep, NoKeyTwice, Latest;
    assert MissingIsOlder(t', h + [e]) by {
      forall f | f in h + [e] && Latest(h + [e], f) && f !in t'
        ensures forall i :: 0 <= i < |t'| ==> t'[i].hash != 0 && t'[i].timestamp > f.timestamp
      {
        KeepMissing(t, h, e, f);
      }
    }
  }

  // ---- from the relation to the property ------------------------------------------------------------

  lemma {:induction false} LatestExists(h: seq<Slot>, e: Slot) returns (g: Slot)
    requires GoodHistory(h) && e in h
    ensures Latest(h, g) && g.Id() == e.Id() && g.timestamp >= e.timestamp
  {
    var last := h[|h| - 1];
    assert h == h[..|h| - 1] + [last];
    LatestSnoc(h[..|h| - 1], last, last);
    if last.Id() == e.Id() {
      g := last;
    } else {
      g := LatestExists(h[..|h| - 1], e);
      LatestSnoc(h[..|h| - 1], last, g);
    }
  }

  function Ids(t: seq<Slot>): set<Key> {
    set s | s in t :: s.Id()
  }

  lemma {:induction false} IdsBound(t: seq<Slot>)
    ensures |Ids(t)| <= |t|
    ensures (forall i, j :: 0 <= i < j < |t| ==> t[i].Id() != t[j].Id()) ==> |Ids(t)| == |t|
  {
    if t == [] {
      assert Ids(t) == {};
    } else {
      var (s, last) := (t[..|t| - 1], t[|t| - 1]);
      IdsBound(s);
      assert t == s + [last];
      assert Ids(t) == Ids(s) + {last.Id()};
      if forall i, j :: 0 <= i < j < |t| ==> t[i].Id() != t[j].Id() {
        assert forall i :: 0 <= i < |s| ==> s[i] == t[i] && t[i].Id() != t[|t| - 1].Id();
        assert last.Id() !in Ids(s);
      }
    }
  }

  lemma LaterIsInTable(t: seq<Slot>, h: seq<Slot>, i: nat, f: Slot) returns (j: nat)
    requires Reflects(t, h) && GoodHistory(h) && i < SLOTS && f in h && f.timestamp > t[i].timestamp
    ensures j < SLOTS && j != i && t[j].Id() == f.Id()
  {
    var g := LatestExists(h, f);
    hide Latest, GoodHistory;
    assert g in t;
    j :| 0 <= j < |t| && t[j] == g;
  }

  lemma LaterKeysAreOthers(t: seq<Slot>, h: seq<Slot>, i: nat)
    requires Reflects(t, h) && GoodHistory(h) && i < SLOTS
    ensures |t| == SLOTS && KeptSince(h, t[i].timestamp) <= Ids(t[..i] + t[i + 1..])
  {
    assert |t| == SLOTS;
    hide Reflects, GoodHistory;
    var rest := t[..i] + t[i + 1..];
    forall k | k in KeptSince(h, t[i].timestamp)
      ensures k in Ids(rest)
    {
      var f :| f in h && f.timestamp > t[i].timestamp && f.Id() == k;
      var j := LaterIsInTable(t, h, i, f);
      assert rest[if j < i then j else j - 1] == t[j];
    }
  }

  lemma InTableIsRemembered(t: seq<Slot>, h: seq<Slot>, i: nat)
    requires Reflects(t, h) && GoodHistory(h) && i < SLOTS && t[i].hash != 0
    ensures Remembered(h, t[i])
  {
    assert Latest(h, t[i]);
    hide Reflects, GoodHistory, KeptSince, Ids;
    var rest := t[..i] + t[i + 1..];
    LaterKeysAreOthers(t, h, i);
    SubsetSize(KeptSince(h, t[i].timestamp), Ids(rest));
    IdsBound(rest);
  }

  lemma MissingIsForgotten(t: seq<Slot>, h: seq<Slot>, e: Slot)
    requires Reflects(t, h) && GoodHistory(h) && Latest(h, e) && e !in t
    ensures !Remembered(h, e)
  {
    IdsBound(t);
    forall k | k in Ids(t)
      ensures k in KeptSince(h, e.timestamp)
    {
      var s :| s in t && s.Id() == k;
    }
    SubsetSize(Ids(t), KeptSince(h, e.timestamp));
  }

  lemma NoWrap(now: nat, at: nat)
    requires at <= now < U64
    ensures (now - at) % U64 == now - at
  {
  }

  /** `e` answers the question: it was kept with this key, is in the window and is still remembered. */
  predicate Answers(h: seq<Slot>, e: Slot, k: Key, now: nat) {
    Remembered(h, e) && e.Id() == k && now - e.timestamp < 82_800_000_000
  }

  lemma PostedIsRemembered(t: seq<Slot>, h: seq<Slot>, k: Key, now: nat) returns (e: Slot)
    requires Reflects(t, h) && GoodHistory(h) && now < U64
    requires forall e :: e in h ==> e.timestamp <= now
    requires Posted(t, k, now)
    ensures Answers(h, e, k, now)
  {
    var i :| 0 <= i < |t| && Hit(t[i], k, now);
    e := t[i];
    InTableIsRemembered(t, h, i);
    NoWrap(now, e.timestamp);
  }

  lemma RememberedIsPosted(t: seq<Slot>, h: seq<Slot>, e: Slot, now: nat)
    requires Reflects(t, h) && GoodHistory(h) && now < U64
    requires forall e :: e in h ==> e.timestamp <= now
    requires Answers(h, e, e.Id(), now)
    ensures Posted(t, e.Id(), now)
  {
    hide Reflects, KeptSince, GoodHistory;
    var i := RememberedIsInTable(t, h, e);
    NoWrap(now, t[i].timestamp);
    assert Hit(t[i], e.Id(), now);
  }

  lemma RememberedIsInTable(t: seq<Slot>, h: seq<Slot>, e: Slot) returns (i: nat)
    requires Reflects(t, h) && GoodHistory(h) && Remembered(h, e)
    ensures i < |t| && t[i] in h && t[i].Id() == e.Id() && 0 < t[i].timestamp && e.timestamp <= t[i].timestamp
  {
    var g := LatestExists(h, e);
    var j :| 0 <= j < |h| && h[j] == g;
    SubsetSize(KeptSince(h, g.timestamp), KeptSince(h, e.timestamp));
    if g !in t {
      MissingIsForgotten(t, h, g);
    }
    hide KeptSince, Reflects, Latest, GoodHistory;
    i :| 0 <= i < |t| && t[i] == g;
  }

  /** Main result: a report is "already posted" exactly when its key was kept within the window and is
      still among the fifty keys kept most recently. */
  lemma PostedIffRemembered(t: seq<Slot>, h: seq<Slot>, k: Key, now: nat)
    requires Reflects(t, h) && GoodHistory(h) && now < U64
    requires forall e :: e in h ==> e.timestamp <= now
    ensures Posted(t, k, now) <==> exists e :: Answers(h, e, k, now)
  {
    if Posted(t, k, now) {
      var e := PostedIsRemembered(t, h, k, now);
    }
    if e :| Answers(h, e, k, now) {
      RememberedIsPosted(t, h, e, now);
    }
  }

  /** Nothing is evicted while a slot is empty. */
  lemma NothingEvictedWhileRoom(t: seq<Slot>, h: seq<Slot>, e: Slot, s: Slot)
    requires Reflects(t, h) && GoodHistory(h + [e])
    requires EMPTY in t && s in t && s.hash != 0 && s.Id() != e.Id()
    ensures s in Keep(t, e)
  {
    var i :| 0 <= i < |t| && t[i] == s;
    assert (h + [e])[|h|].hash != 0;
    PlaceCases(t, e.Id());
    assert Place(t, e.Id()) != i;
    assert Keep(t, e)[i] == s;
  }

  predicate Holds(t: seq<Slot>, k: Key) {
    exists i :: 0 <= i < |t| && t[i].Id() == k
  }

  /** A zero hash is stored in front of every empty slot. */
  lemma ZeroPlace(t: seq<Slot>, k: Key)
    requires |t| == SLOTS && k.hash == 0
    requires forall i :: 0 <= i < |t| && t[i].hash == 0 ==> t[i] == EMPTY
    ensures forall i :: 0 <= i < Place(t, k) ==> t[i].hash != 0
  {
    hide Oldest;
    assert forall i :: 0 <= i < |t| && t[i].hash == 0 ==> t[i].Id() == Key(0, false);
    assert k.sentry ==> FindKey(t, k, 0) == |t|;
  }

  /** A key that is not in the table goes into the first slot with a zero hash. */
  lemma NewKeyPlace(t: seq<Slot>, k: Key, p: nat)
    requires p < |t| && !Holds(t, k) && t[p].hash == 0 && forall i :: 0 <= i < p ==> t[i].hash != 0
    ensures Place(t, k) == p
  {
    hide Oldest;
    assert FindKey(t, k, 0) == |t|;
    assert FindEmpty(t, 0) == p;
  }

  /** A zero hash looks like an empty slot: kept just before, it is still "already posted" if and only
      if the keep in between only refreshed a key already in the table. */
  lemma ZeroHashIsFragile(t: seq<Slot>, h: seq<Slot>, z: Slot, e: Slot)
    requires Reflects(t, h) && z.hash == 0 && e.hash != 0
    requires 0 < z.timestamp <= e.timestamp < U64 && e.timestamp - z.timestamp < 82_800_000_000
    ensures Posted(Keep(Keep(t, z), e), z.Id(), e.timestamp) <==> Holds(Keep(t, z), e.Id())
  {
    var (t1, p) := (Keep(t, z), Place(t, z.Id()));
    var t2 := Keep(t1, e);
    ZeroPlace(t, z.Id());
    NoWrap(e.timestamp, z.timestamp);
    assert t1[p] == z && forall i :: 0 <= i < SLOTS && i != p ==> t1[i] == t[i];
    if Holds(t1, e.Id()) {
      var q := Place(t1, e.Id());
      assert t1[q].Id() == e.Id();
      assert t2[p] == z;
      assert Hit(t2[p], z.Id(), e.timestamp);
    } else {
      NewKeyPlace(t1, e.Id(), p);
      assert forall i :: 0 <= i < SLOTS ==> t2[i] == if i == p then e else t[i];
    }
  }
}
