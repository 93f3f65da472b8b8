/** The dedup table with its file: every operation loads first, every keep saves last. */
module DedupFile {
  import opened Dedup

  /** The file as a load finds it: no file in any directory, one that fails the checks, or a good one. */
  datatype File = Missing | Corrupt | Good(slots: seq<Slot>)

  datatype World = World(file: File, memory: seq<Slot>) {
    predicate Valid() {
      |memory| == SLOTS && (file.Good? ==> |file.slots| == SLOTS)
    }

    /** The table after `daemon_status_dedup_load`: a missing file leaves the memory as it is. */
    function Loaded(): (t: seq<Slot>)
      requires Valid()
      ensures |t| == SLOTS
    {
      match file
      case Missing => memory
      case Corrupt => Zeroed()
      case Good(slots) => slots
    }
  }

  datatype Event = Kept(entry: Slot, saved: bool) | Asked | Restarted

  function Next(w: World, ev: Event): (w': World)
    requires w.Valid()
    ensures w'.Valid()
  {
    match ev
    case Kept(e, saved) =>
      var t := Keep(w.Loaded(), e);
      World(if saved then Good(t) else w.file, t)
    case Asked => World(w.file, w.Loaded())
    case Restarted => World(w.file, Zeroed())
  }

  // ---- the store, updated in place ------------------------------------------------------------------

  class Store {
    var slot: array<Slot>
    var file: File

    ghost function W(): World
      reads this, slot
    {
      World(file, slot[..])
    }

    /** A process starts with a zeroed table and whatever file there is. */
    constructor (file: File)
      requires file.Good? ==> |file.slots| == SLOTS
      ensures W() == World(file, Zeroed()) && fresh(slot)
    {
      this.file := file;
      slot := new Slot[SLOTS](_ => EMPTY);
      new;
      assert slot[..] == Zeroed();
    }

    /** `daemon_status_dedup_load`. */
    method Load()
      requires W().Valid()
      modifies slot
      ensures W() == World(old(file), old(W().Loaded())) && W().Valid()
    {
      match file
      case Missing =>
      case Corrupt =>
        forall i | 0 <= i < slot.Length { slot[i] := EMPTY; }
        assert slot[..] == Zeroed();
      case Good(slots) =>
        forall i | 0 <= i < slot.Length { slot[i] := slots[i]; }
        assert slot[..] == slots;
    }

    /** `daemon_status_dedup_save`; `works` says whether the file system lets it. */
    method Save(works: bool)
      modifies this`file
      ensures file == if works then Good(slot[..]) else old(file)
    {
      if works {
        file := Good(slot[..]);
      }
    }

    /** `dedup_already_posted`. */
    method AlreadyPosted(hash: nat, sentry: bool, now: nat) returns (posted: bool)
      requires W().Valid()
      modifies slot
      ensures posted == Posted(old(W().Loaded()), Key(hash, sentry), now)
      ensures W() == Next(old(W()), Asked)
    {
      Load();
      for i := 0 to slot.Length
        invariant forall j :: 0 <= j < i ==> !Hit(slot[..][j], Key(hash, sentry), now)
      {
        if slot[i].timestamp == 0 {
          continue;
        }
        if hash == slot[i].hash && sentry == slot[i].sentry && (now - slot[i].timestamp) % U64 < WINDOW {
          assert Hit(slot[..][i], Key(hash, sentry), now);
          return true;
        }
      }
      return false;
    }

    /** The three searches of `dedup_keep_hash`. */
    method FindPlace(hash: nat, sentry: bool) returns (at: nat)
      requires slot.Length > 0
      ensures at == Place(slot[..], Key(hash, sentry))
    {
      ghost var (t, k) := (slot[..], Key(hash, sentry));
      for i := 0 to slot.Length
        invariant FindKey(t, k, 0) == FindKey(t, k, i)
      {
        if slot[i].hash == hash && slot[i].sentry == sentry {
          return i;
        }
      }
      for i := 0 to slot.Length
        invariant FindEmpty(t, 0) == FindEmpty(t, i)
      {
        if slot[i].hash == 0 {
          return i;
        }
      }
      at := 0;
      for i := 1 to slot.Length
        invariant at < slot.Length && at == Oldest(t, i)
      {
        if slot[i].timestamp < slot[at].timestamp {
          at := i;
        }
      }
    }

    /** `dedup_keep_hash`. */
    method KeepHash(hash: nat, sentry: bool, now: nat, works: bool)
      requires W().Valid()
      modifies slot, this`file
      ensures W() == Next(old(W()), Kept(Slot(sentry, hash, now), works))
    {
      Load();
      var at := FindPlace(hash, sentry);
      slot[at] := Slot(sentry, hash, now);
      Save(works);
      assert slot[..] == Keep(old(W().Loaded()), Slot(sentry, hash, now));
    }
  }

  // ---- runs -----------------------------------------------------------------------------------------

  /** What survives of the keeps: `safe` once a good file exists. */
  datatype Diary = Diary(safe: bool, kept: seq<Slot>)

  function NextDiary(d: Diary, missing: bool, ev: Event): Diary {
    match ev
    case Kept(e, true) => Diary(true, d.kept + [e])
    case Kept(e, false) =>
      if d.safe then d
      else Diary(false, if missing then d.kept + [e] else [])
    case Asked => d
    case Restarted => if d.safe then d else Diary(false, [])
  }

  function RunWorld(start: World, evs: seq<Event>): (w: World)
    requires start.Valid()
    ensures w.Valid()
  {
    if evs == [] then start else Next(RunWorld(start, evs[..|evs| - 1]), evs[|evs| - 1])
  }

  function RunDiary(missing: bool, evs: seq<Event>): Diary {
    if evs == [] then Diary(false, []) else NextDiary(RunDiary(missing, evs[..|evs| - 1]), missing, evs[|evs| - 1])
  }

  /** Every keep of a run, in order, whatever became of it. */
  function Keeps(evs: seq<Event>): seq<Slot> {
    if evs == [] then []
    else
      var (rest, last) := (Keeps(evs[..|evs| - 1]), evs[|evs| - 1]);
      if last.Kept? then rest + [last.entry] else rest
  }

  /** The world mirrors the diary. */
  predicate Mirrors(w: World, d: Diary, start: File) {
    && w.Valid()
    && d.safe == w.file.Good?
    && (!d.safe ==> w.file == start)
    && (w.file.Corrupt? ==> d.kept == [])
    && Reflects(w.Loaded(), d.kept)
  }

  lemma ZeroedReflects()
    ensures Reflects(Zeroed(), [])
  {
  }

  lemma StepMirrors(w: World, d: Diary, start: File, ev: Event)
    requires Mirrors(w, d, start) && !start.Good?
    requires ev.Kept? ==> GoodHistory(d.kept + [ev.entry])
    ensures Mirrors(Next(w, ev), NextDiary(d, start.Missing?, ev), start)
  {
    if ev.Kept? {
      KeepReflects(w.Loaded(), d.kept, ev.entry);
    }
    ZeroedReflects();
    hide Reflects, Keep, GoodHistory;
  }

  /** The diary is a part of the keeps, in the same order. */
  lemma {:induction false} DiaryIsPart(missing: bool, evs: seq<Event>)
    requires GoodHistory(Keeps(evs))
    ensures var kept := RunDiary(missing, evs).kept;
            GoodHistory(kept) && forall e :: e in kept ==> e in Keeps(evs)
  {
    if evs != [] {
      var (init, last) := (evs[..|evs| - 1], evs[|evs| - 1]);
      var kept := RunDiary(missing, init).kept;
      if last.Kept? {
        LatestSnoc(Keeps(init), last.entry, last.entry);
        DiaryIsPart(missing, init);
        DiaryGrows(kept, Keeps(init), last.entry);
        assert forall e :: e in kept + [last.entry] <==> e in kept || e == last.entry;
        assert forall e :: e in Keeps(evs) <==> e in Keeps(init) || e == last.entry;
      } else {
        DiaryIsPart(missing, init);
      }
      hide GoodHistory;
    }
  }

  lemma DiaryGrows(kept: seq<Slot>, all: seq<Slot>, e: Slot)
    requires GoodHistory(kept) && GoodHistory(all + [e]) && forall f :: f in kept ==> f in all
    ensures GoodHistory(kept + [e])
  {
    LatestSnoc(all, e, e);
    assert (all + [e])[|all|] == e;
    assert forall i :: 0 <= i < |kept| ==> kept[i] in all;
  }

  lemma {:induction false} RunMirrors(start: World, evs: seq<Event>)
    requires start.memory == Zeroed() && !start.file.Good? && GoodHistory(Keeps(evs))
    ensures Mirrors(RunWorld(start, evs), RunDiary(start.file.Missing?, evs), start.file)
  {
    if evs == [] {
      ZeroedReflects();
    } else {
      var (init, last) := (evs[..|evs| - 1], evs[|evs| - 1]);
      var d := RunDiary(start.file.Missing?, init);
      if last.Kept? {
        LatestSnoc(Keeps(init), last.entry, last.entry);
        DiaryIsPart(start.file.Missing?, init);
        DiaryGrows(d.kept, Keeps(init), last.entry);
      }
      hide GoodHistory, Mirrors, Next, NextDiary;
      RunMirrors(start, init);
      StepMirrors(RunWorld(start, init), d, start.file, last);
    }
  }

  /** Over every run of keeps (saved or not), questions and restarts, a question is answered exactly from
      the keeps that survived. */
  lemma RunsAnswer(start: World, evs: seq<Event>, k: Key, now: nat)
    requires start.memory == Zeroed() && !start.file.Good? && GoodHistory(Keeps(evs)) && now < U64
    requires forall e :: e in Keeps(evs) ==> e.timestamp <= now
    ensures var kept := RunDiary(start.file.Missing?, evs).kept;
            Posted(RunWorld(start, evs).Loaded(), k, now) <==> exists e :: Answers(kept, e, k, now)
  {
    RunMirrors(start, evs);
    DiaryIsPart(start.file.Missing?, evs);
    PostedIffRemembered(RunWorld(start, evs).Loaded(), RunDiary(start.file.Missing?, evs).kept, k, now);
  }

  lemma {:induction false} SavedKeepsSurvive(missing: bool, evs: seq<Event>)
    requires forall ev :: ev in evs && ev.Kept? ==> ev.saved
    ensures RunDiary(missing, evs).kept == Keeps(evs)
    ensures Keeps(evs) != [] ==> RunDiary(missing, evs).safe
  {
    if evs != [] {
      SavedKeepsSurvive(missing, evs[..|evs| - 1]);
      assert evs[|evs| - 1] in evs;
    }
  }

  /** With successful saves the answer comes from all the keeps, across restarts. */
  lemma SavedRunsAnswer(start: World, evs: seq<Event>, k: Key, now: nat)
    requires start.memory == Zeroed() && !start.file.Good? && GoodHistory(Keeps(evs)) && now < U64
    requires forall e :: e in Keeps(evs) ==> e.timestamp <= now
    requires forall ev :: ev in evs && ev.Kept? ==> ev.saved
    ensures Posted(RunWorld(start, evs).Loaded(), k, now) <==> exists e :: Answers(Keeps(evs), e, k, now)
  {
    RunsAnswer(start, evs, k, now);
    SavedKeepsSurvive(start.file.Missing?, evs);
  }
}
