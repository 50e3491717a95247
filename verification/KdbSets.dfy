/** kdbSet as a step machine: which plugins are called, in which order, and when nothing is committed (kdb.c). */
module KdbSets {
  import opened Bytes
  import opened KeyNames
  import opened KeyOrder
  import opened KeySets
  import opened Mounts
  import opened Postprocessing
  import opened Splits

  const NR_OF_PLUGINS := 10
  const COMMIT_PLUGIN := 7
  const STORAGE_PLUGIN := 5

  /** The slots of a backend that are filled. */
  datatype Installed = Installed(setplugins: set<nat>, errorplugins: set<nat>)

  datatype Hook = PreSetStorage | PreSetCleanup | PreCommit | PostCommit | PreRollback | PostRollback

  datatype Step =
    | SetCall(part: nat, plugin: nat)
    | ErrorCall(part: nat, plugin: nat)
    | GlobalCall(hook: Hook, part: nat)

  /** Where in a run a step stands: prepare, then one hook, then commit or rollback, then one hook. */
  datatype Place = Place(stage: nat, major: nat, minor: nat) {

    predicate Before(other: Place) {
      || stage < other.stage
      || (stage == other.stage && major < other.major)
      || (stage == other.stage && major == other.major && minor < other.minor)
    }
  }

  /** Preparing goes part by part and then slot by slot, with each hook behind its slot; the rest goes slot by slot. */
  function PlaceOf(s: Step): Place {
    match s
    case SetCall(i, p) => if p < COMMIT_PLUGIN then Place(0, i, 2 * p) else Place(2, p, i)
    case ErrorCall(i, p) => Place(2, p, i)
    case GlobalCall(PreSetStorage, i) => Place(0, i, 1)
    case GlobalCall(PreSetCleanup, i) => Place(0, i, 2 * (STORAGE_PLUGIN - 1) + 1)
    case GlobalCall(PreCommit, _) => Place(1, 0, 0)
    case GlobalCall(PreRollback, _) => Place(1, 0, 0)
    case GlobalCall(PostCommit, _) => Place(3, 0, 0)
    case GlobalCall(PostRollback, _) => Place(3, 0, 0)
  }

  predicate InOrder(steps: seq<Step>) {
    forall k, m | 0 <= k < m < |steps| :: PlaceOf(steps[k]).Before(PlaceOf(steps[m]))
  }

  lemma InOrderBoth(a: seq<Step>, b: seq<Step>)
    requires InOrder(a) && InOrder(b) && forall s, t | s in a && t in b :: PlaceOf(s).Before(PlaceOf(t))
    ensures InOrder(a + b)
  {
    hide PlaceOf;
    forall k, m | 0 <= k < m < |a| + |b|
      ensures PlaceOf((a + b)[k]).Before(PlaceOf((a + b)[m]))
    {
      if k < |a| <= m {
        assert a[k] in a && b[m - |a|] in b;
      }
    }
  }

  lemma FirstIsMember(b: seq<Step>)
    ensures b != [] ==> b[0] in b
  {
  }

  /** Which steps there are and their order leave no choice. */
  lemma {:induction false} OrderIsUnique(a: seq<Step>, b: seq<Step>)
    requires InOrder(a) && InOrder(b) && forall s :: s in a <==> s in b
    ensures a == b
  {
    hide PlaceOf;
    if a == [] {
      FirstIsMember(b);
    } else {
      assert a[|a| - 1] in a;
      var n, m := |a| - 1, |b| - 1;
      LastIsGreatest(a);
      LastIsGreatest(b);
      assert a[n] in b && b[m] in a;
      var x, y := a[..n], b[..m];
      assert a == x + [a[n]] && b == y + [b[m]];
      forall s
        ensures s in x <==> s in y
      {
        assert s in a <==> s in b;
      }
      OrderIsUnique(x, y);
    }
  }

  lemma LastIsGreatest(a: seq<Step>)
    requires InOrder(a) && a != []
    ensures forall s | s in a && s != a[|a| - 1] :: PlaceOf(s).Before(PlaceOf(a[|a| - 1]))
    ensures a[|a| - 1] !in a[..|a| - 1]
  {
    hide PlaceOf;
  }

  /** The parts that take part, the global hooks, and what each plugin answers when it is called. */
  datatype Env = Env(parts: seq<Installed>, hooks: set<Hook>, answer: Step -> int) {

    function Global(hook: Hook, part: nat): seq<Step> {
      if hook in hooks then [GlobalCall(hook, part)] else []
    }

    /** The resolver says that nothing has to be done for this part. */
    predicate Skips(i: nat)
      requires i < |parts|
    {
      0 in parts[i].setplugins && answer(SetCall(i, 0)) == 0
    }

    // ---------- the phases ----------

    /** One slot of one part before the commit. */
    function SlotSteps(i: nat, p: nat): seq<Step>
      requires i < |parts|
    {
      if Skips(i) then (if p == 0 then [SetCall(i, 0)] else [])
      else
        (if p in parts[i].setplugins then [SetCall(i, p)] else []) +
        (if p == 0 then Global(PreSetStorage, i) else if p == STORAGE_PLUGIN - 1 then Global(PreSetCleanup, i) else [])
    }

    function PartSteps(i: nat, slots: nat): seq<Step>
      requires i < |parts|
    {
      if slots == 0 then [] else PartSteps(i, slots - 1) + SlotSteps(i, slots - 1)
    }

    function PrepareSteps(n: nat): seq<Step>
      requires n <= |parts|
    {
      if n == 0 then [] else PrepareSteps(n - 1) + PartSteps(n - 1, COMMIT_PLUGIN)
    }

    function CommitSlot(p: nat, n: nat): seq<Step>
      requires n <= |parts|
    {
      if n == 0 then [] else CommitSlot(p, n - 1) + if p in parts[n - 1].setplugins then [SetCall(n - 1, p)] else []
    }

    /** Committing goes slot by slot through all parts. */
    function CommitSteps(p: nat): seq<Step>
      requires COMMIT_PLUGIN <= p
    {
      if p == COMMIT_PLUGIN then [] else CommitSteps(p - 1) + CommitSlot(p - 1, |parts|)
    }

    function RollbackSlot(p: nat, n: nat): seq<Step>
      requires n <= |parts|
    {
      if n == 0 then [] else RollbackSlot(p, n - 1) + if p in parts[n - 1].errorplugins then [ErrorCall(n - 1, p)] else []
    }

    function RollbackSteps(p: nat): seq<Step> {
      if p == 0 then [] else RollbackSteps(p - 1) + RollbackSlot(p - 1, |parts|)
    }

    predicate Failed(steps: seq<Step>) {
      exists k | 0 <= k < |steps| :: steps[k].SetCall? && answer(steps[k]) == -1
    }

    /** All that happens once it is clear that something has to be stored. */
    function Trace(): seq<Step> {
      var prepared := PrepareSteps(|parts|);
      if Failed(prepared) then
        prepared + Global(PreRollback, 0) + RollbackSteps(NR_OF_PLUGINS) + Global(PostRollback, 0)
      else
        prepared + Global(PreCommit, 0) + CommitSteps(NR_OF_PLUGINS) + Global(PostCommit, 0)
    }

    // ---------- what is in the phases ----------

    /** The steps before the commit: all filled slots of all parts, failures or not. */
    predicate IsPrepare(s: Step, n: nat) {
      && s.part < n <= |parts|
      && match s
         case SetCall(i, p) => p < COMMIT_PLUGIN && p in parts[i].setplugins && (p == 0 || !Skips(i))
         case ErrorCall(_, _) => false
         case GlobalCall(h, i) => h in hooks && !Skips(i) && (h == PreSetStorage || h == PreSetCleanup)
    }

    static predicate InSlots(s: Step, slots: nat) {
      match s
      case SetCall(_, p) => p < slots
      case ErrorCall(_, _) => false
      case GlobalCall(h, _) => if h == PreSetStorage then 0 < slots else STORAGE_PLUGIN - 1 < slots
    }

    lemma PartUnfold(i: nat, slots: nat)
      requires i < |parts|
      ensures slots > 0 ==> PartSteps(i, slots) == PartSteps(i, slots - 1) + SlotSteps(i, slots - 1)
      ensures slots == 0 ==> PartSteps(i, slots) == []
    {
      hide SlotSteps;
    }

    lemma SlotHas(i: nat, p: nat, s: Step)
      requires i < |parts| && p < COMMIT_PLUGIN
      ensures s in SlotSteps(i, p) <==> IsPrepare(s, i + 1) && s.part == i && InSlots(s, p + 1) && !InSlots(s, p)
    {
    }

    lemma {:induction false} PartHas(i: nat, slots: nat, s: Step)
      requires i < |parts| && slots <= COMMIT_PLUGIN
      ensures s in PartSteps(i, slots) <==> IsPrepare(s, i + 1) && s.part == i && InSlots(s, slots)
    {
      hide PartSteps, SlotSteps, IsPrepare;
      PartUnfold(i, slots);
      if slots == 0 {
        NoSlots(s);
      } else {
        PartHas(i, slots - 1, s);
        SlotHas(i, slots - 1, s);
      }
    }

    static lemma NoSlots(s: Step)
      ensures !InSlots(s, 0)
      ensures forall p: nat, q: nat | p <= q && InSlots(s, p) :: InSlots(s, q)
    {
    }

    lemma PrepareUnfold(n: nat)
      requires n <= |parts|
      ensures n > 0 ==> PrepareSteps(n) == PrepareSteps(n - 1) + PartSteps(n - 1, COMMIT_PLUGIN)
      ensures n == 0 ==> PrepareSteps(n) == []
    {
      hide PartSteps;
    }

    lemma {:induction false} PrepareHas(n: nat, s: Step)
      requires n <= |parts|
      ensures s in PrepareSteps(n) <==> IsPrepare(s, n)
    {
      hide PrepareSteps, PartSteps, Env.Skips;
      PrepareUnfold(n);
      if n > 0 {
        PrepareHas(n - 1, s);
        PartHas(n - 1, COMMIT_PLUGIN, s);
      }
    }

    lemma {:induction false} CommitSlotHas(p: nat, n: nat, s: Step)
      requires n <= |parts|
      ensures s in CommitSlot(p, n) <==> s.SetCall? && s.plugin == p && s.part < n && p in parts[s.part].setplugins
    {
      if n > 0 {
        CommitSlotHas(p, n - 1, s);
      }
    }

    lemma CommitUnfold(p: nat)
      requires COMMIT_PLUGIN <= p
      ensures p > COMMIT_PLUGIN ==> CommitSteps(p) == CommitSteps(p - 1) + CommitSlot(p - 1, |parts|)
      ensures p == COMMIT_PLUGIN ==> CommitSteps(p) == []
    {
      hide CommitSlot;
    }

    lemma {:induction false} CommitHas(p: nat, s: Step)
      requires COMMIT_PLUGIN <= p
      ensures s in CommitSteps(p) <==>
        s.SetCall? && COMMIT_PLUGIN <= s.plugin < p && s.part < |parts| && s.plugin in parts[s.part].setplugins
    {
      hide CommitSteps, CommitSlot;
      CommitUnfold(p);
      if p > COMMIT_PLUGIN {
        CommitHas(p - 1, s);
        CommitSlotHas(p - 1, |parts|, s);
      }
    }

    lemma {:induction false} RollbackSlotHas(p: nat, n: nat, s: Step)
      requires n <= |parts|
      ensures s in RollbackSlot(p, n) <==> s.ErrorCall? && s.plugin == p && s.part < n && p in parts[s.part].errorplugins
    {
      if n > 0 {
        RollbackSlotHas(p, n - 1, s);
      }
    }

    lemma RollbackUnfold(p: nat)
      ensures p > 0 ==> RollbackSteps(p) == RollbackSteps(p - 1) + RollbackSlot(p - 1, |parts|)
      ensures p == 0 ==> RollbackSteps(p) == []
    {
      hide RollbackSlot;
    }

    lemma {:induction false} RollbackHas(p: nat, s: Step)
      ensures s in RollbackSteps(p) <==>
        s.ErrorCall? && s.plugin < p && s.part < |parts| && s.plugin in parts[s.part].errorplugins
    {
      hide RollbackSteps, RollbackSlot;
      RollbackUnfold(p);
      if p > 0 {
        RollbackHas(p - 1, s);
        RollbackSlotHas(p - 1, |parts|, s);
      }
    }

    // ---------- the main results ----------

    predicate AnyPrepareFails() {
      Failed(PrepareSteps(|parts|))
    }

    /** A failure is a filled slot before the commit, in any part that the resolver does not skip, that answers -1. */
    lemma FailureIs()
      ensures AnyPrepareFails() <==> exists i, p | 0 <= i < |parts| && 0 <= p < COMMIT_PLUGIN ::
        p in parts[i].setplugins && answer(SetCall(i, p)) == -1 &&
        (p > 0 && 0 in parts[i].setplugins ==> answer(SetCall(i, 0)) != 0)
    {
      hide PrepareSteps;
      var steps := PrepareSteps(|parts|);
      if AnyPrepareFails() {
        var k :| 0 <= k < |steps| && steps[k].SetCall? && answer(steps[k]) == -1;
        PrepareHas(|parts|, steps[k]);
        assert steps[k] == SetCall(steps[k].part, steps[k].plugin);
      }
      forall i, p | 0 <= i < |parts| && 0 <= p < COMMIT_PLUGIN &&
        IsPrepare(SetCall(i, p), |parts|) && answer(SetCall(i, p)) == -1
        ensures AnyPrepareFails()
      {
        PrepareHas(|parts|, SetCall(i, p));
      }
    }

    /** Exactly which steps a run consists of; a resolver that answers 0 is all that is called for its part. */
    lemma TraceHas(s: Step)
      ensures s in Trace() <==>
        || (s.SetCall? && s.part < |parts| && s.plugin < COMMIT_PLUGIN && s.plugin in parts[s.part].setplugins
            && (s.plugin > 0 && 0 in parts[s.part].setplugins ==> answer(SetCall(s.part, 0)) != 0))
        || (s.GlobalCall? && s.part < |parts| && s.hook in hooks && (s.hook == PreSetStorage || s.hook == PreSetCleanup)
            && (0 in parts[s.part].setplugins ==> answer(SetCall(s.part, 0)) != 0))
        || (s.SetCall? && !AnyPrepareFails() && COMMIT_PLUGIN <= s.plugin < NR_OF_PLUGINS && s.part < |parts|
            && s.plugin in parts[s.part].setplugins)
        || (s.ErrorCall? && AnyPrepareFails() && s.plugin < NR_OF_PLUGINS && s.part < |parts|
            && s.plugin in parts[s.part].errorplugins)
        || (s.GlobalCall? && s.part == 0 && s.hook in hooks
            && (if AnyPrepareFails() then s.hook == PreRollback || s.hook == PostRollback
                else s.hook == PreCommit || s.hook == PostCommit))
    {
      hide PrepareSteps, CommitSteps, RollbackSteps, Failed;
      PrepareHas(|parts|, s);
      CommitHas(NR_OF_PLUGINS, s);
      RollbackHas(NR_OF_PLUGINS, s);
    }

    /** A commit step comes after all prepare steps of all parts, and only if none of them failed. */
    lemma CommitIsSafe(k: nat, m: nat)
      requires k < |Trace()| && m < |Trace()|
      requires Trace()[k].SetCall? && Trace()[k].plugin >= COMMIT_PLUGIN
      ensures !AnyPrepareFails()
      ensures !Trace()[m].ErrorCall?
      ensures Trace()[m].SetCall? && Trace()[m].plugin < COMMIT_PLUGIN ==> m < k && answer(Trace()[m]) != -1
    {
      hide PrepareSteps, CommitSteps, RollbackSteps, Failed;
      var t, prepared := Trace(), PrepareSteps(|parts|);
      TraceHas(t[k]);
      TraceHas(t[m]);
      if t[m].SetCall? && t[m].plugin < COMMIT_PLUGIN {
        if m >= |prepared| {
          assert t[m] in Global(PreCommit, 0) + CommitSteps(NR_OF_PLUGINS) + Global(PostCommit, 0);
          CommitHas(NR_OF_PLUGINS, t[m]);
        } else {
          if k < |prepared| {
            PrepareHas(|parts|, t[k]);
          }
          NotFailed(prepared, m);
        }
      }
    }

    lemma NotFailed(steps: seq<Step>, m: nat)
      requires !Failed(steps) && m < |steps| && steps[m].SetCall?
      ensures answer(steps[m]) != -1
    {
    }

    /** Commit steps are ordered by slot: no part is ahead of another one. */
    lemma {:induction false} CommitBySlots(p: nat, k: nat, m: nat)
      requires COMMIT_PLUGIN <= p && k < m < |CommitSteps(p)|
      ensures CommitSteps(p)[k].SetCall? && CommitSteps(p)[m].SetCall?
      ensures CommitSteps(p)[k].plugin <= CommitSteps(p)[m].plugin
    {
      if p > COMMIT_PLUGIN {
        var before := CommitSteps(p - 1);
        CommitHas(p, CommitSteps(p)[k]);
        CommitHas(p, CommitSteps(p)[m]);
        if m < |before| {
          CommitBySlots(p - 1, k, m);
        } else {
          CommitSlotHas(p - 1, |parts|, CommitSteps(p)[m]);
        }
      }
    }

    // ---------- the order of the steps ----------

    lemma SlotInOrder(i: nat, p: nat)
      requires i < |parts| && p < COMMIT_PLUGIN
      ensures InOrder(SlotSteps(i, p))
    {
      hide Env.Skips;
    }

    /** The steps of one slot stand between those of the slots before and behind it. */
    static lemma SlotPlaces(s: Step, t: Step, i: nat, p: nat)
      requires s.part == i && t.part == i && InSlots(s, p) && InSlots(t, p + 1) && !InSlots(t, p) && p < COMMIT_PLUGIN
      requires s.GlobalCall? ==> s.hook == PreSetStorage || s.hook == PreSetCleanup
      requires t.GlobalCall? ==> t.hook == PreSetStorage || t.hook == PreSetCleanup
      ensures PlaceOf(s).Before(PlaceOf(t))
    {
    }

    lemma {:induction false} PartInOrder(i: nat, slots: nat)
      requires i < |parts| && slots <= COMMIT_PLUGIN
      ensures InOrder(PartSteps(i, slots))
    {
      hide PartSteps, SlotSteps, Env.Skips, PlaceOf, InSlots;
      PartUnfold(i, slots);
      if slots > 0 {
        var p := slots - 1;
        SlotInOrder(i, p);
        PartInOrder(i, p);
        forall s, t | s in PartSteps(i, p) && t in SlotSteps(i, p)
          ensures PlaceOf(s).Before(PlaceOf(t))
        {
          PartHas(i, p, s);
          SlotHas(i, p, t);
          SlotPlaces(s, t, i, p);
        }
        InOrderBoth(PartSteps(i, p), SlotSteps(i, p));
      }
    }

    /** Steps before the commit stand in the first stage, ordered by part. */
    lemma PreparePlace(s: Step)
      requires IsPrepare(s, |parts|)
      ensures PlaceOf(s).stage == 0 && PlaceOf(s).major == s.part
    {
    }

    lemma {:induction false} PrepareInOrder(n: nat)
      requires n <= |parts|
      ensures InOrder(PrepareSteps(n))
    {
      hide PrepareSteps, PartSteps, Env.Skips, PlaceOf;
      PrepareUnfold(n);
      if n > 0 {
        PrepareInOrder(n - 1);
        PartInOrder(n - 1, COMMIT_PLUGIN);
        forall s, t | s in PrepareSteps(n - 1) && t in PartSteps(n - 1, COMMIT_PLUGIN)
          ensures PlaceOf(s).Before(PlaceOf(t))
        {
          PrepareHas(n - 1, s);
          PartHas(n - 1, COMMIT_PLUGIN, t);
          PreparePlace(s);
          PreparePlace(t);
        }
        InOrderBoth(PrepareSteps(n - 1), PartSteps(n - 1, COMMIT_PLUGIN));
      }
    }

    lemma {:induction false} CommitSlotInOrder(p: nat, n: nat)
      requires n <= |parts| && COMMIT_PLUGIN <= p
      ensures InOrder(CommitSlot(p, n))
    {
      if n > 0 {
        CommitSlotInOrder(p, n - 1);
        forall s | s in CommitSlot(p, n - 1)
          ensures s.SetCall? && s.plugin == p && s.part < n - 1
        {
          CommitSlotHas(p, n - 1, s);
        }
        InOrderBoth(CommitSlot(p, n - 1), if p in parts[n - 1].setplugins then [SetCall(n - 1, p)] else []);
      }
    }

    lemma {:induction false} CommitInOrder(p: nat)
      requires COMMIT_PLUGIN <= p
      ensures InOrder(CommitSteps(p))
    {
      hide CommitSteps, CommitSlot;
      CommitUnfold(p);
      if p > COMMIT_PLUGIN {
        CommitInOrder(p - 1);
        CommitSlotInOrder(p - 1, |parts|);
        forall s, t | s in CommitSteps(p - 1) && t in CommitSlot(p - 1, |parts|)
          ensures PlaceOf(s).Before(PlaceOf(t))
        {
          CommitHas(p - 1, s);
          CommitSlotHas(p - 1, |parts|, t);
        }
        InOrderBoth(CommitSteps(p - 1), CommitSlot(p - 1, |parts|));
      }
    }

    lemma {:induction false} RollbackSlotInOrder(p: nat, n: nat)
      requires n <= |parts|
      ensures InOrder(RollbackSlot(p, n))
    {
      if n > 0 {
        RollbackSlotInOrder(p, n - 1);
        forall s | s in RollbackSlot(p, n - 1)
          ensures s.ErrorCall? && s.plugin == p && s.part < n - 1
        {
          RollbackSlotHas(p, n - 1, s);
        }
        InOrderBoth(RollbackSlot(p, n - 1), if p in parts[n - 1].errorplugins then [ErrorCall(n - 1, p)] else []);
      }
    }

    lemma {:induction false} RollbackInOrder(p: nat)
      ensures InOrder(RollbackSteps(p))
    {
      hide RollbackSteps, RollbackSlot;
      RollbackUnfold(p);
      if p > 0 {
        RollbackInOrder(p - 1);
        RollbackSlotInOrder(p - 1, |parts|);
        forall s, t | s in RollbackSteps(p - 1) && t in RollbackSlot(p - 1, |parts|)
          ensures PlaceOf(s).Before(PlaceOf(t))
        {
          RollbackHas(p - 1, s);
          RollbackSlotHas(p - 1, |parts|, t);
        }
        InOrderBoth(RollbackSteps(p - 1), RollbackSlot(p - 1, |parts|));
      }
    }

    lemma PhasesInOrder(prepared: seq<Step>, last: seq<Step>, before: Hook, after: Hook)
      requires InOrder(prepared) && InOrder(last)
      requires (before == PreCommit && after == PostCommit) || (before == PreRollback && after == PostRollback)
      requires forall s | s in prepared :: PlaceOf(s).stage == 0
      requires forall s | s in last :: PlaceOf(s).stage == 2
      ensures InOrder(prepared + Global(before, 0) + last + Global(after, 0))
    {
      InOrderBoth(prepared, Global(before, 0));
      InOrderBoth(prepared + Global(before, 0), last);
      InOrderBoth(prepared + Global(before, 0) + last, Global(after, 0));
    }

    /** Whatever the plugins answer, the steps of a run stand in their places. */
    lemma TraceInOrder()
      ensures InOrder(Trace())
    {
      hide PrepareSteps, CommitSteps, RollbackSteps, IsPrepare, Failed, InOrder;
      PrepareInOrder(|parts|);
      CommitInOrder(NR_OF_PLUGINS);
      RollbackInOrder(NR_OF_PLUGINS);
      forall s | s in PrepareSteps(|parts|)
        ensures PlaceOf(s).stage == 0
      {
        PrepareHas(|parts|, s);
        PreparePlace(s);
      }
      forall s | s in CommitSteps(NR_OF_PLUGINS)
        ensures PlaceOf(s).stage == 2
      {
        CommitHas(NR_OF_PLUGINS, s);
      }
      forall s | s in RollbackSteps(NR_OF_PLUGINS)
        ensures PlaceOf(s).stage == 2
      {
        RollbackHas(NR_OF_PLUGINS, s);
      }
      PhasesInOrder(PrepareSteps(|parts|), CommitSteps(NR_OF_PLUGINS), PreCommit, PostCommit);
      PhasesInOrder(PrepareSteps(|parts|), RollbackSteps(NR_OF_PLUGINS), PreRollback, PostRollback);
    }

    /** So the steps that TraceHas tells, in these places, are the run. */
    lemma TraceIsTheOnly(steps: seq<Step>)
      requires InOrder(steps) && forall s :: s in steps <==> s in Trace()
      ensures steps == Trace()
    {
      hide Env.Trace, InOrder;
      TraceInOrder();
      OrderIsUnique(steps, Trace());
    }

    /** A later position is a later place. */
    lemma LaterIsLater(k: nat, m: nat)
      requires k < |Trace()| && m < |Trace()|
      ensures k < m <==> PlaceOf(Trace()[k]).Before(PlaceOf(Trace()[m]))
    {
      hide Env.Trace, PlaceOf;
      TraceInOrder();
    }

    /** Every plugin and every hook comes after all that were called to prepare, and hooks enclose what they are for. */
    lemma RunGoesOn(k: nat, m: nat)
      requires k < |Trace()| && m < |Trace()|
      ensures var s, t := Trace()[k], Trace()[m];
        var prepares := (s.SetCall? && s.plugin < COMMIT_PLUGIN) ||
                        (s.GlobalCall? && (s.hook == PreSetStorage || s.hook == PreSetCleanup));
        var acts := t.ErrorCall? || (t.SetCall? && t.plugin >= COMMIT_PLUGIN);
        && (prepares && (acts || (t.GlobalCall? && t.hook != PreSetStorage && t.hook != PreSetCleanup)) ==> k < m)
        && (s.GlobalCall? && (s.hook == PreRollback || s.hook == PreCommit) && acts ==> k < m)
        && (s.GlobalCall? && (s.hook == PostRollback || s.hook == PostCommit) && acts ==> m < k)
    {
      hide Env.Trace;
      LaterIsLater(k, m);
      LaterIsLater(m, k);
    }

    /** Preparing goes through all slots of one part before the next, rolling back and committing slot by slot. */
    lemma CallsGoOn(k: nat, m: nat)
      requires k < |Trace()| && m < |Trace()|
      ensures var s, t := Trace()[k], Trace()[m];
        && (s.SetCall? && t.SetCall? && s.plugin < COMMIT_PLUGIN && t.plugin < COMMIT_PLUGIN ==>
             (k < m <==> s.part < t.part || (s.part == t.part && s.plugin < t.plugin)))
        && (s.ErrorCall? && t.ErrorCall? ==>
             (k < m <==> s.plugin < t.plugin || (s.plugin == t.plugin && s.part < t.part)))
        && (s.SetCall? && t.SetCall? && s.plugin >= COMMIT_PLUGIN && t.plugin >= COMMIT_PLUGIN ==>
             (k < m <==> s.plugin < t.plugin || (s.plugin == t.plugin && s.part < t.part)))
        && (s.SetCall? && s.plugin < COMMIT_PLUGIN && t.GlobalCall? && t.hook == PreSetStorage ==>
             (k < m <==> s.part < t.part || (s.part == t.part && s.plugin == 0)))
        && (s.SetCall? && s.plugin < COMMIT_PLUGIN && t.GlobalCall? && t.hook == PreSetCleanup ==>
             (k < m <==> s.part < t.part || (s.part == t.part && s.plugin < STORAGE_PLUGIN)))
    {
      hide Env.Trace;
      LaterIsLater(k, m);
    }

    static predicate Once(steps: seq<Step>) {
      forall k, m | 0 <= k < m < |steps| :: steps[k] != steps[m]
    }

    /** So one answer for each step covers every behaviour the plugins can show in a run. */
    lemma TraceOnce()
      ensures Once(Trace())
    {
      hide Env.Trace, PlaceOf;
      TraceInOrder();
    }
  }

  // ---------- the loops ----------

  /** elektraSetPrepare. */
  method SetPrepare(env: Env) returns (anyError: int, trace: seq<Step>)
    ensures trace == env.PrepareSteps(|env.parts|)
    ensures anyError == if env.AnyPrepareFails() then -1 else 0
  {
    hide Env.SlotSteps;
    anyError, trace := 0, [];
    for i := 0 to |env.parts|
      invariant trace == env.PrepareSteps(i)
      invariant anyError == if env.Failed(trace) then -1 else 0
    {
      ghost var before := trace;
      var p := 0;
      while p < COMMIT_PLUGIN
        invariant 0 <= p <= COMMIT_PLUGIN && trace == before + env.PartSteps(i, p)
        invariant anyError == if env.Failed(trace) then -1 else 0
        invariant p > 0 ==> !env.Skips(i)
        decreases COMMIT_PLUGIN - p
      {
        var steps, ret := PrepareSlot(env, i, p);
        FailedBoth(env, trace, steps);
        trace := trace + steps;
        if ret == -1 {
          anyError := -1;
        }
        p := p + 1;
        if env.Skips(i) {
          NothingMore(env, i, COMMIT_PLUGIN);
          break;
        }
      }
    }
  }

  /** After the resolver said that nothing has to be done, there are no further steps. */
  lemma {:induction false} NothingMore(env: Env, i: nat, slots: nat)
    requires i < |env.parts| && slots > 0 && env.Skips(i)
    ensures env.PartSteps(i, slots) == env.PartSteps(i, 1)
  {
    if slots > 1 {
      NothingMore(env, i, slots - 1);
    }
  }

  lemma FailedBoth(env: Env, a: seq<Step>, b: seq<Step>)
    ensures env.Failed(a + b) <==> env.Failed(a) || env.Failed(b)
  {
    if env.Failed(b) {
      var k :| 0 <= k < |b| && b[k].SetCall? && env.answer(b[k]) == -1;
      assert (a + b)[|a| + k] == b[k];
    }
    if env.Failed(a) {
      var k :| 0 <= k < |a| && a[k].SetCall? && env.answer(a[k]) == -1;
      assert (a + b)[k] == a[k];
    }
  }

  /** The inner loop body: call the plugin, unless the resolver stops here call the global hook. */
  method PrepareSlot(env: Env, i: nat, p: nat) returns (steps: seq<Step>, ret: int)
    requires i < |env.parts| && p < COMMIT_PLUGIN && (p > 0 ==> !env.Skips(i))
    ensures steps == env.SlotSteps(i, p)
    ensures ret == -1 <==> env.Failed(steps)
  {
    ret, steps := 0, [];
    if p in env.parts[i].setplugins {
      steps := steps + [SetCall(i, p)];
      ret := env.answer(SetCall(i, p));
      assert env.Failed(steps) <==> ret == -1 by {
        assert steps[0] == SetCall(i, p);
      }
      if p == 0 && ret == 0 {
        return;
      }
    }
    ghost var called := steps;
    if p == 0 {
      steps := steps + env.Global(PreSetStorage, i);
    } else if p == STORAGE_PLUGIN - 1 {
      steps := steps + env.Global(PreSetCleanup, i);
    }
    FailedBoth(env, called, steps[|called|..]);
    assert steps == called + steps[|called|..];
  }

  /** elektraSetCommit: what the plugins answer makes no difference. */
  method SetCommit(env: Env) returns (trace: seq<Step>)
    ensures trace == env.CommitSteps(NR_OF_PLUGINS)
  {
    trace := [];
    for p := COMMIT_PLUGIN to NR_OF_PLUGINS
      invariant trace == env.CommitSteps(p)
    {
      ghost var before := trace;
      for i := 0 to |env.parts|
        invariant trace == before + env.CommitSlot(p, i)
      {
        if p in env.parts[i].setplugins {
          trace := trace + [SetCall(i, p)];
        }
      }
    }
  }

  /** elektraSetRollback. */
  method SetRollback(env: Env) returns (trace: seq<Step>)
    ensures trace == env.RollbackSteps(NR_OF_PLUGINS)
  {
    trace := [];
    for p := 0 to NR_OF_PLUGINS
      invariant trace == env.RollbackSteps(p)
    {
      ghost var before := trace;
      for i := 0 to |env.parts|
        invariant trace == before + env.RollbackSlot(p, i)
      {
        if p in env.parts[i].errorplugins {
          trace := trace + [ErrorCall(i, p)];
        }
      }
    }
  }

  // ---------- kdbSet ----------

  /** syncstate |= n, where syncstate is 0 or 1 and n any integer in two's complement. */
  function BitOr(syncstate: int, n: int): int
    requires syncstate == 0 || syncstate == 1
  {
    if syncstate == 1 && n % 2 == 0 then n + 1 else n
  }

  /** The part the error message names when splitSync found part i unready. */
  function Reported(syncstate: int): Option<int> {
    if syncstate < -1 then Some(-syncstate - 2) else None
  }

  /** It is the right part unless a key needs sync and the position is even. */
  lemma ReportedPart(syncstate: int, i: nat)
    requires syncstate == 0 || syncstate == 1
    ensures BitOr(syncstate, -2 - i) < 0
    ensures Reported(BitOr(syncstate, -2 - i)) == Some(i) <==> syncstate == 0 || i % 2 == 1
    ensures syncstate == 1 && i % 2 == 0 ==>
      Reported(BitOr(syncstate, -2 - i)) == if i == 0 then None else Some(i - 1)
  {
  }

  lemma OrOfFlags(syncstate: int, n: int)
    requires syncstate == 0 || syncstate == 1
    ensures n == 0 || n == 1 ==> BitOr(syncstate, n) == if syncstate == 1 || n == 1 then 1 else 0
    ensures n < 0 ==> BitOr(syncstate, n) < 0
  {
  }

  /** The positions 0 to n - 1. */
  function Positions(n: nat): (r: seq<nat>)
    ensures |r| == n && forall i | 0 <= i < n :: r[i] == i
  {
    seq(n, i requires 0 <= i < n => i)
  }

  /** r has the elements of s at the positions taking, which are the flagged ones in their order. */
  predicate Picks<T(==)>(s: seq<T>, bits: seq<nat>, taking: seq<nat>, r: seq<T>) {
    && |s| == |bits| && |r| == |taking|
    && (forall t | 0 <= t < |taking| :: taking[t] < |s| && r[t] == s[taking[t]] && SyncBit(bits[taking[t]]))
    && (forall t, u | 0 <= t < u < |taking| :: taking[t] < taking[u])
    && (forall j | 0 <= j < |bits| && SyncBit(bits[j]) :: j in taking)
  }

  lemma PicksNext<T>(s: seq<T>, bits: seq<nat>, taking: seq<nat>, r: seq<T>, x: T, b: nat)
    requires Picks(s, bits, taking, r)
    ensures SyncBit(b) ==> Picks(s + [x], bits + [b], taking + [|s|], r + [x])
    ensures !SyncBit(b) ==> Picks(s + [x], bits + [b], taking, r)
  {
    hide SyncBit;
  }

  /** Which parts are left after splitPrepare, and that all parallel arrays agree on it. */
  lemma {:induction false} SelectedPositions<T>(s: seq<T>, bits: seq<nat>)
    requires |s| == |bits|
    ensures Picks(s, bits, Selected<nat>(Positions(|bits|), bits), Selected(s, bits))
  {
    if s != [] {
      hide SyncBit, Picks;
      var n := |s| - 1;
      SelectedPositions(s[..n], bits[..n]);
      assert Positions(n + 1)[..n] == Positions(n) && Positions(n + 1)[n] == n;
      assert s == s[..n] + [s[n]] && bits == bits[..n] + [bits[n]];
      var taking, r := Selected<nat>(Positions(n), bits[..n]), Selected(s[..n], bits[..n]);
      assert taking + [] == taking && r + [] == r;
      PicksNext(s[..n], bits[..n], taking, r, s[n], bits[n]);
    }
  }

  /** The numbers of keys the backends remember for the parts. */
  ghost function Sizes(split: Split): (sizes: seq<int>)
    requires split.Complete()
    reads split, split.Backends()
    ensures |sizes| == |split.keysets|
    ensures forall j | 0 <= j < |sizes| :: sizes[j] == StoredSize(split.handles[j].value, split.parents[j].value.root)
  {
    seq(|split.keysets|, j requires split.Complete() && 0 <= j < |split.keysets| reads split, split.Backends() =>
      assert split.handles[j].value in split.Backends(); StoredSize(split.handles[j].value, split.parents[j].value.root))
  }

  /** Or-ing with 1 sets the lowest bit and leaves the others, in two's complement also of negative numbers. */
  lemma OrSetsLowestBit(n: int)
    ensures BitOr(0, n) == n && BitOr(1, n) % 2 == 1 && BitOr(1, n) / 2 == n / 2
  {
  }

  /** What kdbSet knows about the parts when it decides. */
  datatype Situation = Situation(keys: seq<Key>, needSync: set<Key>, layout: Layout, router: Router,
                                 sizes: seq<int>, keysets: seq<map<Ident, Key>>) {
    ghost predicate Valid() {
      layout.Valid() && |sizes| == |keysets| == |layout.handles|
    }

    /** A key of the part needs sync, or the number of its keys changed. */
    ghost predicate TakesPart(j: nat)
      requires Valid() && j < |sizes|
    {
      NeedsSync(keys, needSync, layout, router, j) || Changed(j)
    }

    ghost predicate Changed(j: nat)
      requires Valid() && j < |sizes|
    {
      sizes[j] != |keysets[j]|
    }

    ghost predicate Unready(j: nat)
      requires Valid() && j < |sizes|
    {
      layout.parents[j].None? || !Storable(layout.parents[j].value.root) || sizes[j] == -1
    }

    ghost predicate Ready()
      requires Valid()
    {
      forall j | 0 <= j < |sizes| :: !Unready(j)
    }
  }

  /** A part takes part if a key of it needs sync, and also if it has more or less keys than it had. */
  lemma TakesPartIf(situation: Situation, j: nat)
    requires situation.Valid() && j < |situation.sizes|
    ensures situation.TakesPart(j) <==>
      || situation.sizes[j] != |situation.keysets[j]|
      || exists i | 0 <= i < |situation.keys| :: situation.keys[i] in situation.needSync &&
           Target(situation.layout, situation.router, situation.keys[i].id.name) == j
    ensures situation.Ready() <==> forall i | 0 <= i < |situation.sizes| ::
      situation.sizes[i] != -1 && situation.layout.parents[i].Some? && Storable(situation.layout.parents[i].value.root)
  {
    hide Storable, Target;
    assert forall i | 0 <= i < |situation.sizes| :: situation.Unready(i) <==>
      situation.sizes[i] == -1 || situation.layout.parents[i].None? || !Storable(situation.layout.parents[i].value.root);
  }

  /** Sizes and readiness of the parts, as values. */
  lemma SizesMean(split: Split, situation: Situation)
    requires split.Complete() && situation.Valid()
    requires situation.sizes == Sizes(split) && situation.keysets == split.keysets
    requires situation.layout == split.LayoutOf()
    ensures forall j | 0 <= j < |split.keysets| :: split.Changed(j) == situation.Changed(j)
    ensures forall j | 0 <= j < |split.keysets| :: split.Unready(j) == situation.Unready(j)
    ensures situation.Ready() <==> forall j | 0 <= j < |split.keysets| :: !split.Unready(j)
    ensures (exists j | 0 <= j < |situation.sizes| :: situation.Changed(j)) <==>
      exists j | 0 <= j < |split.keysets| :: split.Changed(j)
  {
    hide Storable;
    forall j | 0 <= j < |split.keysets|
      ensures split.Changed(j) == situation.Changed(j) && split.Unready(j) == situation.Unready(j)
    {
    }
    assert forall j | 0 <= j < |split.keysets| :: situation.Changed(j) == split.Changed(j);
    assert forall j | 0 <= j < |split.keysets| :: situation.Unready(j) == split.Unready(j);
  }

  /** The flags after splitDivide, if there were none before. */
  lemma FlagsMean(before: seq<nat>, after: seq<nat>, situation: Situation)
    requires situation.Valid() && |before| == |situation.sizes|
    requires Flagged(before, after, situation.keys, situation.needSync, situation.layout, situation.router)
    requires forall j | 0 <= j < |before| :: !SyncBit(before[j])
    ensures |after| == |before|
    ensures forall j | 0 <= j < |after| ::
      SyncBit(after[j]) <==> NeedsSync(situation.keys, situation.needSync, situation.layout, situation.router, j)
    ensures AnyNeedsSync(situation.keys, situation.needSync, situation.layout, situation.router) <==>
      exists j | 0 <= j < |after| :: SyncBit(after[j])
  {
    hide Target, SyncBit;
    if AnyNeedsSync(situation.keys, situation.needSync, situation.layout, situation.router) {
      var i :| 0 <= i < |situation.keys| && situation.keys[i] in situation.needSync &&
        Target(situation.layout, situation.router, situation.keys[i].id.name) >= 0;
      var j := Target(situation.layout, situation.router, situation.keys[i].id.name);
      TargetIs(situation.layout, situation.router, situation.keys[i].id.name);
      assert SyncBit(after[j]);
    }
  }

  /** The first half of kdbSet: divide the keys, compare the sizes, combine the two answers. */
  method Decide(handle: Kdb, split: Split, keys: seq<Key>, needSync: set<Key>, ghost contents: map<Ident, Key>)
    returns (syncstate: int, ghost situation: Situation)
    requires handle.Valid() && split as object !in handle.Footprint() && AllNamed(keys) && Represents(keys, contents)
    requires split.Complete() && forall j | 0 <= j < |split.syncbits| :: !SyncBit(split.syncbits[j])
    modifies split
    ensures split.Complete() && split.handles == old(split.handles) && split.parents == old(split.parents)
    ensures split.LayoutOf() == old(split.LayoutOf())
    ensures Divided(old(split.keysets), split.keysets, contents, keys, split.LayoutOf(), RouterOf(handle))
    ensures situation ==
      Situation(keys, needSync, split.LayoutOf(), RouterOf(handle), old(Sizes(split)), split.keysets) && situation.Valid()
    ensures situation.Ready() ==>
      && syncstate == (if exists j | 0 <= j < |split.syncbits| :: SyncBit(split.syncbits[j]) then 1 else 0)
      && forall j | 0 <= j < |split.syncbits| :: SyncBit(split.syncbits[j]) <==> situation.TakesPart(j)
    ensures !situation.Ready() ==> syncstate < 0
    ensures forall i | 0 <= i < |situation.sizes| && situation.Unready(i) && Storable(split.parents[i].value.root) ::
      (forall j | 0 <= j < i :: !situation.Unready(j)) ==>
        (Reported(syncstate) == Some(i) <==> !AnyNeedsSync(keys, needSync, split.LayoutOf(), RouterOf(handle)) || i % 2 == 1)
  {
    hide Kdb.Valid, Represents, AllNamed, Divided, NeedsSync, AnyNeedsSync, Flagged, SyncBit, CascadingBit, Storable;
    ghost var sizes, bits := Sizes(split), split.syncbits;
    syncstate := split.Divide(handle, keys, needSync, contents);
    situation := Situation(keys, needSync, split.LayoutOf(), RouterOf(handle), sizes, split.keysets);
    FlagsMean(bits, split.syncbits, situation);
    syncstate := Combine(split, syncstate, situation);
  }

  /** syncstate |= splitSync (split). */
  method Combine(split: Split, needed: int, ghost situation: Situation) returns (syncstate: int)
    requires split.Complete() && situation.Valid() && (needed == 0 || needed == 1)
    requires situation.sizes == Sizes(split) && situation.keysets == split.keysets
    requires situation.layout == split.LayoutOf()
    modifies split`syncbits
    ensures split.Complete() && split.LayoutOf() == old(split.LayoutOf())
    ensures situation.Ready() ==> (syncstate == 0 || syncstate == 1)
    ensures situation.Ready() ==>
      (syncstate == 1 <==> needed == 1 || exists j | 0 <= j < |situation.sizes| :: situation.Changed(j))
    ensures situation.Ready() ==> forall j | 0 <= j < |split.syncbits| ::
      SyncBit(split.syncbits[j]) <==> SyncBit(old(split.syncbits)[j]) || situation.Changed(j)
    ensures !situation.Ready() ==> syncstate < 0
    ensures forall i | 0 <= i < |situation.sizes| && situation.Unready(i) && Storable(split.parents[i].value.root) ::
      (forall j | 0 <= j < i :: !situation.Unready(j)) ==>
        (Reported(syncstate) == Some(i) <==> needed == 0 || i % 2 == 1)
  {
    hide SyncBit, CascadingBit, Storable, Situation.Changed, Situation.Unready, Situation.Ready, BitOr, Reported;
    var n := split.Sync();
    OrOfFlags(needed, n);
    assert Sizes(split) == situation.sizes;
    SizesMean(split, situation);
    if n != 0 && n != 1 {
      ghost var i :| 0 <= i < |split.keysets| && split.Unready(i) && (forall j | 0 <= j < i :: !split.Unready(j)) &&
        n == if Storable(split.parents[i].value.root) then -i - 2 else -1;
      ReportedPart(needed, i);
      assert situation.Unready(i);
    }
    syncstate := BitOr(needed, n);
  }

  /** The parts that are left come from increasing positions, so they are as distinct as before. */
  lemma StillProper(before: Layout, after: Layout, taking: seq<nat>)
    requires before.Valid() && before.Proper() && after.Valid() && |after.handles| == |taking|
    requires forall t, u | 0 <= t < u < |taking| :: taking[t] < taking[u]
    requires forall t | 0 <= t < |taking| ::
      && taking[t] < |before.handles|
      && after.handles[t] == before.handles[taking[t]] && after.parents[t] == before.parents[taking[t]]
      && after.cascading[t] == before.cascading[taking[t]]
    ensures after.Proper()
  {
  }

  /** splitPrepare, and which parts it leaves. */
  method PrepareParts(split: Split) returns (ghost taking: seq<nat>)
    requires split.Complete() && split.LayoutOf().Proper()
    modifies split
    ensures split.Complete() && split.LayoutOf().Proper() && |split.keysets| == |taking|
    ensures forall t | 0 <= t < |taking| ::
      && taking[t] < |old(split.keysets)|
      && split.handles[t] == old(split.handles)[taking[t]] && split.parents[t] == old(split.parents)[taking[t]]
      && split.keysets[t] == old(split.keysets)[taking[t]]
    ensures forall t, u | 0 <= t < u < |taking| :: taking[t] < taking[u]
    ensures forall j | 0 <= j < |old(split.keysets)| :: j in taking <==> SyncBit(old(split.syncbits)[j])
    ensures split.Backends() <= old(split.Backends())
  {
    hide SyncBit, CascadingBit, Selected, Layout.Proper;
    ghost var bits := split.syncbits;
    taking := Selected<nat>(Positions(|bits|), bits);
    SelectedPositions(split.keysets, bits);
    SelectedPositions(split.handles, bits);
    SelectedPositions(split.parents, bits);
    SelectedPositions(bits, bits);
    ghost var before := split.LayoutOf();
    split.Prepare();
    StillProper(before, split.LayoutOf(), taking);
  }

  /**
    What kdbSet does in a situation: nothing if a part is unready or no part takes part; otherwise the
    steps of the parts that take part, and -1 exactly if one of the steps before the commit fails.
   */
  ghost predicate Outcome(situation: Situation, handles: seq<Option<Backend>>, plugins: map<Backend, Installed>,
                          ret: int, trace: seq<Step>, env: Env, taking: seq<nat>)
    requires situation.Valid()
  {
    if !situation.Ready() then ret == -1 && trace == []
    else if forall j | 0 <= j < |situation.sizes| :: !situation.TakesPart(j) then ret == 0 && trace == []
    else
      && trace == env.Trace() && ret == (if env.AnyPrepareFails() then -1 else 1)
      && |env.parts| == |taking|
      && (forall t | 0 <= t < |taking| ::
           && taking[t] < |handles| && handles[taking[t]].Some? && handles[taking[t]].value in plugins
           && env.parts[t] == plugins[handles[taking[t]].value])
      && (forall t, u | 0 <= t < u < |taking| :: taking[t] < taking[u])
      && forall j | 0 <= j < |situation.sizes| :: j in taking <==> situation.TakesPart(j)
  }

  /** kdbSet for a split that splitBuildup made, without the texts; still is who needs sync afterwards. */
  method KdbSet(handle: Kdb, split: Split, keys: seq<Key>, needSync: set<Key>, plugins: map<Backend, Installed>,
                hooks: set<Hook>, answer: Step -> int, ghost contents: map<Ident, Key>)
    returns (ret: int, trace: seq<Step>, still: set<Key>, ghost situation: Situation, ghost env: Env, ghost taking: seq<nat>)
    requires handle.Valid() && split as object !in handle.Footprint() && AllNamed(keys) && Represents(keys, contents)
    requires split.Complete() && split.LayoutOf().Proper()
    requires forall j | 0 <= j < |split.keysets| :: !SyncBit(split.syncbits[j]) && split.handles[j].value in plugins
    modifies split, split.Backends()
    ensures Divided(old(split.keysets), situation.keysets, contents, keys, old(split.LayoutOf()), old(RouterOf(handle)))
    ensures situation ==
      Situation(keys, needSync, old(split.LayoutOf()), old(RouterOf(handle)), old(Sizes(split)), situation.keysets)
    ensures situation.Valid() && env.hooks == hooks && env.answer == answer
    ensures Outcome(situation, old(split.handles), plugins, ret, trace, env, taking)
    ensures ret == 1 ==> split.Complete() && forall t | 0 <= t < |split.keysets| :: !split.Changed(t)
    ensures still == if ret == 1 then needSync - set k | k in keys else needSync
  {
    hide Kdb.Valid, Represents, AllNamed, Divided, NeedsSync, AnyNeedsSync, SyncBit, CascadingBit, Storable;
    hide Layout.Proper, Outcome, Situation.TakesPart, Situation.Ready;
    var syncstate;
    syncstate, situation := Decide(handle, split, keys, needSync, contents);
    ret, trace, env, taking := Finish(split, syncstate, plugins, hooks, answer, situation);
    still := needSync;
    if ret == 1 {
      still := ClearFlags(keys, needSync);
    }
  }

  /** The loop at the end of kdbSet: no key needs sync any more, whether it was stored or not. */
  method ClearFlags(keys: seq<Key>, needSync: set<Key>) returns (still: set<Key>)
    ensures still == needSync - set k | k in keys
  {
    still := needSync;
    for i := 0 to |keys|
      invariant still == needSync - set k | k in keys[..i]
    {
      assert keys[..i + 1] == keys[..i] + [keys[i]];
      still := still - {keys[i]};
    }
    assert keys[..|keys|] == keys;
  }

  method Finish(split: Split, syncstate: int, plugins: map<Backend, Installed>, hooks: set<Hook>, answer: Step -> int,
                ghost situation: Situation)
    returns (ret: int, trace: seq<Step>, ghost env: Env, ghost taking: seq<nat>)
    requires split.Complete() && split.LayoutOf().Proper() && situation.Valid() && |situation.sizes| == |split.keysets|
    requires situation.layout == split.LayoutOf()
    requires forall j | 0 <= j < |split.keysets| :: split.handles[j].value in plugins
    requires situation.Ready() ==>
      && syncstate == (if exists j | 0 <= j < |split.syncbits| :: SyncBit(split.syncbits[j]) then 1 else 0)
      && forall j | 0 <= j < |split.syncbits| :: SyncBit(split.syncbits[j]) <==> situation.TakesPart(j)
    requires !situation.Ready() ==> syncstate < 0
    modifies split, split.Backends()
    ensures env.hooks == hooks && env.answer == answer
    ensures Outcome(situation, old(split.handles), plugins, ret, trace, env, taking)
    ensures ret == 1 ==> split.Complete() && forall t | 0 <= t < |split.keysets| :: !split.Changed(t)
  {
    hide SyncBit, CascadingBit, Storable, Layout.Proper, Situation.TakesPart, Situation.Ready;
    hide Env.Trace, Env.AnyPrepareFails, Outcome;
    ReadyParts(split, situation);
    ghost var handles, bits := split.handles, split.syncbits;
    trace, taking, env := [], [], Env([], hooks, answer);
    if syncstate != 1 {
      ret := if syncstate == 0 then 0 else -1;
      NothingHappens(situation, handles, plugins, bits, env);
      return;
    }
    taking := PrepareParts(split);
    var parts := PluginsOf(split, plugins);
    env := Env(parts, hooks, answer);
    ret, trace := Store(Env(parts, hooks, answer), split);
    PartsAct(situation, handles, plugins, bits, ret, trace, env, taking);
  }

  lemma NothingHappens(situation: Situation, handles: seq<Option<Backend>>, plugins: map<Backend, Installed>,
                       bits: seq<nat>, env: Env)
    requires situation.Valid() && |bits| == |situation.sizes|
    requires situation.Ready() ==> forall j | 0 <= j < |bits| :: SyncBit(bits[j]) <==> situation.TakesPart(j)
    requires situation.Ready() ==> forall j | 0 <= j < |bits| :: !SyncBit(bits[j])
    ensures Outcome(situation, handles, plugins, if situation.Ready() then 0 else -1, [], env, [])
  {
    hide SyncBit, Situation.TakesPart, Situation.Ready;
  }

  lemma PartsAct(situation: Situation, handles: seq<Option<Backend>>, plugins: map<Backend, Installed>, bits: seq<nat>,
                 ret: int, trace: seq<Step>, env: Env, taking: seq<nat>)
    requires situation.Valid() && situation.Ready() && |bits| == |situation.sizes|
    requires forall j | 0 <= j < |bits| :: SyncBit(bits[j]) <==> situation.TakesPart(j)
    requires exists j | 0 <= j < |bits| :: SyncBit(bits[j])
    requires trace == env.Trace() && ret == (if env.AnyPrepareFails() then -1 else 1) && |env.parts| == |taking|
    requires forall t | 0 <= t < |taking| ::
      && taking[t] < |handles| && handles[taking[t]].Some? && handles[taking[t]].value in plugins
      && env.parts[t] == plugins[handles[taking[t]].value]
    requires forall t, u | 0 <= t < u < |taking| :: taking[t] < taking[u]
    requires forall j | 0 <= j < |bits| :: j in taking <==> SyncBit(bits[j])
    ensures Outcome(situation, handles, plugins, ret, trace, env, taking)
  {
    hide SyncBit, Situation.TakesPart, Situation.Ready, Env.Trace, Env.AnyPrepareFails;
  }

  method PluginsOf(split: Split, plugins: map<Backend, Installed>) returns (parts: seq<Installed>)
    requires split.Complete() && forall t | 0 <= t < |split.handles| :: split.handles[t].value in plugins
    ensures |parts| == |split.handles| && forall t | 0 <= t < |parts| :: parts[t] == plugins[split.handles[t].value]
  {
    parts := [];
    for t := 0 to |split.handles|
      invariant |parts| == t && forall u | 0 <= u < t :: parts[u] == plugins[split.handles[u].value]
    {
      parts := parts + [plugins[split.handles[t].value]];
    }
  }

  lemma ReadyParts(split: Split, situation: Situation)
    requires split.Complete() && situation.Valid() && situation.layout == split.LayoutOf()
    ensures situation.Ready() ==> forall j | 0 <= j < |split.keysets| :: Storable(split.parents[j].value.root)
  {
    hide Storable;
    forall j | 0 <= j < |split.keysets| && situation.Ready()
      ensures Storable(split.parents[j].value.root)
    {
      assert !situation.Unready(j);
    }
  }

  /** The second half of kdbSet: prepare, and then either roll back or commit. */
  method Store(env: Env, split: Split) returns (ret: int, trace: seq<Step>)
    requires split.Complete() && split.LayoutOf().Proper()
    requires forall t | 0 <= t < |split.keysets| :: Storable(split.parents[t].value.root)
    modifies split.Backends()
    ensures trace == env.Trace() && ret == (if env.AnyPrepareFails() then -1 else 1)
    ensures split.Complete() && (ret == 1 ==> forall t | 0 <= t < |split.keysets| :: !split.Changed(t))
  {
    hide Layout.Proper, Storable, Env.PrepareSteps, Env.CommitSteps, Env.RollbackSteps;
    var prepared;
    ret, prepared := SetPrepare(env);
    if ret == -1 {
      var rolledBack := SetRollback(env);
      trace := prepared + env.Global(PreRollback, 0) + rolledBack + env.Global(PostRollback, 0);
      return;
    }
    var committed := SetCommit(env);
    var _ := split.UpdateSize();
    trace := prepared + env.Global(PreCommit, 0) + committed + env.Global(PostCommit, 0);
    ret := 1;
  }
}
