/** The segment lifecycle (pagecache/segment.h).  A segment of the log file
    goes Free -> Active -> Inactive -> Draining -> Free.  The source keeps one
    heap object per state behind a `std::unique_ptr<Segment>`, whose virtual
    operations throw `std::logic_error` in every state that does not override
    them; each transition consumes the old object and returns the new one
    together with a collection the caller must act on.

    The model keeps the four states as one datatype.  Every operation is a
    function returning a `Result`, with `Err(NOT_IMPLEMENTED)` where the
    source throws, and with the source's `assert`s as preconditions that
    apply in the state that asserts them.  The in-place mutators are also
    methods of `SegmentBox` (module SegmentObjects), and the erase loop of
    `active_to_inactive` is the method `ErasePids`. */
module Segments {
  import opened Wrappers
  import opened Heap

  /** LSNs are 64-bit unsigned counters; this part of the source only
      compares and copies them, so naturals model them exactly.  Page ids are
      64-bit words. */
  type Lsn = nat
  type PageId = bv64

  /** What the base class's default operations throw. */
  const NOT_IMPLEMENTED: Error := LogicError("Not implemented")

  /** What Free's `recovery_ensure_initialized` throws. */
  const RECOVERY_EXTERNAL: Error := LogicError("recovery_ensure_initialized should be handled externally for Free")

  datatype Segment =
    | Free(previousLsn: Option<Lsn>)
    | Active(lsn: Lsn, deferredReplacedPids: set<PageId>, pids: set<PageId>,
             latestReplacementLsn: Lsn, canFreeUponDeactivation: set<Lsn>)
    | Inactive(lsn: Lsn, pids: set<PageId>, maxPids: nat, replacedPids: nat,
               latestReplacementLsn: Lsn)
    | Draining(lsn: Lsn, maxPids: nat, replacedPids: nat, latestReplacementLsn: Lsn)

  /** `SegmentState`, the value of `seg_state()`. */
  datatype SegmentState = SegFree | SegActive | SegInactive | SegDraining

  function SegState(s: Segment): (r: SegmentState)
    ensures r == SegFree <==> s.Free?
    ensures r == SegActive <==> s.Active?
    ensures r == SegInactive <==> s.Inactive?
    ensures r == SegDraining <==> s.Draining?
  {
    match s
    case Free(_) => SegFree
    case Active(_, _, _, _, _) => SegActive
    case Inactive(_, _, _, _, _) => SegInactive
    case Draining(_, _, _, _) => SegDraining
  }

  /** The larger of two LSNs. */
  function MaxLsn(a: Lsn, b: Lsn): (r: Lsn)
    ensures a <= r && b <= r && (r == a || r == b)
  {
    if b > a then b else a
  }

  /** The state the segment-lifecycle bookkeeping keeps in step in the
      Inactive state: every page that was resident is either still live or
      counted as replaced. */
  predicate Balanced(s: Segment)
  {
    s.Inactive? ==> |s.pids| + s.replacedPids == s.maxPids
  }

  // ---------------------------------------------------------------------
  // Construction and queries

  /** `make_free_segment`: a pristine Free segment. */
  function MakeFreeSegment(): (r: Segment)
    ensures r.Free? && r.previousLsn.None?
  {
    Free(None)
  }

  /** `lsn()`: defined in every state but Free. */
  function SegmentLsn(s: Segment): (r: Result<Lsn>)
    ensures r.Ok? <==> !s.Free?
    ensures r.Ok? ==> r.value == s.lsn
  {
    if s.Free? then Err(NOT_IMPLEMENTED) else Ok(s.lsn)
  }

  /** `can_free()`: only a Draining segment all of whose pages have been
      replaced. */
  predicate CanFree(s: Segment)
    ensures CanFree(s) ==> SegState(s) == SegDraining
  {
    s.Draining? && s.replacedPids == s.maxPids
  }

  /** `recovery_ensure_initialized`: throws in every state. */
  function RecoveryEnsureInitialized(s: Segment, lsn: Lsn): (r: Result<()>)
    ensures r.Err?
    ensures s.Free? ==> r.error == RECOVERY_EXTERNAL
  {
    if s.Free? then Err(RECOVERY_EXTERNAL) else Err(NOT_IMPLEMENTED)
  }

  // ---------------------------------------------------------------------
  // Mutators (in place in the source; see SegmentObjects.SegmentBox)

  /** `insert_pid`, which asserts `lsn == lsn_` in the Active state: the pid
      joins `pids` and nothing else changes. */
  function InsertPid(s: Segment, pid: PageId, lsn: Lsn): (r: Result<Segment>)
    requires s.Active? ==> lsn == s.lsn
    ensures r.Ok? <==> s.Active?
    ensures r.Ok? ==> r.value.Active? && r.value.pids == s.pids + {pid}
    ensures r.Ok? ==> r.value.lsn == s.lsn && r.value.deferredReplacedPids == s.deferredReplacedPids
    ensures r.Ok? ==> r.value.latestReplacementLsn == s.latestReplacementLsn
    ensures r.Ok? ==> r.value.canFreeUponDeactivation == s.canFreeUponDeactivation
  {
    match s
    case Active(lsn_, deferred, pids, latest, canFree) => Ok(Active(lsn_, deferred, pids + {pid}, latest, canFree))
    case _ => Err(NOT_IMPLEMENTED)
  }

  /** `defer_free_lsn`: the LSN joins the set handed back on deactivation. */
  function DeferFreeLsn(s: Segment, lsn: Lsn): (r: Result<Segment>)
    ensures r.Ok? <==> s.Active?
    ensures r.Ok? ==> r.value.Active? && r.value.canFreeUponDeactivation == s.canFreeUponDeactivation + {lsn}
    ensures r.Ok? ==> r.value.lsn == s.lsn && r.value.deferredReplacedPids == s.deferredReplacedPids
    ensures r.Ok? ==> r.value.pids == s.pids && r.value.latestReplacementLsn == s.latestReplacementLsn
  {
    match s
    case Active(lsn_, deferred, pids, latest, canFree) => Ok(Active(lsn_, deferred, pids, latest, canFree + {lsn}))
    case _ => Err(NOT_IMPLEMENTED)
  }

  /** `remove_pid`, which asserts `lsn_ <= replacement_lsn` wherever it is
      defined.  A replacement in the same segment (`replacement_lsn ==
      lsn_`) is not counted.  Otherwise an Active segment defers the pid,
      an Inactive one erases it and counts it if it was live, and a Draining
      one counts it unconditionally.  The latest replacement LSN becomes the
      larger of the old one and `replacement_lsn`. */
  function RemovePid(s: Segment, pid: PageId, replacementLsn: Lsn): (r: Result<Segment>)
    requires !s.Free? ==> s.lsn <= replacementLsn
    ensures r.Ok? <==> !s.Free?
    ensures r.Ok? ==> SegState(r.value) == SegState(s) && r.value.lsn == s.lsn
    ensures r.Ok? ==> r.value.latestReplacementLsn == MaxLsn(s.latestReplacementLsn, replacementLsn)
  {
    match s
    case Free(_) => Err(NOT_IMPLEMENTED)
    case Active(lsn, deferred, pids, latest, canFree) =>
      var deferred' := if replacementLsn != lsn then deferred + {pid} else deferred;
      Ok(Active(lsn, deferred', pids, MaxLsn(latest, replacementLsn), canFree))
    case Inactive(lsn, pids, maxPids, replaced, latest) =>
      if replacementLsn != lsn && pid in pids then
        Ok(Inactive(lsn, pids - {pid}, maxPids, replaced + 1, MaxLsn(latest, replacementLsn)))
      else
        Ok(Inactive(lsn, pids, maxPids, replaced, MaxLsn(latest, replacementLsn)))
    case Draining(lsn, maxPids, replaced, latest) =>
      var replaced' := if replacementLsn != lsn then replaced + 1 else replaced;
      Ok(Draining(lsn, maxPids, replaced', MaxLsn(latest, replacementLsn)))
  }

  /** `remove_heap_item`: an Inactive or Draining segment frees the blob at
      once (`config.heap.free`), which the model records by adding the id to
      the set of freed ids; Active's override is commented out in the
      source, so there, as in Free, the base class throws. */
  function RemoveHeapItem(s: Segment, heapId: HeapId, freed: set<HeapId>): (r: Result<set<HeapId>>)
    ensures r.Ok? <==> s.Inactive? || s.Draining?
    ensures r.Ok? ==> r.value == freed + {heapId}
  {
    if s.Inactive? || s.Draining? then Ok(freed + {heapId}) else Err(NOT_IMPLEMENTED)
  }

  // ---------------------------------------------------------------------
  // Transitions

  /** `free_to_active`, which asserts that a previously used segment is
      reused only at a strictly larger LSN: a fresh Active segment. */
  function FreeToActive(s: Segment, newLsn: Lsn): (r: Result<Segment>)
    requires s.Free? && s.previousLsn.Some? ==> newLsn > s.previousLsn.value
    ensures r.Ok? <==> s.Free?
    ensures r.Ok? ==> r.value.Active? && r.value.lsn == newLsn
    ensures r.Ok? ==> r.value.pids == {} && r.value.deferredReplacedPids == {} && r.value.canFreeUponDeactivation == {}
    ensures r.Ok? ==> r.value.latestReplacementLsn == 0
  {
    if s.Free? then Ok(Active(newLsn, {}, {}, 0, {})) else Err(NOT_IMPLEMENTED)
  }

  /** `active_to_inactive`, which asserts `to_lsn >= lsn_`: the live set
      loses the deferred pids, the old size becomes `max_pids`, the number of
      deferred pids becomes `replaced_pids`, and the LSNs deferred with
      `defer_free_lsn` are handed back. */
  function ActiveToInactive(s: Segment, toLsn: Lsn): (r: Result<(Segment, set<Lsn>)>)
    requires s.Active? ==> toLsn >= s.lsn
    ensures r.Ok? <==> s.Active?
    ensures r.Ok? ==> r.value.0.Inactive? && r.value.0.lsn == s.lsn
    ensures r.Ok? ==> r.value.0.pids == s.pids - s.deferredReplacedPids
    ensures r.Ok? ==> r.value.0.maxPids == |s.pids| && r.value.0.replacedPids == |s.deferredReplacedPids|
    ensures r.Ok? ==> r.value.0.latestReplacementLsn == s.latestReplacementLsn
    ensures r.Ok? ==> r.value.1 == s.canFreeUponDeactivation
  {
    match s
    case Active(lsn, deferred, pids, latest, canFree) =>
      Ok((Inactive(lsn, pids - deferred, |pids|, |deferred|, latest), canFree))
    case _ => Err(NOT_IMPLEMENTED)
  }

  /** `inactive_to_draining`, which asserts `to_lsn >= lsn_`: the live set
      is handed back and only the counters stay. */
  function InactiveToDraining(s: Segment, toLsn: Lsn): (r: Result<(Segment, set<PageId>)>)
    requires s.Inactive? ==> toLsn >= s.lsn
    ensures r.Ok? <==> s.Inactive?
    ensures r.Ok? ==> r.value.0.Draining? && r.value.0.lsn == s.lsn && r.value.1 == s.pids
    ensures r.Ok? ==> r.value.0.maxPids == s.maxPids && r.value.0.replacedPids == s.replacedPids
    ensures r.Ok? ==> r.value.0.latestReplacementLsn == s.latestReplacementLsn
  {
    match s
    case Inactive(lsn, pids, maxPids, replaced, latest) =>
      Ok((Draining(lsn, maxPids, replaced, latest), pids))
    case _ => Err(NOT_IMPLEMENTED)
  }

  /** `draining_to_free`, which asserts `to_lsn >= lsn_`: a Free segment
      that remembers this LSN, and the latest replacement LSN. */
  function DrainingToFree(s: Segment, toLsn: Lsn): (r: Result<(Segment, Lsn)>)
    requires s.Draining? ==> toLsn >= s.lsn
    ensures r.Ok? <==> s.Draining?
    ensures r.Ok? ==> r.value.0 == Free(Some(s.lsn)) && r.value.1 == s.latestReplacementLsn
  {
    match s
    case Draining(lsn, _, _, latest) => Ok((Free(Some(lsn)), latest))
    case _ => Err(NOT_IMPLEMENTED)
  }

  /** The erase loop of `active_to_inactive`: a copy of `pids` from which
      every deferred pid is erased in turn. */
  method ErasePids(pids: set<PageId>, deferred: set<PageId>) returns (copy: set<PageId>)
    ensures copy == pids - deferred
  {
    copy := pids;
    var rest := deferred;
    while rest != {}
      invariant rest <= deferred
      invariant copy == pids - (deferred - rest)
      decreases |rest|
    {
      HasElement(rest);
      var pid :| pid in rest;
      copy := copy - {pid};
      rest := rest - {pid};
    }
  }

  /** A non-empty set of pids has an element. */
  lemma HasElement(s: set<PageId>)
    requires s != {}
    ensures exists pid :: pid in s
  {
    if forall pid :: pid !in s {
      assert false;
    }
  }

  // ---------------------------------------------------------------------
  // Properties

  /** Active `remove_pid` defers the pid exactly when the replacement is in
      another segment, defers no other pid, and leaves the live set alone. */
  lemma ActiveRemovePidDefers(s: Segment, pid: PageId, replacementLsn: Lsn)
    requires s.Active? && s.lsn <= replacementLsn
    ensures RemovePid(s, pid, replacementLsn).value.pids == s.pids
    ensures RemovePid(s, pid, replacementLsn).value.canFreeUponDeactivation == s.canFreeUponDeactivation
    ensures RemovePid(s, pid, replacementLsn).value.deferredReplacedPids ==
              if replacementLsn != s.lsn then s.deferredReplacedPids + {pid} else s.deferredReplacedPids
    ensures pid in RemovePid(s, pid, replacementLsn).value.deferredReplacedPids <==>
              pid in s.deferredReplacedPids || replacementLsn != s.lsn
  {
  }

  /** Inactive `remove_pid` erases a live pid replaced elsewhere and counts
      it, so the live pages and the replaced count always add up to the
      same total. */
  lemma InactiveRemovePidCounts(s: Segment, pid: PageId, replacementLsn: Lsn)
    requires s.Inactive? && s.lsn <= replacementLsn
    ensures RemovePid(s, pid, replacementLsn).value.pids == if replacementLsn != s.lsn then s.pids - {pid} else s.pids
    ensures RemovePid(s, pid, replacementLsn).value.replacedPids ==
              s.replacedPids + (if replacementLsn != s.lsn && pid in s.pids then 1 else 0)
    ensures RemovePid(s, pid, replacementLsn).value.maxPids == s.maxPids
    ensures |RemovePid(s, pid, replacementLsn).value.pids| + RemovePid(s, pid, replacementLsn).value.replacedPids ==
              |s.pids| + s.replacedPids
  {
    if replacementLsn != s.lsn && pid in s.pids {
      assert |s.pids - {pid}| == |s.pids| - 1;
    } else if replacementLsn != s.lsn {
      assert s.pids - {pid} == s.pids;
    }
  }

  /** Hence Inactive `remove_pid` keeps a balanced segment balanced. */
  lemma InactiveRemovePidBalanced(s: Segment, pid: PageId, replacementLsn: Lsn)
    requires s.Inactive? && s.lsn <= replacementLsn && Balanced(s)
    ensures Balanced(RemovePid(s, pid, replacementLsn).value)
  {
    InactiveRemovePidCounts(s, pid, replacementLsn);
  }

  /** Deactivation keeps the books balanced when every deferred pid is
      live. */
  lemma ActiveToInactiveBalanced(s: Segment, toLsn: Lsn)
    requires s.Active? && toLsn >= s.lsn && s.deferredReplacedPids <= s.pids
    ensures Balanced(ActiveToInactive(s, toLsn).value.0)
  {
    var d, p := s.deferredReplacedPids, s.pids;
    assert p * d == d;
    assert |p - d| == |p| - |d|;
  }

  /** Draining `remove_pid` counts every replacement elsewhere, so once the
      count reaches `max_pids` one more such call makes `can_free` false. */
  lemma DrainingRemovePidCounts(s: Segment, pid: PageId, replacementLsn: Lsn)
    requires s.Draining? && s.lsn <= replacementLsn
    ensures RemovePid(s, pid, replacementLsn).value.replacedPids ==
              if replacementLsn != s.lsn then s.replacedPids + 1 else s.replacedPids
    ensures RemovePid(s, pid, replacementLsn).value.maxPids == s.maxPids
    ensures CanFree(s) && replacementLsn != s.lsn ==> !CanFree(RemovePid(s, pid, replacementLsn).value)
  {
  }

  /** `can_free` holds in the Draining state exactly when every page has
      been replaced, and in no other state. */
  lemma CanFreeOnlyDraining(s: Segment)
    ensures CanFree(s) <==> SegState(s) == SegDraining && s.replacedPids == s.maxPids
  {
  }

  /** The latest replacement LSN never goes down and covers every
      replacement seen. */
  lemma RemovePidMonotone(s: Segment, pid: PageId, replacementLsn: Lsn)
    requires !s.Free? && s.lsn <= replacementLsn
    ensures s.latestReplacementLsn <= RemovePid(s, pid, replacementLsn).value.latestReplacementLsn
    ensures replacementLsn <= RemovePid(s, pid, replacementLsn).value.latestReplacementLsn
  {
  }

  /** One trip round the cycle without replacements: a Free segment
      activated at `lsn` and filled with `pids` hands every one of them over
      on draining, is freeable only when it holds none, and comes back Free
      remembering `lsn`, so it can only be reactivated at a larger LSN. */
  lemma LifecycleRoundTrip(prev: Option<Lsn>, lsn: Lsn, pids: set<PageId>, toLsn: Lsn)
    requires prev.Some? ==> lsn > prev.value
    requires toLsn >= lsn
    ensures FreeToActive(Free(prev), lsn).value == Active(lsn, {}, {}, 0, {})
    ensures var (i, canFree) := ActiveToInactive(Active(lsn, {}, pids, 0, {}), toLsn).value;
            var (d, live) := InactiveToDraining(i, toLsn).value;
            var (f, latest) := DrainingToFree(d, toLsn).value;
            canFree == {} && live == pids && f == Free(Some(lsn)) && latest == 0
            && Balanced(i) && (CanFree(d) <==> pids == {})
  {
    assert pids - {} == pids;
  }

  /** Free-state operations other than `free_to_active` throw, and so do
      the Active-only ones elsewhere. */
  lemma NotImplementedOutsideState(s: Segment, pid: PageId, lsn: Lsn, h: HeapId)
    ensures s.Free? ==> SegmentLsn(s).Err? && RemovePid(s, pid, lsn).Err? && RemoveHeapItem(s, h, {}).Err?
    ensures !s.Active? ==> InsertPid(s, pid, lsn).Err? && DeferFreeLsn(s, lsn).Err?
    ensures s.Active? ==> RemoveHeapItem(s, h, {}).Err? && FreeToActive(s, lsn).Err?
  {
  }

  // ---------------------------------------------------------------------
  // Scenarios

  /** A pristine segment activated at 10 with page 42 inserted deactivates
      with 42 still live and one resident page. */
  lemma ScenarioInsertThenDeactivate()
    ensures var a := InsertPid(FreeToActive(MakeFreeSegment(), 10).value, 42, 10).value;
            var i := ActiveToInactive(a, 15).value.0;
            42 in i.pids && i.maxPids == 1
  {
    var a := InsertPid(FreeToActive(MakeFreeSegment(), 10).value, 42, 10).value;
    assert a.pids == {42};
  }

  /** Page 42 of the segment at LSN 10, replaced at LSN 20 before
      deactivation, is not live afterwards, and 20 is the latest
      replacement. */
  lemma ScenarioReplaceThenDeactivate()
    ensures var a := InsertPid(FreeToActive(MakeFreeSegment(), 10).value, 42, 10).value;
            var a' := RemovePid(a, 42, 20).value;
            var i := ActiveToInactive(a', 15).value.0;
            42 !in i.pids && i.latestReplacementLsn == 20
  {
  }

  /** An Inactive segment with three resident pages, two replaced, whose
      last live page is replaced elsewhere drains to a freeable segment. */
  lemma ScenarioDrainToFreeable(lsn: Lsn, pid: PageId, replacementLsn: Lsn)
    requires lsn < replacementLsn
    ensures var s := Inactive(lsn, {pid}, 3, 2, 0);
            var s' := RemovePid(s, pid, replacementLsn).value;
            s'.replacedPids == 3 && CanFree(InactiveToDraining(s', replacementLsn).value.0)
  {
  }
}

/** The segment as the object the source manipulates through a
    `std::unique_ptr<Segment>`: the mutators update it in place. */
module SegmentObjects {
  import opened Wrappers
  import opened Heap
  import S = Segments

  /** The status of a call that either completes or throws. */
  function Status(r: Result<S.Segment>): (st: Result<()>)
    ensures st.Ok? <==> r.Ok?
    ensures r.Err? ==> st.error == r.error
  {
    if r.Ok? then Ok(()) else Err(r.error)
  }

  /** The state after such a call: unchanged when it throws. */
  function After(old_: S.Segment, r: Result<S.Segment>): S.Segment
  {
    if r.Ok? then r.value else old_
  }

  /** The set of heap ids `config.heap.free` has been given. */
  class HeapLedger {
    var freed: set<HeapId>

    constructor ()
      ensures freed == {}
    {
      freed := {};
    }
  }

  class SegmentBox {
    var state: S.Segment

    constructor (s: S.Segment)
      ensures state == s
    {
      state := s;
    }

    method InsertPid(pid: S.PageId, lsn: S.Lsn) returns (r: Result<()>)
      requires state.Active? ==> lsn == state.lsn
      modifies this
      ensures r == Status(S.InsertPid(old(state), pid, lsn))
      ensures state == After(old(state), S.InsertPid(old(state), pid, lsn))
    {
      match state
      case Active(lsn_, deferred, pids, latest, canFree) =>
        state := S.Active(lsn_, deferred, pids + {pid}, latest, canFree);
        r := Ok(());
      case _ =>
        r := Err(S.NOT_IMPLEMENTED);
    }

    method DeferFreeLsn(lsn: S.Lsn) returns (r: Result<()>)
      modifies this
      ensures r == Status(S.DeferFreeLsn(old(state), lsn))
      ensures state == After(old(state), S.DeferFreeLsn(old(state), lsn))
    {
      match state
      case Active(lsn_, deferred, pids, latest, canFree) =>
        state := S.Active(lsn_, deferred, pids, latest, canFree + {lsn});
        r := Ok(());
      case _ =>
        r := Err(S.NOT_IMPLEMENTED);
    }

    method RemovePid(pid: S.PageId, replacementLsn: S.Lsn) returns (r: Result<()>)
      requires !state.Free? ==> state.lsn <= replacementLsn
      modifies this
      ensures r == Status(S.RemovePid(old(state), pid, replacementLsn))
      ensures state == After(old(state), S.RemovePid(old(state), pid, replacementLsn))
    {
      r := Ok(());
      match state
      case Free(_) =>
        r := Err(S.NOT_IMPLEMENTED);
      case Active(lsn, deferred, pids, latest, canFree) =>
        if replacementLsn != lsn {
          deferred := deferred + {pid};
        }
        if replacementLsn > latest {
          latest := replacementLsn;
        }
        state := S.Active(lsn, deferred, pids, latest, canFree);
      case Inactive(lsn, pids, maxPids, replaced, latest) =>
        if replacementLsn != lsn && pid in pids {
          pids := pids - {pid};
          replaced := replaced + 1;
        }
        if replacementLsn > latest {
          latest := replacementLsn;
        }
        state := S.Inactive(lsn, pids, maxPids, replaced, latest);
      case Draining(lsn, maxPids, replaced, latest) =>
        if replacementLsn != lsn {
          replaced := replaced + 1;
        }
        if replacementLsn > latest {
          latest := replacementLsn;
        }
        state := S.Draining(lsn, maxPids, replaced, latest);
    }

    method RemoveHeapItem(heapId: HeapId, heap: HeapLedger) returns (r: Result<()>)
      modifies heap
      ensures S.RemoveHeapItem(state, heapId, old(heap.freed)).Ok? ==>
                r == Ok(()) && heap.freed == S.RemoveHeapItem(state, heapId, old(heap.freed)).value
      ensures S.RemoveHeapItem(state, heapId, old(heap.freed)).Err? ==>
                r == Err(S.NOT_IMPLEMENTED) && heap.freed == old(heap.freed)
    {
      if state.Inactive? || state.Draining? {
        heap.freed := heap.freed + {heapId};
        r := Ok(());
      } else {
        r := Err(S.NOT_IMPLEMENTED);
      }
    }

    /** `active_to_inactive`, computing the live set with the erase loop. */
    method ActiveToInactive(toLsn: S.Lsn) returns (r: Result<(S.Segment, set<S.Lsn>)>)
      requires state.Active? ==> toLsn >= state.lsn
      ensures r == S.ActiveToInactive(state, toLsn)
    {
      if !state.Active? {
        return Err(S.NOT_IMPLEMENTED);
      }
      var maxPids := |state.pids|;
      var pidsCopy := S.ErasePids(state.pids, state.deferredReplacedPids);
      var inact := S.Inactive(state.lsn, pidsCopy, maxPids, |state.deferredReplacedPids|,
                              state.latestReplacementLsn);
      r := Ok((inact, state.canFreeUponDeactivation));
    }
  }
}
