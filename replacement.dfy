/**
 * The three page-replacement policies behind the `Algorithm` interface.
 *
 * A policy is asked for a victim only when every frame is occupied. It sees
 * the frames through `resident`, the entry each frame currently holds (None
 * for an empty frame), and the VPN trace through `refs`. FIFO keeps a queue of
 * frame indices that it rotates in place; LRU and Optimal only read.
 */
module Replacement {
  import opened Wrappers
  import opened Pages

  // ---------------------------------------------------------------- FIFO

  /** The queue after one `poll` and `add` of the polled element. */
  function Rotate(q: seq<int>): (r: seq<int>)
    requires q != []
    ensures |r| == |q| && r[|r| - 1] == q[0] && r[..|r| - 1] == q[1..]
  {
    q[1..] + [q[0]]
  }

  /** A rotation reorders the queue and neither loses nor adds a frame. */
  lemma RotateKeepsFrames(q: seq<int>)
    requires q != []
    ensures multiset(Rotate(q)) == multiset(q)
    ensures forall x :: x in Rotate(q) <==> x in q
  {
    assert q == [q[0]] + q[1..];
  }

  /** The queue after k rotations. */
  function RotateN(q: seq<int>, k: nat): seq<int>
    requires q != []
    decreases k
  {
    if k == 0 then q else RotateN(Rotate(q), k - 1)
  }

  /** The victims k successive rotations hand out, in order. */
  function Victims(q: seq<int>, k: nat): seq<int>
    requires q != []
    decreases k
  {
    if k == 0 then [] else [q[0]] + Victims(Rotate(q), k - 1)
  }

  /** k rotations, k <= |q|, move the first k queued frames behind the rest. */
  lemma {:induction false} RotateNShape(q: seq<int>, k: nat)
    requires q != [] && k <= |q|
    ensures RotateN(q, k) == q[k..] + q[..k]
    decreases k
  {
    if k > 0 {
      var r := Rotate(q);
      RotateNShape(r, k - 1);
      assert r[k - 1..] == q[k..] + [q[0]];
      assert r[..k - 1] == q[1..k];
      assert q[..k] == [q[0]] + q[1..k];
    }
  }

  /** k rotations, k <= |q|, hand out the first k queued frames, front to back. */
  lemma {:induction false} VictimsShape(q: seq<int>, k: nat)
    requires q != [] && k <= |q|
    ensures Victims(q, k) == q[..k]
    decreases k
  {
    if k > 0 {
      var r := Rotate(q);
      VictimsShape(r, k - 1);
      assert r[..k - 1] == q[1..k];
      assert q[..k] == [q[0]] + q[1..k];
    }
  }

  /** |q| replacements return every queued frame once, front to back, and leave the queue as it was. */
  lemma FullCycle(q: seq<int>)
    requires q != []
    ensures Victims(q, |q|) == q
    ensures RotateN(q, |q|) == q
  {
    RotateNShape(q, |q|);
    VictimsShape(q, |q|);
  }

  /** FIFOAlgorithm: the queue of frame indices, oldest load first. */
  class FifoQueue {
    var queue: seq<int>

    constructor ()
      ensures queue == []
    {
      queue := [];
    }

    /** `poll` then `add`: the front frame is the victim and goes to the back. */
    method ReplacePage() returns (victim: int)
      requires queue != []
      modifies this
      ensures victim == old(queue)[0]
      ensures queue == Rotate(old(queue))
    {
      victim := queue[0];
      queue := queue[1..];
      queue := queue + [victim];
    }

    method AddFrame(frameId: int)
      modifies this
      ensures queue == old(queue) + [frameId]
    {
      queue := queue + [frameId];
    }
  }

  // ----------------------------------------------------------------- LRU

  /** Frame i holds a page stamped strictly before `now`. */
  predicate StaleAt(resident: seq<Option<Page>>, now: nat, i: int)
  {
    0 <= i < |resident| && resident[i].Some? && resident[i].value.lastUsedTime < now
  }

  /**
   * The LRU choice: frame 0 when no resident page is older than `now`;
   * otherwise a resident frame whose stamp is the least of all resident
   * stamps, the first such frame in index order.
   */
  predicate IsLruChoice(resident: seq<Option<Page>>, now: nat, v: int)
  {
    if forall i :: 0 <= i < |resident| ==> !StaleAt(resident, now, i) then v == 0
    else
      && StaleAt(resident, now, v)
      && (forall i :: 0 <= i < |resident| && resident[i].Some? ==>
            resident[v].value.lastUsedTime <= resident[i].value.lastUsedTime)
      && (forall i :: 0 <= i < v && resident[i].Some? ==>
            resident[v].value.lastUsedTime < resident[i].value.lastUsedTime)
  }

  /** The LRU choice is determined by the frames and the clock. */
  lemma LruChoiceUnique(resident: seq<Option<Page>>, now: nat, v: int, w: int)
    requires IsLruChoice(resident, now, v) && IsLruChoice(resident, now, w)
    ensures v == w
  {
  }

  /**
   * The LRU scan from frame i on, given the oldest stamp `oldest` and its
   * frame `victim` found among frames 0 .. i-1; a frame replaces the
   * candidate only with a strictly older stamp.
   */
  function LruScan(resident: seq<Option<Page>>, i: nat, oldest: nat, victim: int): int
    decreases |resident| - i
  {
    if i >= |resident| then victim
    else if resident[i].Some? && resident[i].value.lastUsedTime < oldest then
      LruScan(resident, i + 1, resident[i].value.lastUsedTime, i)
    else LruScan(resident, i + 1, oldest, victim)
  }

  /**
   * The frame LRU evicts at time `now`: the scan started with stamp `now` and
   * frame 0. It is the LRU choice, and a frame index whenever there are frames.
   */
  function LruPick(resident: seq<Option<Page>>, now: nat): (v: int)
    ensures IsLruChoice(resident, now, v)
    ensures |resident| > 0 ==> 0 <= v < |resident|
  {
    LruScanChoice(resident, now, 0, now, 0);
    LruScan(resident, 0, now, 0)
  }

  /** Whatever frames 0 .. i-1 left behind, the rest of the scan ends on the LRU choice. */
  lemma {:induction false} LruScanChoice(resident: seq<Option<Page>>, now: nat, i: nat, oldest: nat, victim: int)
    requires i <= |resident| && oldest <= now
    requires oldest == now ==> victim == 0 && forall j :: 0 <= j < i ==> !StaleAt(resident, now, j)
    requires oldest < now ==> 0 <= victim < i && StaleAt(resident, now, victim) && resident[victim].value.lastUsedTime == oldest
    requires forall j :: 0 <= j < i && resident[j].Some? ==> oldest <= resident[j].value.lastUsedTime
    requires forall j :: 0 <= j < victim && resident[j].Some? ==> oldest < resident[j].value.lastUsedTime
    ensures IsLruChoice(resident, now, LruScan(resident, i, oldest, victim))
    decreases |resident| - i
  {
    if i < |resident| {
      if resident[i].Some? && resident[i].value.lastUsedTime < oldest {
        LruScanChoice(resident, now, i + 1, resident[i].value.lastUsedTime, i);
      } else {
        LruScanChoice(resident, now, i + 1, oldest, victim);
      }
    }
  }

  /** LRUAlgorithm.replacePage: one scan keeping the strictly oldest stamp seen. */
  method LruReplace(resident: seq<Option<Page>>, now: nat) returns (victim: int)
    ensures victim == LruPick(resident, now)
  {
    var oldest := now;
    victim := 0;
    var i := 0;
    while i < |resident|
      invariant 0 <= i <= |resident|
      invariant LruScan(resident, i, oldest, victim) == LruPick(resident, now)
    {
      var page := resident[i];
      if page.Some? && page.value.lastUsedTime < oldest {
        oldest := page.value.lastUsedTime;
        victim := i;
      }
      i := i + 1;
    }
  }

  // ------------------------------------------------------------- Optimal

  /** The first position after `from` where `id` is referenced, or |refs| if there is none. */
  function NextUse(refs: seq<int>, from: int, id: int): (j: int)
    requires from >= -1
    ensures from < j <= |refs| || (j == |refs| && from >= |refs|)
    ensures j < |refs| ==> refs[j] == id
    ensures forall k :: from < k < j && k < |refs| ==> refs[k] != id
    decreases |refs| - from
  {
    if from + 1 >= |refs| then |refs|
    else if refs[from + 1] == id then from + 1
    else NextUse(refs, from + 1, id)
  }

  /** Every frame holds a page, as `getCurrentPage().getPageId()` demands. */
  predicate AllResident(resident: seq<Option<Page>>)
  {
    forall i :: 0 <= i < |resident| ==> resident[i].Some?
  }

  /** When frame i's page is next referenced after position `from`. */
  function NextUseOf(resident: seq<Option<Page>>, refs: seq<int>, from: int, i: int): int
    requires AllResident(resident) && from >= -1 && 0 <= i < |resident|
  {
    NextUse(refs, from, resident[i].value.id)
  }

  /**
   * The Optimal choice: the first frame whose page is never referenced again;
   * if every page recurs, the frame referenced farthest ahead, the first such
   * frame in index order; frame 0 when there are no frames.
   */
  predicate IsOptimalChoice(resident: seq<Option<Page>>, refs: seq<int>, from: int, v: int)
    requires AllResident(resident) && from >= -1
  {
    if |resident| == 0 then v == 0
    else if exists i :: 0 <= i < |resident| && NextUseOf(resident, refs, from, i) == |refs| then
      && 0 <= v < |resident|
      && NextUseOf(resident, refs, from, v) == |refs|
      && (forall i :: 0 <= i < v ==> NextUseOf(resident, refs, from, i) < |refs|)
    else
      && 0 <= v < |resident|
      && (forall i :: 0 <= i < |resident| ==>
            NextUseOf(resident, refs, from, i) <= NextUseOf(resident, refs, from, v))
      && (forall i :: 0 <= i < v ==>
            NextUseOf(resident, refs, from, i) < NextUseOf(resident, refs, from, v))
  }

  /** The Optimal choice is determined by the frames, the trace and the position. */
  lemma OptimalChoiceUnique(resident: seq<Option<Page>>, refs: seq<int>, from: int, v: int, w: int)
    requires AllResident(resident) && from >= -1
    requires IsOptimalChoice(resident, refs, from, v) && IsOptimalChoice(resident, refs, from, w)
    ensures v == w
  {
  }

  /**
   * The Optimal scan from frame i on, given the farthest next use `farthest`
   * and its frame `victim` among frames 0 .. i-1: a frame never used again is
   * returned at once, a strictly farther next use replaces the candidate.
   */
  function OptimalScan(resident: seq<Option<Page>>, refs: seq<int>, from: int, i: nat, farthest: int, victim: int): int
    requires AllResident(resident) && from >= -1
    decreases |resident| - i
  {
    if i >= |resident| then victim
    else
      var next := NextUseOf(resident, refs, from, i);
      if next == |refs| then i
      else if next > farthest then OptimalScan(resident, refs, from, i + 1, next, i)
      else OptimalScan(resident, refs, from, i + 1, farthest, victim)
  }

  /**
   * The frame Optimal evicts after position `from`: the scan started at `from`
   * with frame 0. It is the Optimal choice, and a frame index whenever there
   * are frames.
   */
  function OptimalPick(resident: seq<Option<Page>>, refs: seq<int>, from: int): (v: int)
    requires AllResident(resident) && from >= -1
    ensures IsOptimalChoice(resident, refs, from, v)
    ensures |resident| > 0 ==> 0 <= v < |resident|
  {
    OptimalScanChoice(resident, refs, from, 0, from, 0);
    OptimalScan(resident, refs, from, 0, from, 0)
  }

  /** Whatever frames 0 .. i-1 left behind, the rest of the scan ends on the Optimal choice. */
  lemma {:induction false} OptimalScanChoice(resident: seq<Option<Page>>, refs: seq<int>, from: int,
                                             i: nat, farthest: int, victim: int)
    requires AllResident(resident) && from >= -1 && i <= |resident|
    requires forall k :: 0 <= k < i ==> NextUseOf(resident, refs, from, k) < |refs|
    requires i == 0 ==> victim == 0 && farthest == from
    requires i > 0 ==> 0 <= victim < i && farthest == NextUseOf(resident, refs, from, victim)
    requires forall k :: 0 <= k < i ==> NextUseOf(resident, refs, from, k) <= farthest
    requires forall k :: 0 <= k < victim ==> NextUseOf(resident, refs, from, k) < farthest
    ensures IsOptimalChoice(resident, refs, from, OptimalScan(resident, refs, from, i, farthest, victim))
    decreases |resident| - i
  {
    if i < |resident| {
      var next := NextUseOf(resident, refs, from, i);
      if next == |refs| {
      } else if next > farthest {
        OptimalScanChoice(resident, refs, from, i + 1, next, i);
      } else {
        OptimalScanChoice(resident, refs, from, i + 1, farthest, victim);
      }
    }
  }

  /**
   * OptimalAlgorithm.replacePage: for each frame, scan the trace after
   * `currentIndex` for its page id; return at once on a page never seen
   * again, otherwise keep the frame with the strictly farthest next use.
   */
  method OptimalReplace(resident: seq<Option<Page>>, refs: seq<int>, currentIndex: int)
      returns (victim: int)
    requires AllResident(resident) && currentIndex >= -1
    ensures victim == OptimalPick(resident, refs, currentIndex)
  {
    var farthest := currentIndex;
    victim := 0;
    var i := 0;
    while i < |resident|
      invariant 0 <= i <= |resident|
      invariant OptimalScan(resident, refs, currentIndex, i, farthest, victim) == OptimalPick(resident, refs, currentIndex)
    {
      var pageId := resident[i].value.id;
      var foundLater := false;
      var j := currentIndex + 1;
      while j < |refs|
        invariant currentIndex + 1 <= j && !foundLater
        invariant forall k :: currentIndex < k < j && k < |refs| ==> refs[k] != pageId
      {
        if refs[j] == pageId {
          foundLater := true;
          if j > farthest {
            farthest := j;
            victim := i;
          }
          break;
        }
        j := j + 1;
      }
      ghost var next := NextUseOf(resident, refs, currentIndex, i);
      if !foundLater {
        assert next == |refs|;
        return i;
      }
      assert next == j;
      i := i + 1;
    }
  }

  // ------------------------------------------------------------ dispatch

  /** `Algorithm`: which policy the manager was built with. */
  datatype Policy = Fifo(fifo: FifoQueue) | Lru | Optimal

  /**
   * `algorithm.replacePage(frames, vpnTrace, currentIndex)`; `now` is the
   * clock reading LRU compares against.
   */
  method ReplacePage(policy: Policy, resident: seq<Option<Page>>, refs: seq<int>,
                     currentIndex: int, now: nat) returns (victim: int)
    requires policy.Fifo? ==> policy.fifo.queue != []
    requires policy.Optimal? ==> AllResident(resident) && currentIndex >= -1
    modifies if policy.Fifo? then {policy.fifo} else {}
    ensures policy.Fifo? ==>
      victim == old(policy.fifo.queue)[0] && policy.fifo.queue == Rotate(old(policy.fifo.queue))
    ensures policy.Lru? ==> victim == LruPick(resident, now)
    ensures policy.Optimal? ==> victim == OptimalPick(resident, refs, currentIndex)
  {
    match policy
    case Fifo(q) => victim := q.ReplacePage();
    case Lru => victim := LruReplace(resident, now);
    case Optimal => victim := OptimalReplace(resident, refs, currentIndex);
  }
}
