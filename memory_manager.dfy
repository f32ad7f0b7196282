/**
 * The address-translation engine: one request at a time, probe the TLB, walk
 * the two-level page table on a miss, and on an invalid entry take a page
 * fault that fills the lowest free frame or evicts the frame the policy names.
 *
 * `LocalDateTime.now()` is the logical clock `clock`, advanced once at the
 * start of every request; every stamp written during a request is that tick.
 */
module MemoryManagement {
  import opened Wrappers
  import opened AddressCodec
  import opened Pages
  import opened PageTables
  import opened PageDirectories
  import opened Tlb
  import opened Replacement

  const NUM_FRAMES := 32

  /** The values `lastAccessType` takes besides `null`. */
  datatype AccessType = TlbHit | PageTableHit | PageFault

  /** The per-entry facts every step keeps: the id is the table index, and valid exactly when mapped to a frame. */
  predicate WellFormedEntry(c: Coord, p: Page, clock: nat)
  {
    && p.id == c.tab
    && -1 <= p.frameNumber < NUM_FRAMES
    && (p.valid <==> p.frameNumber >= 0)
    && p.lastUsedTime <= clock
  }

  /**
   * Every entry of `m` is well formed at tick `now`. The trigger is the
   * per-entry fact itself, so an entry's facts are produced only where that
   * entry is asked about.
   */
  ghost predicate AllWellFormed(m: imap<Coord, Page>, now: nat)
  {
    forall c: Coord {:trigger WellFormedEntry(c, m[c], now)} :: c in m ==> WellFormedEntry(c, m[c], now)
  }

  /** Writing a well-formed entry keeps every entry well formed. */
  lemma WellFormedUpdate(m: imap<Coord, Page>, c: Coord, p: Page, now: nat)
    requires AllWellFormed(m, now) && WellFormedEntry(c, p, now)
    ensures AllWellFormed(m[c := p], now)
  {
    forall d: Coord {:trigger WellFormedEntry(d, m[c := p][d], now)} | d in m[c := p] ensures WellFormedEntry(d, m[c := p][d], now) {
      if d != c {
        assert WellFormedEntry(d, m[d], now);
      }
    }
  }

  /** Stamps never exceed the clock, so a later tick keeps every entry well formed. */
  lemma WellFormedLater(m: imap<Coord, Page>, now: nat, later: nat)
    requires AllWellFormed(m, now) && now <= later
    ensures AllWellFormed(m, later)
  {
    forall c: Coord {:trigger WellFormedEntry(c, m[c], later)} | c in m ensures WellFormedEntry(c, m[c], later) {
      assert WellFormedEntry(c, m[c], now);
    }
  }

  /** `computeVpn` applied to each address, in order: what `setAddressTrace` stores as the VPN trace. */
  function Vpns(addresses: seq<Address>): seq<int>
  {
    if addresses == [] then [] else Vpns(addresses[..|addresses| - 1]) + [ComputeVpn(addresses[|addresses| - 1])]
  }

  /** The VPN trace lines up with the address trace, entry by entry. */
  lemma {:induction false} VpnsPointwise(addresses: seq<Address>)
    ensures |Vpns(addresses)| == |addresses|
    ensures forall k :: 0 <= k < |addresses| ==> Vpns(addresses)[k] == ComputeVpn(addresses[k]) < ENTRIES * ENTRIES
  {
    if addresses != [] {
      var init := addresses[..|addresses| - 1];
      VpnsPointwise(init);
      assert forall k :: 0 <= k < |init| ==> init[k] == addresses[k];
    }
  }

  /**
   * The entry `invalidateVictimMapping` reaches from a victim page id read as
   * a VPN. Page ids are table indices, so this is always in directory 0.
   */
  function VictimCoord(victimVpn: nat): (c: Coord)
    ensures c.dir * ENTRIES + c.tab == victimVpn % (ENTRIES * ENTRIES)
    ensures victimVpn < ENTRIES ==> c == Coord(0, victimVpn)
  {
    Coord((victimVpn / ENTRIES) % ENTRIES, victimVpn % ENTRIES)
  }

  /** The entries after the page at `c` is mapped to frame `f` and stamped `now`. */
  ghost function Loaded(m: imap<Coord, Page>, c: Coord, f: int, now: nat): imap<Coord, Page>
    requires c in m
  {
    m[c := m[c].(valid := true, frameNumber := f, lastUsedTime := now)]
  }

  /** The entries after the page at `c` is unmapped; its dirty bit and stamp stay. */
  ghost function Unmapped(m: imap<Coord, Page>, c: Coord): imap<Coord, Page>
    requires c in m
  {
    m[c := m[c].(valid := false, frameNumber := -1)]
  }

  /** The entries after the page at `held`, if any, is stamped `now`. */
  ghost function Stamped(m: imap<Coord, Page>, held: Option<Coord>, now: nat): imap<Coord, Page>
    requires held.Some? ==> held.value in m
  {
    match held
    case None => m
    case Some(c) => m[c := m[c].(lastUsedTime := now)]
  }

  /** The entries after a write request marks the page at `c` dirty; a read changes nothing. */
  ghost function Dirtied(m: imap<Coord, Page>, c: Coord, isWrite: bool): imap<Coord, Page>
    requires c in m
  {
    if isWrite then m[c := m[c].(dirty := true)] else m
  }

  /** The entries after `PageTable.reset` on table `dir`: every entry there is cleared. */
  ghost function ClearedTable(m: imap<Coord, Page>, dir: int): imap<Coord, Page>
  {
    imap c | c in m :: if c.dir == dir then Cleared(m[c]) else m[c]
  }

  /** The entries after `PageTable.reset` on tables 0 .. n-1. */
  ghost function ClearedBelow(m: imap<Coord, Page>, n: int): imap<Coord, Page>
  {
    imap c | c in m :: if c.dir < n then Cleared(m[c]) else m[c]
  }

  /** Resetting one more table extends the cleared prefix by that table. */
  lemma ClearedBelowStep(m: imap<Coord, Page>, n: int)
    ensures ClearedTable(ClearedBelow(m, n), n) == ClearedBelow(m, n + 1)
  {
    assert forall c :: c in ClearedTable(ClearedBelow(m, n), n) <==> c in ClearedBelow(m, n + 1);
  }

  /** A reset entry is unmapped and keeps its id and stamp, so it stays well formed. */
  lemma WellFormedCleared(m: imap<Coord, Page>, dir: int, now: nat)
    requires AllWellFormed(m, now)
    ensures AllWellFormed(ClearedTable(m, dir), now)
  {
    var r := ClearedTable(m, dir);
    forall c: Coord {:trigger WellFormedEntry(c, r[c], now)} | c in r ensures WellFormedEntry(c, r[c], now) {
      assert WellFormedEntry(c, m[c], now);
    }
  }

  /**
   * The TLB agrees with the page table: every cached VPN names a valid entry
   * mapped to the cached frame.
   */
  ghost predicate Coherent(entries: seq<Entry>, m: imap<Coord, Page>)
  {
    forall e :: e in entries ==>
      && 0 <= e.vpn < ENTRIES * ENTRIES && VpnCoord(e.vpn) in m
      && m[VpnCoord(e.vpn)].valid && m[VpnCoord(e.vpn)].frameNumber == e.frame
  }

  /** A TLB hit promotes a cached entry and only stamps and dirties pages, so agreement survives. */
  lemma CoherentAfterTlbHit(entries: seq<Entry>, m: imap<Coord, Page>, vpn: int, c: Coord, isWrite: bool,
                            held: Option<Coord>, now: nat)
    requires DistinctKeys(entries) && HasKey(entries, vpn) && Coherent(entries, m)
    requires c in m && (held.Some? ==> held.value in m)
    ensures Coherent(Touch(entries, vpn), Stamped(Dirtied(m, c, isWrite), held, now))
  {
    TouchKeepsMappings(entries, vpn);
    var t, r := Touch(entries, vpn), Stamped(Dirtied(m, c, isWrite), held, now);
    forall e | e in t
      ensures 0 <= e.vpn < ENTRIES * ENTRIES && VpnCoord(e.vpn) in r
      ensures r[VpnCoord(e.vpn)].valid && r[VpnCoord(e.vpn)].frameNumber == e.frame
    {
      assert e in multiset(t);
      assert e in entries;
      var d := VpnCoord(e.vpn);
      assert r[d].valid == m[d].valid && r[d].frameNumber == m[d].frameNumber;
    }
  }

  /** A page-table hit caches the entry's own frame, so agreement survives. */
  lemma CoherentAfterTableHit(entries: seq<Entry>, m: imap<Coord, Page>, vpn: Vpn, isWrite: bool,
                              held: Option<Coord>, now: nat)
    requires DistinctKeys(entries) && |entries| <= MAX_ENTRIES && Coherent(entries, m)
    requires VpnCoord(vpn) in m && m[VpnCoord(vpn)].valid && (held.Some? ==> held.value in m)
    ensures var c := VpnCoord(vpn);
      Coherent(Put(entries, vpn, m[c].frameNumber), Dirtied(Stamped(m, held, now), c, isWrite))
  {
    PutSpec(entries, vpn, m[VpnCoord(vpn)].frameNumber);
  }

  /** Loading an unmapped page into a free frame maps and caches it alike, so agreement survives. */
  lemma CoherentAfterLoad(entries: seq<Entry>, m: imap<Coord, Page>, vpn: Vpn, f: int, now: nat, isWrite: bool)
    requires DistinctKeys(entries) && |entries| <= MAX_ENTRIES && Coherent(entries, m)
    requires VpnCoord(vpn) in m && !m[VpnCoord(vpn)].valid
    ensures var c := VpnCoord(vpn);
      Coherent(Put(entries, vpn, f), Dirtied(Loaded(m, c, f, now), c, isWrite))
  {
    PutSpec(entries, vpn, f);
  }

  /**
   * An eviction invalidates the entry (0, id) and drops VPN id from the TLB,
   * the same page, so agreement survives even when that is not the page the
   * frame held.
   */
  lemma CoherentAfterEviction(entries: seq<Entry>, m: imap<Coord, Page>, vpn: Vpn, f: int, now: nat,
                              isWrite: bool, victimId: nat)
    requires DistinctKeys(entries) && |entries| <= MAX_ENTRIES && Coherent(entries, m)
    requires VpnCoord(vpn) in m && !m[VpnCoord(vpn)].valid
    requires victimId < ENTRIES && VictimCoord(victimId) in m
    ensures var c := VpnCoord(vpn);
      Coherent(Put(Without(entries, victimId), vpn, f), Dirtied(Loaded(Unmapped(m, VictimCoord(victimId)), c, f, now), c, isWrite))
  {
    WithoutDistinct(entries, victimId);
    WithoutMembers(entries, victimId);
    PutSpec(Without(entries, victimId), vpn, f);
  }

  /** Marking a page dirty touches neither validity nor frame numbers, so agreement survives. */
  lemma CoherentDirtied(entries: seq<Entry>, m: imap<Coord, Page>, c: Coord, isWrite: bool)
    requires Coherent(entries, m) && c in m
    ensures Coherent(entries, Dirtied(m, c, isWrite))
  {
  }

  /** The fault rate as a percentage; no requests means rate 0. */
  function FaultRate(requests: nat, faults: nat): (r: real)
    ensures requests == 0 ==> r == 0.0
    ensures requests > 0 ==> r * requests as real == faults as real * 100.0
    ensures faults <= requests ==> 0.0 <= r <= 100.0
  {
    if requests == 0 then 0.0
    else
      var q := faults as real * 100.0 / requests as real;
      assert q * requests as real == faults as real * 100.0;
      q
  }

  class MemoryManager {
    const directory: PageDirectory
    const tlb: TLB
    /** Frame i has id i; the list itself never changes, only what each frame holds. */
    const frames: seq<Frame>
    const policy: Policy

    var addressTrace: seq<Address>
    var vpnTrace: seq<int>
    var totalRequests: nat
    var totalFaults: nat
    var lastEvictedFrame: Option<int>
    var lastVictimVpn: Option<int>
    var lastAccessType: Option<AccessType>
    /** Ticks of the logical clock standing in for the wall clock. */
    var clock: nat

    ghost function FrameSet(): set<Frame>
    {
      set f | f in frames
    }

    /** What each frame holds, by frame index. */
    ghost function Holdings(): (h: seq<Option<Coord>>)
      reads FrameSet()
      ensures |h| == |frames| && forall i :: 0 <= i < |frames| ==> h[i] == frames[i].currentPage
    {
      seq(|frames|, i requires 0 <= i < |frames| reads FrameSet() => frames[i].currentPage)
    }

    /** The FIFO queue object, when the policy keeps one. */
    ghost function FifoSet(): set<FifoQueue>
    {
      if policy.Fifo? then {policy.fifo} else {}
    }

    /** FIFO's queue names only real frames, and every occupied frame is queued. */
    ghost predicate QueueCovers()
      reads FrameSet(), FifoSet()
      requires policy.Fifo? && |frames| == NUM_FRAMES
    {
      && (forall x :: x in policy.fifo.queue ==> 0 <= x < NUM_FRAMES)
      && (forall i :: 0 <= i < NUM_FRAMES && frames[i].currentPage.Some? ==> i in policy.fifo.queue)
    }

    /** Frame i has id i, so the frames are distinct objects. */
    ghost predicate FramesOk()
    {
      && |frames| == NUM_FRAMES
      && (forall i :: 0 <= i < NUM_FRAMES ==> frames[i].id == i)
    }

    /** Every entry of the directory is well formed for the current tick. */
    ghost predicate EntriesOk(now: nat)
      reads directory, directory.tables, directory.Repr
    {
      directory.Valid() && AllWellFormed(directory.ptes, now)
    }

    /** The TLB is a map of at most 16 entries from 20-bit VPNs to frame indices. */
    ghost predicate TlbOk()
      reads tlb
    {
      && tlb.Valid()
      && forall e :: e in tlb.entries ==> 0 <= e.frame < NUM_FRAMES && 0 <= e.vpn < ENTRIES * ENTRIES
    }

    /** The invariant of the directory, TLB, frames and queue at tick `now`; it does not read the manager's own fields. */
    ghost predicate StoreOk(now: nat)
      reads tlb, FrameSet(), FifoSet(), directory, directory.tables, directory.Repr
    {
      && FramesOk()
      && EntriesOk(now)
      && TlbOk()
      && (policy.Fifo? ==> QueueCovers())
    }

    /** Writes to the manager's own fields leave the store invariant alone. */
    twostate lemma StoreOkFramed(now: nat)
      requires old(StoreOk(now))
      requires unchanged(tlb, directory, directory.tables) && unchanged(directory.Repr) && unchanged(FrameSet()) && unchanged(FifoSet())
      ensures StoreOk(now)
    {
    }

    /** The store invariant at one tick holds at every later tick. */
    lemma StoreOkLater(now: nat, later: nat)
      requires StoreOk(now) && now <= later
      ensures StoreOk(later)
    {
      WellFormedLater(directory.ptes, now, later);
    }

    ghost predicate Valid()
      reads this, tlb, FrameSet(), FifoSet(), directory, directory.tables, directory.Repr
    {
      StoreOk(clock) && totalFaults <= totalRequests
    }

    /** The entry frame i holds, read through the frame as the policies do. */
    function FramePage(i: int): (r: Option<Page>)
      reads FrameSet(), directory, directory.tables, directory.Repr
      requires FramesOk() && directory.Valid() && 0 <= i < NUM_FRAMES
      ensures frames[i].currentPage.None? ==> r == None
      ensures frames[i].currentPage.Some? ==> r == Some(directory.ptes[frames[i].currentPage.value])
    {
      match frames[i].currentPage
      case None => None
      case Some(c) => Some(directory.Pte(c))
    }

    /** What frames 0 .. n-1 hold: the `frames` list as the policies see it. */
    function ResidentUpTo(n: nat): (r: seq<Option<Page>>)
      reads FrameSet(), directory, directory.tables, directory.Repr
      requires FramesOk() && directory.Valid() && n <= NUM_FRAMES
      ensures |r| == n
    {
      if n == 0 then [] else ResidentUpTo(n - 1) + [FramePage(n - 1)]
    }

    /** What every frame holds. */
    function Resident(): (r: seq<Option<Page>>)
      reads FrameSet(), directory, directory.tables, directory.Repr
      requires FramesOk() && directory.Valid()
      ensures |r| == NUM_FRAMES
    {
      ResidentUpTo(|frames|)
    }

    /** Slot i of `ResidentUpTo(n)` is what frame i holds. */
    lemma {:induction false} ResidentUpToAt(n: nat)
      requires FramesOk() && directory.Valid() && n <= NUM_FRAMES
      ensures forall i :: 0 <= i < n ==> ResidentUpTo(n)[i] == FramePage(i)
    {
      if n > 0 {
        ResidentUpToAt(n - 1);
      }
    }

    constructor (policy: Policy)
      requires policy.Fifo? ==> forall x :: x in policy.fifo.queue ==> 0 <= x < NUM_FRAMES
      ensures Valid() && this.policy == policy
      ensures addressTrace == [] && vpnTrace == [] && clock == 0
      ensures totalRequests == 0 && totalFaults == 0 && tlb.entries == []
      ensures lastEvictedFrame == None && lastVictimVpn == None && lastAccessType == None
      ensures forall i :: 0 <= i < NUM_FRAMES ==> frames[i].currentPage == None
      ensures forall c: Coord :: directory.ptes[c] == NewPage(c.tab, 0)
      ensures fresh(directory) && fresh(directory.Repr) && fresh(tlb) && fresh(FrameSet())
      ensures Coherent(tlb.entries, directory.ptes)
    {
      var fs: seq<Frame> := [];
      while |fs| < NUM_FRAMES
        invariant |fs| <= NUM_FRAMES
        invariant forall i :: 0 <= i < |fs| ==> fs[i].id == i && fs[i].currentPage == None && fresh(fs[i])
        invariant forall i, j :: 0 <= i < j < |fs| ==> fs[i] != fs[j]
      {
        var f := new Frame(|fs|);
        fs := fs + [f];
      }
      directory := new PageDirectory(0);
      tlb := new TLB();
      frames := fs;
      this.policy := policy;
      addressTrace := [];
      vpnTrace := [];
      totalRequests := 0;
      totalFaults := 0;
      lastEvictedFrame := None;
      lastVictimVpn := None;
      lastAccessType := None;
      clock := 0;
    }

    function GetFaultRate(): (r: real)
      reads this
      ensures totalRequests == 0 ==> r == 0.0
      ensures totalRequests > 0 ==> r * totalRequests as real == totalFaults as real * 100.0
      ensures totalFaults <= totalRequests ==> 0.0 <= r <= 100.0
    {
      FaultRate(totalRequests, totalFaults)
    }

    /** The lowest-indexed empty frame's id, or -1 when every frame is occupied. */
    method FindFreeFrame() returns (r: int)
      requires |frames| == NUM_FRAMES && forall i :: 0 <= i < NUM_FRAMES ==> frames[i].id == i
      ensures r == -1 ==> forall i :: 0 <= i < NUM_FRAMES ==> frames[i].currentPage.Some?
      ensures r != -1 ==> 0 <= r < NUM_FRAMES && frames[r].currentPage == None
      ensures r != -1 ==> forall i :: 0 <= i < r ==> frames[i].currentPage.Some?
    {
      for i := 0 to |frames|
        invariant forall k :: 0 <= k < i ==> frames[k].currentPage.Some?
      {
        if frames[i].currentPage == None {
          return frames[i].id;
        }
      }
      return -1;
    }

    /** Stamp the page frame `frameNum` holds, if any, with the current tick. */
    method UpdateLastUsedPage(frameNum: int)
      requires StoreOk(clock) && 0 <= frameNum < NUM_FRAMES
      modifies directory, directory.Repr
      ensures StoreOk(clock)
      ensures directory.ptes == Stamped(old(directory.ptes), frames[frameNum].currentPage, clock)
    {
      var f := frames[frameNum];
      if f.currentPage.Some? {
        var c := f.currentPage.value;
        var p := directory.Pte(c).(lastUsedTime := clock);
        assert WellFormedEntry(c, directory.ptes[c], clock);
        WellFormedUpdate(directory.ptes, c, p, clock);
        directory.SetPte(c, p);
      }
    }

    /**
     * Invalidate the entry a victim page id names, read as a VPN (directory
     * `vpn >>> 10`, table `vpn & 0x3FF`), and drop that VPN from the TLB. A
     * negative id (no victim page) does nothing.
     */
    method InvalidateVictimMapping(victimVpn: int)
      requires StoreOk(clock)
      modifies directory, directory.Repr, tlb
      ensures StoreOk(clock)
      ensures victimVpn < 0 ==> tlb.entries == old(tlb.entries) && directory.ptes == old(directory.ptes)
      ensures victimVpn >= 0 ==>
        && directory.ptes == Unmapped(old(directory.ptes), VictimCoord(victimVpn))
        && tlb.entries == Without(old(tlb.entries), victimVpn)
    {
      if victimVpn < 0 {
        return;
      }
      var v := VictimCoord(victimVpn);
      var p := directory.Pte(v).(valid := false, frameNumber := -1);
      assert WellFormedEntry(v, directory.ptes[v], clock);
      WellFormedUpdate(directory.ptes, v, p, clock);
      directory.SetPte(v, p);
      WithoutMembers(tlb.entries, victimVpn);
      tlb.Remove(victimVpn);
    }

    /** Mark the entry at `c` valid, mapped to `frameIndex` and used now. */
    method MapEntry(c: Coord, frameIndex: int)
      requires StoreOk(clock) && 0 <= frameIndex < NUM_FRAMES
      modifies directory, directory.Repr
      ensures StoreOk(clock)
      ensures directory.ptes == Loaded(old(directory.ptes), c, frameIndex, clock)
    {
      var p := directory.Pte(c).(valid := true, frameNumber := frameIndex, lastUsedTime := clock);
      assert WellFormedEntry(c, directory.ptes[c], clock);
      WellFormedUpdate(directory.ptes, c, p, clock);
      directory.SetPte(c, p);
    }

    /** `tlb.update(vpn, frameIndex)`. */
    method CacheTranslation(vpn: int, frameIndex: int)
      requires StoreOk(clock) && 0 <= vpn < ENTRIES * ENTRIES && 0 <= frameIndex < NUM_FRAMES
      modifies tlb
      ensures StoreOk(clock)
      ensures tlb.entries == Put(old(tlb.entries), vpn, frameIndex)
      ensures Find(tlb.entries, vpn) == Some(frameIndex)
    {
      PutSpec(tlb.entries, vpn, frameIndex);
      tlb.Update(vpn, frameIndex);
    }

    /**
     * Put the entry at `c` in frame `frameIndex`; a load into a free frame
     * also queues the frame for FIFO, an eviction reuses its queue slot.
     */
    method OccupyFrame(frameIndex: int, c: Coord, evict: bool)
      requires StoreOk(clock) && 0 <= frameIndex < NUM_FRAMES
      requires evict ==> frames[frameIndex].currentPage.Some?
      modifies frames[frameIndex], FifoSet()
      ensures StoreOk(clock)
      ensures frames[frameIndex].currentPage == Some(c)
      ensures forall i :: 0 <= i < NUM_FRAMES && i != frameIndex ==> frames[i].currentPage == old(frames[i].currentPage)
      ensures policy.Fifo? ==>
        policy.fifo.queue == if evict then old(policy.fifo.queue) else old(policy.fifo.queue) + [frameIndex]
    {
      frames[frameIndex].SetCurrentPage(Some(c));
      if !evict && policy.Fifo? {
        policy.fifo.AddFrame(frameIndex);
      }
    }

    /**
     * Map the entry at (dirIndex, tableIndex) to `frameIndex`, stamp it, put it
     * in the frame and in the TLB; a load into a free frame (not an eviction)
     * also queues the frame for FIFO.
     */
    method LoadPageIntoFrame(dirIndex: Index, tableIndex: Index, vpn: int, frameIndex: int, evict: bool)
      requires StoreOk(clock) && 0 <= vpn < ENTRIES * ENTRIES && 0 <= frameIndex < NUM_FRAMES
      requires evict ==> frames[frameIndex].currentPage.Some?
      modifies directory, directory.Repr, FrameSet(), tlb, FifoSet()
      ensures StoreOk(clock)
      ensures directory.ptes == Loaded(old(directory.ptes), Coord(dirIndex, tableIndex), frameIndex, clock)
      ensures frames[frameIndex].currentPage == Some(Coord(dirIndex, tableIndex))
      ensures forall i :: 0 <= i < NUM_FRAMES && i != frameIndex ==> frames[i].currentPage == old(frames[i].currentPage)
      ensures tlb.entries == Put(old(tlb.entries), vpn, frameIndex)
      ensures Find(tlb.entries, vpn) == Some(frameIndex)
      ensures policy.Fifo? ==>
        policy.fifo.queue == if evict then old(policy.fifo.queue) else old(policy.fifo.queue) + [frameIndex]
    {
      var c := Coord(dirIndex, tableIndex);
      OccupyFrame(frameIndex, c, evict);
      CacheTranslation(vpn, frameIndex);
      MapEntry(c, frameIndex);
    }

    /**
     * `algorithm.replacePage(frames, vpnTrace, currentIndex)` asked with every
     * frame occupied; LRU's "now" is the current tick.
     */
    method ChooseVictim(currentIndex: int) returns (v: int)
      requires StoreOk(clock) && currentIndex >= -1
      requires forall i :: 0 <= i < NUM_FRAMES ==> frames[i].currentPage.Some?
      modifies FifoSet()
      ensures StoreOk(clock)
      ensures 0 <= v < NUM_FRAMES
      ensures policy.Fifo? ==>
        old(policy.fifo.queue) != [] && v == old(policy.fifo.queue)[0] && policy.fifo.queue == Rotate(old(policy.fifo.queue))
      ensures AllResident(old(Resident()))
      ensures policy.Lru? ==> v == LruPick(old(Resident()), clock)
      ensures policy.Optimal? ==> v == OptimalPick(old(Resident()), vpnTrace, currentIndex)
    {
      var resident := Resident();
      ResidentUpToAt(|frames|);
      assert AllResident(resident);
      assert policy.Fifo? ==> 0 in policy.fifo.queue;
      ghost var queue := if policy.Fifo? then policy.fifo.queue else [];
      v := ReplacePage(policy, resident, vpnTrace, currentIndex, clock);
      if policy.Fifo? {
        assert v == queue[0] && v in queue;
        RotateKeepsFrames(queue);
      }
    }

    /**
     * Drop the victim mapping named by `victimId` and load the request into
     * the occupied frame `v`.
     */
    method ReplaceInFrame(dirIndex: Index, tableIndex: Index, vpn: int, v: int, victimId: nat)
      requires StoreOk(clock) && 0 <= vpn < ENTRIES * ENTRIES && 0 <= v < NUM_FRAMES
      requires frames[v].currentPage.Some?
      modifies directory, directory.Repr, FrameSet(), tlb, FifoSet()
      ensures StoreOk(clock)
      ensures directory.ptes == Loaded(Unmapped(old(directory.ptes), VictimCoord(victimId)), Coord(dirIndex, tableIndex), v, clock)
      ensures tlb.entries == Put(Without(old(tlb.entries), victimId), vpn, v)
      ensures Find(tlb.entries, vpn) == Some(v)
      ensures frames[v].currentPage == Some(Coord(dirIndex, tableIndex))
      ensures forall i :: 0 <= i < NUM_FRAMES && i != v ==> frames[i].currentPage == old(frames[i].currentPage)
      ensures policy.Fifo? ==> policy.fifo.queue == old(policy.fifo.queue)
    {
      InvalidateVictimMapping(victimId);
      LoadPageIntoFrame(dirIndex, tableIndex, vpn, v, true);
    }

    /**
     * The eviction half of `handlePageFault`, entered with every frame
     * occupied: the policy picks frame v out of `resident`, what the frames
     * held on entry; the entry named by the id of v's page is invalidated and
     * dropped from the TLB, and the request is loaded into v.
     */
    method EvictInto(dirIndex: Index, tableIndex: Index, vpn: int, currentIndex: int)
        returns (v: int, victimId: nat, ghost resident: seq<Option<Page>>)
      requires StoreOk(clock) && 0 <= vpn < ENTRIES * ENTRIES && currentIndex >= -1
      requires forall i :: 0 <= i < NUM_FRAMES ==> frames[i].currentPage.Some?
      modifies directory, directory.Repr, FrameSet(), tlb, FifoSet()
      ensures StoreOk(clock)
      ensures resident == old(Resident()) && AllResident(resident)
      ensures 0 <= v < NUM_FRAMES && victimId == old(frames[v].currentPage).value.tab
      ensures policy.Fifo? ==>
        old(policy.fifo.queue) != [] && v == old(policy.fifo.queue)[0] && policy.fifo.queue == Rotate(old(policy.fifo.queue))
      ensures policy.Lru? ==> v == LruPick(resident, clock)
      ensures policy.Optimal? ==> v == OptimalPick(resident, vpnTrace, currentIndex)
      ensures directory.ptes == Loaded(Unmapped(old(directory.ptes), VictimCoord(victimId)), Coord(dirIndex, tableIndex), v, clock)
      ensures tlb.entries == Put(Without(old(tlb.entries), victimId), vpn, v)
      ensures Find(tlb.entries, vpn) == Some(v)
      ensures frames[v].currentPage == Some(Coord(dirIndex, tableIndex))
      ensures forall i :: 0 <= i < NUM_FRAMES && i != v ==> frames[i].currentPage == old(frames[i].currentPage)
    {
      resident := Resident();
      v := ChooseVictim(currentIndex);
      var c := frames[v].currentPage.value;
      assert WellFormedEntry(c, directory.ptes[c], clock);
      victimId := directory.Pte(c).id;
      ReplaceInFrame(dirIndex, tableIndex, vpn, v, victimId);
    }

    /**
     * The store half of `handlePageFault`: load the request into the lowest
     * free frame, or, when every frame is occupied, into the frame the policy
     * evicts; `victim` is the id of the page that frame held.
     */
    method ServeFault(dirIndex: Index, tableIndex: Index, vpn: int, currentIndex: int, free: int)
        returns (f: int, victim: Option<nat>, ghost resident: seq<Option<Page>>)
      requires StoreOk(clock) && 0 <= vpn < ENTRIES * ENTRIES && currentIndex >= -1
      requires free == -1 ==> forall i :: 0 <= i < NUM_FRAMES ==> frames[i].currentPage.Some?
      requires free != -1 ==> 0 <= free < NUM_FRAMES && frames[free].currentPage == None
      requires free != -1 ==> forall i :: 0 <= i < free ==> frames[i].currentPage.Some?
      modifies directory, directory.Repr, FrameSet(), tlb, FifoSet()
      ensures StoreOk(clock)
      ensures 0 <= f < NUM_FRAMES
      ensures frames[f].currentPage == Some(Coord(dirIndex, tableIndex))
      ensures forall i :: 0 <= i < NUM_FRAMES && i != f ==> frames[i].currentPage == old(frames[i].currentPage)
      ensures directory.ptes[Coord(dirIndex, tableIndex)] ==
        old(directory.ptes[Coord(dirIndex, tableIndex)]).(valid := true, frameNumber := f, lastUsedTime := clock)
      ensures Find(tlb.entries, vpn) == Some(f)
      ensures victim.None? ==>
        && old(frames[f].currentPage) == None
        && (forall i :: 0 <= i < f ==> old(frames[i].currentPage).Some?)
        && directory.ptes == Loaded(old(directory.ptes), Coord(dirIndex, tableIndex), f, clock)
        && tlb.entries == Put(old(tlb.entries), vpn, f)
        && (policy.Fifo? ==> policy.fifo.queue == old(policy.fifo.queue) + [f])
      ensures victim.Some? ==>
        && (forall i :: 0 <= i < NUM_FRAMES ==> old(frames[i].currentPage).Some?)
        && victim == Some(old(frames[f].currentPage).value.tab)
        && resident == old(Resident()) && AllResident(resident)
        && (policy.Fifo? ==> f == old(policy.fifo.queue)[0] && policy.fifo.queue == Rotate(old(policy.fifo.queue)))
        && (policy.Lru? ==> f == LruPick(resident, clock))
        && (policy.Optimal? ==> f == OptimalPick(resident, vpnTrace, currentIndex))
        && directory.ptes == Loaded(Unmapped(old(directory.ptes), VictimCoord(victim.value)), Coord(dirIndex, tableIndex), f, clock)
        && tlb.entries == Put(Without(old(tlb.entries), victim.value), vpn, f)
    {
      if free != -1 {
        LoadPageIntoFrame(dirIndex, tableIndex, vpn, free, false);
        f, victim, resident := free, None, [];
      } else {
        var victimId;
        f, victimId, resident := EvictInto(dirIndex, tableIndex, vpn, currentIndex);
        victim := Some(victimId);
      }
    }

    /** The bookkeeping of a fault: counted, and the evicted frame and victim id remembered. */
    method RecordFault(f: int, victim: Option<nat>)
      requires Valid() && totalFaults < totalRequests
      modifies this
      ensures Valid()
      ensures totalFaults == old(totalFaults) + 1 && totalRequests == old(totalRequests) && clock == old(clock)
      ensures addressTrace == old(addressTrace) && vpnTrace == old(vpnTrace) && lastAccessType == old(lastAccessType)
      ensures lastEvictedFrame == (if victim.Some? then Some(f) else None)
      ensures lastVictimVpn == (if victim.Some? then Some(victim.value as int) else None)
    {
      label Before:
      totalFaults := totalFaults + 1;
      lastEvictedFrame := if victim.Some? then Some(f) else None;
      lastVictimVpn := if victim.Some? then Some(victim.value) else None;
      StoreOkFramed@Before(clock);
    }

    /**
     * `handlePageFault`: count the fault and serve it. A load into a free
     * frame leaves the eviction record `null`; an eviction records the frame
     * and the id of the page it held. Either way the request's entry ends up
     * valid, mapped to f and stamped now, f holds it and the TLB maps the VPN
     * to f.
     */
    method HandlePageFault(dirIndex: Index, tableIndex: Index, vpn: int, currentIndex: int)
        returns (f: int, ghost victim: Option<nat>)
      requires Valid() && totalFaults < totalRequests && 0 <= vpn < ENTRIES * ENTRIES && currentIndex >= -1
      requires VpnCoord(vpn) == Coord(dirIndex, tableIndex) && !directory.ptes[Coord(dirIndex, tableIndex)].valid
      requires Coherent(tlb.entries, directory.ptes)
      modifies this, directory, directory.Repr, FrameSet(), tlb, FifoSet()
      ensures Valid() && Coherent(tlb.entries, directory.ptes)
      ensures totalFaults == old(totalFaults) + 1 && totalRequests == old(totalRequests) && clock == old(clock)
      ensures addressTrace == old(addressTrace) && vpnTrace == old(vpnTrace) && lastAccessType == old(lastAccessType)
      ensures 0 <= f < NUM_FRAMES && Holdings() == old(Holdings())[f := Some(Coord(dirIndex, tableIndex))]
      ensures directory.ptes[Coord(dirIndex, tableIndex)] ==
        old(directory.ptes[Coord(dirIndex, tableIndex)]).(valid := true, frameNumber := f, lastUsedTime := clock)
      ensures Find(tlb.entries, vpn) == Some(f)
      ensures victim == None ==>
        && lastEvictedFrame == None && lastVictimVpn == None && old(Holdings())[f] == None
        && (forall i :: 0 <= i < f ==> old(Holdings())[i].Some?)
        && (policy.Fifo? ==> policy.fifo.queue == old(policy.fifo.queue) + [f])
      ensures victim != None ==>
        && (forall i :: 0 <= i < NUM_FRAMES ==> old(Holdings())[i].Some?)
        && lastEvictedFrame == Some(f)
        && lastVictimVpn == victim == Some(old(Holdings())[f].value.tab)
        && (policy.Fifo? ==>
              old(policy.fifo.queue) != [] && f == old(policy.fifo.queue)[0] && policy.fifo.queue == Rotate(old(policy.fifo.queue)))
        && (policy.Lru? ==> f == LruPick(old(Resident()), clock))
        && (policy.Optimal? ==> AllResident(old(Resident())) && f == OptimalPick(old(Resident()), vpnTrace, currentIndex))
    {
      var held;
      ghost var resident;
      ghost var before, holdings := Resident(), Holdings();
      ghost var m0, t0 := directory.ptes, tlb.entries;
      var free := FindFreeFrame();
      assert Resident() == before && Holdings() == holdings;
      f, held, resident := ServeFault(dirIndex, tableIndex, vpn, currentIndex, free);
      assert held.Some? ==> resident == before;
      assert Holdings() == holdings[f := Some(Coord(dirIndex, tableIndex))];
      if held.None? {
        CoherentAfterLoad(t0, m0, vpn, f, clock, false);
      } else {
        CoherentAfterEviction(t0, m0, vpn, f, clock, false, held.value);
      }
      victim := held;
      RecordFault(f, held);
    }

    /** `pte.setDirty(true)` on the entry at `c` for a write request; a read changes nothing. */
    method MarkDirty(c: Coord, isWrite: bool)
      requires StoreOk(clock)
      modifies directory, directory.Repr
      ensures StoreOk(clock)
      ensures directory.ptes == Dirtied(old(directory.ptes), c, isWrite)
      ensures directory.ptes[c].dirty == (old(directory.ptes[c].dirty) || isWrite)
    {
      if isWrite {
        var p := directory.Pte(c).(dirty := true);
        assert WellFormedEntry(c, directory.ptes[c], clock);
        WellFormedUpdate(directory.ptes, c, p, clock);
        directory.SetPte(c, p);
      }
    }

    /** `tlb.lookup(vpn)`: a hit promotes the entry and yields a real frame, a miss changes nothing. */
    method ProbeTlb(vpn: int) returns (r: Option<int>)
      requires StoreOk(clock)
      modifies tlb
      ensures StoreOk(clock)
      ensures r == Find(old(tlb.entries), vpn)
      ensures r.Some? ==> 0 <= r.value < NUM_FRAMES && tlb.entries == Touch(old(tlb.entries), vpn)
      ensures r.None? ==> tlb.entries == old(tlb.entries)
      ensures Holdings() == old(Holdings()) && (policy.Fifo? ==> policy.fifo.queue == old(policy.fifo.queue))
    {
      r := tlb.Lookup(vpn);
      if r.Some? {
        TouchKeepsMappings(old(tlb.entries), vpn);
        forall e | e in tlb.entries
          ensures 0 <= e.frame < NUM_FRAMES && 0 <= e.vpn < ENTRIES * ENTRIES
        {
          assert e in multiset(old(tlb.entries));
        }
      }
    }

    /** The TLB-hit path: mark the request's entry dirty on a write, then stamp the page held by the frame the TLB named. */
    method ServeTlbHit(c: Coord, frame: int, isWrite: bool)
      requires StoreOk(clock) && 0 <= frame < NUM_FRAMES
      modifies directory, directory.Repr
      ensures StoreOk(clock)
      ensures directory.ptes == Stamped(Dirtied(old(directory.ptes), c, isWrite), frames[frame].currentPage, clock)
      ensures directory.ptes[c].dirty == (old(directory.ptes[c].dirty) || isWrite)
    {
      MarkDirty(c, isWrite);
      UpdateLastUsedPage(frame);
    }

    /**
     * The page-table-hit path: cache the translation the valid entry holds,
     * stamp the page held by that frame, and mark the entry dirty on a write.
     */
    method ServeTableHit(c: Coord, vpn: int, isWrite: bool) returns (f: int)
      requires StoreOk(clock) && 0 <= vpn < ENTRIES * ENTRIES && directory.ptes[c].valid
      modifies directory, directory.Repr, tlb
      ensures StoreOk(clock)
      ensures f == old(directory.ptes[c]).frameNumber && 0 <= f < NUM_FRAMES
      ensures tlb.entries == Put(old(tlb.entries), vpn, f) && Find(tlb.entries, vpn) == Some(f)
      ensures directory.ptes == Dirtied(Stamped(old(directory.ptes), frames[f].currentPage, clock), c, isWrite)
      ensures directory.ptes[c].dirty == (old(directory.ptes[c].dirty) || isWrite)
    {
      assert WellFormedEntry(c, directory.ptes[c], clock);
      f := directory.Pte(c).frameNumber;
      CacheTranslation(vpn, f);
      UpdateLastUsedPage(f);
      MarkDirty(c, isWrite);
    }

    /** The bookkeeping of a request: counted, classified, one tick later. */
    method BeginRequest(kind: AccessType)
      requires Valid()
      modifies this
      ensures Valid()
      ensures totalRequests == old(totalRequests) + 1 && clock == old(clock) + 1 && lastAccessType == Some(kind)
      ensures totalFaults == old(totalFaults) && lastEvictedFrame == old(lastEvictedFrame) && lastVictimVpn == old(lastVictimVpn)
      ensures addressTrace == old(addressTrace) && vpnTrace == old(vpnTrace)
    {
      label Before:
      totalRequests, lastAccessType, clock := totalRequests + 1, Some(kind), clock + 1;
      StoreOkFramed@Before(old(clock));
      StoreOkLater(old(clock), clock);
    }

    /** A request the TLB answers: counted as a TLB hit, then served by `ServeTlbHit`. */
    method TlbHitRequest(c: Coord, frame: int, isWrite: bool)
      requires Valid() && 0 <= frame < NUM_FRAMES
      modifies this, directory, directory.Repr
      ensures Valid()
      ensures totalRequests == old(totalRequests) + 1 && clock == old(clock) + 1 && lastAccessType == Some(TlbHit)
      ensures totalFaults == old(totalFaults) && lastEvictedFrame == old(lastEvictedFrame) && lastVictimVpn == old(lastVictimVpn)
      ensures addressTrace == old(addressTrace) && vpnTrace == old(vpnTrace)
      ensures directory.ptes == Stamped(Dirtied(old(directory.ptes), c, isWrite), frames[frame].currentPage, clock)
      ensures directory.ptes[c].dirty == (old(directory.ptes[c].dirty) || isWrite)
      ensures Holdings() == old(Holdings()) && (policy.Fifo? ==> policy.fifo.queue == old(policy.fifo.queue))
    {
      BeginRequest(TlbHit);
      ServeTlbHit(c, frame, isWrite);
    }

    /** A TLB miss on a valid entry: counted as a page-table hit, then served by `ServeTableHit`. */
    method TableHitRequest(c: Coord, vpn: Vpn, isWrite: bool) returns (f: int)
      requires Valid() && directory.ptes[c].valid
      modifies this, directory, directory.Repr, tlb
      ensures Valid()
      ensures totalRequests == old(totalRequests) + 1 && clock == old(clock) + 1 && lastAccessType == Some(PageTableHit)
      ensures totalFaults == old(totalFaults) && lastEvictedFrame == old(lastEvictedFrame) && lastVictimVpn == old(lastVictimVpn)
      ensures addressTrace == old(addressTrace) && vpnTrace == old(vpnTrace)
      ensures f == old(directory.ptes[c]).frameNumber && 0 <= f < NUM_FRAMES
      ensures tlb.entries == Put(old(tlb.entries), vpn, f)
      ensures directory.ptes == Dirtied(Stamped(old(directory.ptes), frames[f].currentPage, clock), c, isWrite)
      ensures directory.ptes[c].dirty == (old(directory.ptes[c].dirty) || isWrite)
      ensures Holdings() == old(Holdings()) && (policy.Fifo? ==> policy.fifo.queue == old(policy.fifo.queue))
    {
      BeginRequest(PageTableHit);
      f := ServeTableHit(c, vpn, isWrite);
    }

    /**
     * A TLB miss on an invalid entry: counted as a page fault, served by
     * `handlePageFault`, then the write's dirty bit on the entry just loaded.
     */
    method FaultRequest(c: Coord, vpn: Vpn, isWrite: bool, currentIndex: int) returns (f: int)
      requires Valid() && currentIndex >= -1
      requires VpnCoord(vpn) == c && !directory.ptes[c].valid && Coherent(tlb.entries, directory.ptes)
      modifies this, directory, directory.Repr, FrameSet(), tlb, FifoSet()
      ensures Valid() && Coherent(tlb.entries, directory.ptes)
      ensures totalRequests == old(totalRequests) + 1 && clock == old(clock) + 1 && lastAccessType == Some(PageFault)
      ensures totalFaults == old(totalFaults) + 1
      ensures addressTrace == old(addressTrace) && vpnTrace == old(vpnTrace)
      ensures 0 <= f < NUM_FRAMES && f == directory.ptes[c].frameNumber
      ensures directory.ptes[c] ==
        old(directory.ptes[c]).(valid := true, frameNumber := f, lastUsedTime := clock, dirty := old(directory.ptes[c].dirty) || isWrite)
      ensures frames[f].currentPage == Some(c) && Find(tlb.entries, vpn) == Some(f)
      ensures Holdings() == old(Holdings())[f := Some(c)]
      ensures lastEvictedFrame == None ==>
        && lastVictimVpn == None && old(Holdings())[f] == None
        && (forall i :: 0 <= i < f ==> old(Holdings())[i].Some?)
        && (policy.Fifo? ==> policy.fifo.queue == old(policy.fifo.queue) + [f])
      ensures lastEvictedFrame != None ==>
        && (forall i :: 0 <= i < NUM_FRAMES ==> old(Holdings())[i].Some?)
        && lastEvictedFrame == Some(f)
        && lastVictimVpn == Some(old(Holdings())[f].value.tab)
        && (policy.Fifo? ==>
              old(policy.fifo.queue) != [] && f == old(policy.fifo.queue)[0] && policy.fifo.queue == Rotate(old(policy.fifo.queue)))
        && (policy.Lru? ==> f == LruPick(old(Resident()), clock))
        && (policy.Optimal? ==> AllResident(old(Resident())) && f == OptimalPick(old(Resident()), vpnTrace, currentIndex))
    {
      ghost var before, holdings := Resident(), Holdings();
      BeginRequest(PageFault);
      assert Resident() == before && Holdings() == holdings;
      ghost var victim;
      f, victim := HandlePageFault(c.dir, c.tab, vpn, currentIndex);
      ghost var m1 := directory.ptes;
      MarkDirty(c, isWrite);
      CoherentDirtied(tlb.entries, m1, c, isWrite);
    }

    /**
     * `processVirtualAddress`: one request at the next clock tick. A TLB hit
     * marks the entry dirty on a write and stamps the page in the frame the
     * TLB names; otherwise the entry at (directory index, table index) is
     * walked to: a valid entry is a page-table hit that refreshes the TLB, an
     * invalid one a page fault; on both a write marks the entry dirty.
     */
    method ProcessVirtualAddress(va: Address, isWrite: bool, currentIndex: int)
      requires Valid() && currentIndex >= -1 && Coherent(tlb.entries, directory.ptes)
      modifies this, directory, directory.Repr, FrameSet(), tlb, FifoSet()
      ensures Valid() && Coherent(tlb.entries, directory.ptes)
      ensures totalRequests == old(totalRequests) + 1 && clock == old(clock) + 1
      ensures addressTrace == old(addressTrace) && vpnTrace == old(vpnTrace)
      ensures var c := Coord(DirectoryIndex(va), TableIndex(va));
        && (lastAccessType == Some(TlbHit) <==> old(HasKey(tlb.entries, ComputeVpn(va))))
        && (lastAccessType == Some(PageFault) <==> !old(HasKey(tlb.entries, ComputeVpn(va))) && !old(directory.ptes[c].valid))
        && lastAccessType.Some?
      ensures totalFaults == old(totalFaults) + (if lastAccessType == Some(PageFault) then 1 else 0)
      ensures lastAccessType != Some(PageFault) ==>
        lastEvictedFrame == old(lastEvictedFrame) && lastVictimVpn == old(lastVictimVpn)
      ensures var c := Coord(DirectoryIndex(va), TableIndex(va));
        directory.ptes[c].dirty == (old(directory.ptes[c].dirty) || isWrite)
      ensures lastAccessType == Some(TlbHit) ==> tlb.entries == Touch(old(tlb.entries), ComputeVpn(va))
      ensures var c := Coord(DirectoryIndex(va), TableIndex(va));
        lastAccessType == Some(PageTableHit) ==>
          tlb.entries == Put(old(tlb.entries), ComputeVpn(va), old(directory.ptes[c].frameNumber))
      ensures var c := Coord(DirectoryIndex(va), TableIndex(va));
        lastAccessType == Some(PageFault) ==>
          && directory.ptes[c].valid && directory.ptes[c].lastUsedTime == clock
          && 0 <= directory.ptes[c].frameNumber < NUM_FRAMES
          && frames[directory.ptes[c].frameNumber].currentPage == Some(c)
          && Find(tlb.entries, ComputeVpn(va)) == Some(directory.ptes[c].frameNumber)
      ensures lastAccessType != Some(PageFault) ==>
        Holdings() == old(Holdings()) && (policy.Fifo? ==> policy.fifo.queue == old(policy.fifo.queue))
      ensures var c := Coord(DirectoryIndex(va), TableIndex(va));
        var f := directory.ptes[c].frameNumber;
        lastAccessType == Some(PageFault) ==>
          && 0 <= f < NUM_FRAMES
          && Holdings() == old(Holdings())[f := Some(c)]
          && (lastEvictedFrame == None ==>
                && lastVictimVpn == None && old(Holdings())[f] == None
                && (forall i :: 0 <= i < f ==> old(Holdings())[i].Some?)
                && (policy.Fifo? ==> policy.fifo.queue == old(policy.fifo.queue) + [f]))
          && (lastEvictedFrame != None ==>
                && (forall i :: 0 <= i < NUM_FRAMES ==> old(Holdings())[i].Some?)
                && lastEvictedFrame == Some(f)
                && lastVictimVpn == Some(old(Holdings())[f].value.tab)
                && (policy.Fifo? ==>
                      old(policy.fifo.queue) != [] && f == old(policy.fifo.queue)[0]
                      && policy.fifo.queue == Rotate(old(policy.fifo.queue)))
                && (policy.Lru? ==> f == LruPick(old(Resident()), clock))
                && (policy.Optimal? ==>
                      AllResident(old(Resident())) && f == OptimalPick(old(Resident()), vpnTrace, currentIndex)))
    {
      var c := Coord(DirectoryIndex(va), TableIndex(va));
      var vpn := ComputeVpn(va);
      ghost var before, holdings := Resident(), Holdings();
      ghost var m0, t0 := directory.ptes, tlb.entries;
      var hit := ProbeTlb(vpn);
      assert Resident() == before && Holdings() == holdings;
      if hit.Some? {
        TlbHitRequest(c, hit.value, isWrite);
        CoherentAfterTlbHit(t0, m0, vpn, c, isWrite, frames[hit.value].currentPage, clock);
      } else if directory.Pte(c).valid {
        var f := TableHitRequest(c, vpn, isWrite);
        CoherentAfterTableHit(t0, m0, vpn, isWrite, frames[f].currentPage, clock);
      } else {
        var f := FaultRequest(c, vpn, isWrite, currentIndex);
      }
    }

    /** The manager's own part of a reset: counters zeroed, last eviction and access type forgotten. */
    method ResetStats()
      requires Valid()
      modifies this
      ensures Valid()
      ensures totalRequests == 0 && totalFaults == 0
      ensures lastEvictedFrame == None && lastVictimVpn == None && lastAccessType == None
      ensures clock == old(clock) && addressTrace == old(addressTrace) && vpnTrace == old(vpnTrace)
    {
      label Before:
      totalRequests, totalFaults := 0, 0;
      lastEvictedFrame, lastVictimVpn, lastAccessType := None, None, None;
      StoreOkFramed@Before(clock);
    }

    /** `tlb.clear()` */
    method ClearTlb()
      requires StoreOk(clock)
      modifies tlb
      ensures StoreOk(clock) && tlb.entries == []
    {
      tlb.Clear();
    }

    /** `f.setCurrentPage(null)` for every frame, in order. */
    method ClearFrames()
      requires StoreOk(clock)
      modifies FrameSet()
      ensures StoreOk(clock)
      ensures forall i :: 0 <= i < NUM_FRAMES ==> frames[i].currentPage == None
    {
      for i := 0 to NUM_FRAMES
        invariant StoreOk(clock)
        invariant forall k :: 0 <= k < i ==> frames[k].currentPage == None
      {
        frames[i].SetCurrentPage(None);
      }
    }

    /**
     * `directory.getTable(dir)` and, as it is never null, `reset()` on it;
     * the ghost view of the directory is brought in step.
     */
    method ResetTable(dir: Index)
      requires StoreOk(clock)
      modifies directory, directory.Repr
      ensures StoreOk(clock)
      ensures directory.ptes == ClearedTable(old(directory.ptes), dir)
    {
      var t := directory.GetTable(dir);
      if t != null {
        t.Reset();
      }
      WellFormedCleared(directory.ptes, dir, clock);
      directory.ptes := ClearedTable(directory.ptes, dir);
      forall c: Coord {:trigger directory.tables[c.dir].entries[c.tab]}
        ensures directory.tables[c.dir].entries[c.tab] == directory.ptes[c]
      {
        if c.dir != dir {
          assert directory.tables[c.dir].entries != directory.tables[dir].entries;
        }
      }
    }

    /** The loop of `resetStatsAndStateForNewRun` over the 1024 tables. */
    method ResetTables()
      requires StoreOk(clock)
      modifies directory, directory.Repr
      ensures StoreOk(clock)
      ensures forall c: Coord :: directory.ptes[c] == Cleared(old(directory.ptes)[c])
    {
      for dir := 0 to ENTRIES
        invariant StoreOk(clock)
        invariant directory.ptes == ClearedBelow(old(directory.ptes), dir)
      {
        ResetTable(dir);
        ClearedBelowStep(old(directory.ptes), dir);
      }
    }

    /**
     * Zero the counters, empty the TLB, forget the last eviction and access
     * type, free every frame and reset every table. The clock, the traces and
     * the FIFO queue are left as they are.
     */
    method ResetStatsAndStateForNewRun()
      requires Valid()
      modifies this, directory, directory.Repr, FrameSet(), tlb
      ensures Valid()
      ensures totalRequests == 0 && totalFaults == 0 && tlb.entries == []
      ensures lastEvictedFrame == None && lastVictimVpn == None && lastAccessType == None
      ensures forall i :: 0 <= i < NUM_FRAMES ==> frames[i].currentPage == None
      ensures forall c: Coord :: directory.ptes[c] == Cleared(old(directory.ptes)[c])
      ensures clock == old(clock) && addressTrace == old(addressTrace) && vpnTrace == old(vpnTrace)
      ensures policy.Fifo? ==> policy.fifo.queue == old(policy.fifo.queue)
      ensures Coherent(tlb.entries, directory.ptes)
    {
      ResetStats();
      ClearTlb();
      ClearFrames();
      ResetTables();
    }

    /** The loop of `setAddressTrace`: the VPN of each address, appended in trace order. */
    method ComputeVpnTrace(virtualAddresses: seq<Address>) returns (vpns: seq<int>)
      ensures vpns == Vpns(virtualAddresses)
      ensures |vpns| == |virtualAddresses|
      ensures forall k :: 0 <= k < |vpns| ==> vpns[k] == ComputeVpn(virtualAddresses[k])
    {
      vpns := [];
      for k := 0 to |virtualAddresses|
        invariant vpns == Vpns(virtualAddresses[..k])
      {
        assert virtualAddresses[..k + 1][..k] == virtualAddresses[..k];
        vpns := vpns + [ComputeVpn(virtualAddresses[k])];
      }
      assert virtualAddresses[..|virtualAddresses|] == virtualAddresses;
      VpnsPointwise(virtualAddresses);
    }

    /** Load a new trace, derive its VPN trace and reset for a fresh run. */
    method SetAddressTrace(virtualAddresses: seq<Address>)
      requires Valid()
      modifies this, directory, directory.Repr, FrameSet(), tlb
      ensures Valid()
      ensures addressTrace == virtualAddresses && vpnTrace == Vpns(virtualAddresses)
      ensures totalRequests == 0 && totalFaults == 0 && tlb.entries == []
      ensures lastEvictedFrame == None && lastVictimVpn == None && lastAccessType == None
      ensures forall i :: 0 <= i < NUM_FRAMES ==> frames[i].currentPage == None
      ensures forall c: Coord :: directory.ptes[c] == Cleared(old(directory.ptes)[c])
      ensures clock == old(clock)
      ensures Coherent(tlb.entries, directory.ptes)
    {
      var vpns := ComputeVpnTrace(virtualAddresses);
      label Computed:
      addressTrace, vpnTrace := virtualAddresses, vpns;
      StoreOkFramed@Computed(clock);
      ResetStatsAndStateForNewRun();
    }

    /** Serve request `index` of the trace; outside the trace it answers false and changes nothing. */
    method Step(index: int, isWrite: bool) returns (ok: bool)
      requires Valid() && Coherent(tlb.entries, directory.ptes)
      modifies this, directory, directory.Repr, FrameSet(), tlb, FifoSet()
      ensures Valid() && Coherent(tlb.entries, directory.ptes)
      ensures ok <==> 0 <= index < |addressTrace|
      ensures addressTrace == old(addressTrace) && vpnTrace == old(vpnTrace)
      ensures !ok ==> unchanged(this, tlb, directory)
      ensures !ok ==> Holdings() == old(Holdings()) && (policy.Fifo? ==> policy.fifo.queue == old(policy.fifo.queue))
      ensures ok ==> totalRequests == old(totalRequests) + 1 && clock == old(clock) + 1 && lastAccessType.Some?
      ensures ok ==>
        var va := addressTrace[index];
        var c := Coord(DirectoryIndex(va), TableIndex(va));
        && (lastAccessType == Some(TlbHit) <==> old(HasKey(tlb.entries, ComputeVpn(va))))
        && (lastAccessType == Some(PageFault) <==> !old(HasKey(tlb.entries, ComputeVpn(va))) && !old(directory.ptes[c].valid))
        && directory.ptes[c].dirty == (old(directory.ptes[c].dirty) || isWrite)
      ensures ok ==> totalFaults == old(totalFaults) + (if lastAccessType == Some(PageFault) then 1 else 0)
      ensures ok && lastAccessType != Some(PageFault) ==>
        && lastEvictedFrame == old(lastEvictedFrame) && lastVictimVpn == old(lastVictimVpn)
        && Holdings() == old(Holdings()) && (policy.Fifo? ==> policy.fifo.queue == old(policy.fifo.queue))
      ensures ok && lastAccessType == Some(TlbHit) ==> tlb.entries == Touch(old(tlb.entries), ComputeVpn(addressTrace[index]))
      ensures ok && lastAccessType == Some(PageTableHit) ==>
        var va := addressTrace[index];
        tlb.entries == Put(old(tlb.entries), ComputeVpn(va), old(directory.ptes[Coord(DirectoryIndex(va), TableIndex(va))].frameNumber))
      ensures ok && lastAccessType == Some(PageFault) ==>
        var va := addressTrace[index];
        var c := Coord(DirectoryIndex(va), TableIndex(va));
        var f := directory.ptes[c].frameNumber;
        && directory.ptes[c].valid && directory.ptes[c].lastUsedTime == clock
        && 0 <= f < NUM_FRAMES && frames[f].currentPage == Some(c)
        && Find(tlb.entries, ComputeVpn(va)) == Some(f)
        && Holdings() == old(Holdings())[f := Some(c)]
        && (lastEvictedFrame == None ==>
              && lastVictimVpn == None && old(Holdings())[f] == None
              && (forall i :: 0 <= i < f ==> old(Holdings())[i].Some?)
              && (policy.Fifo? ==> policy.fifo.queue == old(policy.fifo.queue) + [f]))
        && (lastEvictedFrame != None ==>
              && (forall i :: 0 <= i < NUM_FRAMES ==> old(Holdings())[i].Some?)
              && lastEvictedFrame == Some(f)
              && lastVictimVpn == Some(old(Holdings())[f].value.tab)
              && (policy.Fifo? ==>
                    old(policy.fifo.queue) != [] && f == old(policy.fifo.queue)[0]
                    && policy.fifo.queue == Rotate(old(policy.fifo.queue)))
              && (policy.Lru? ==> f == LruPick(old(Resident()), clock))
              && (policy.Optimal? ==>
                    AllResident(old(Resident())) && f == OptimalPick(old(Resident()), vpnTrace, index)))
    {
      if index < 0 || index >= |addressTrace| {
        return false;
      }
      ProcessVirtualAddress(addressTrace[index], isWrite, index);
      return true;
    }

    /** Forget the last eviction: both the frame and the victim id. */
    method ClearLastEvictedFrame()
      requires Valid()
      modifies this
      ensures Valid() && lastEvictedFrame == None && lastVictimVpn == None
      ensures totalRequests == old(totalRequests) && totalFaults == old(totalFaults) && lastAccessType == old(lastAccessType)
      ensures clock == old(clock) && addressTrace == old(addressTrace) && vpnTrace == old(vpnTrace)
    {
      label Before:
      lastEvictedFrame, lastVictimVpn := None, None;
      StoreOkFramed@Before(clock);
    }

    /** Forget how the last request was served. */
    method ClearLastAccessType()
      requires Valid()
      modifies this
      ensures Valid() && lastAccessType == None
      ensures totalRequests == old(totalRequests) && totalFaults == old(totalFaults)
      ensures lastEvictedFrame == old(lastEvictedFrame) && lastVictimVpn == old(lastVictimVpn)
      ensures clock == old(clock) && addressTrace == old(addressTrace) && vpnTrace == old(vpnTrace)
    {
      label Before:
      lastAccessType := None;
      StoreOkFramed@Before(clock);
    }
  }
}
