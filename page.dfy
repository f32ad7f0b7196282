/**
 * A page-table entry and the frame slot that holds one.
 *
 * Wall-clock `LocalDateTime` stamps are replaced by the ticks of a logical
 * clock (`nat`). A Java `Page` object is owned by its page table and shared
 * with the frame it occupies; here the entry is a value kept in its table
 * slot, and a frame records the (directory, table) coordinate of that slot,
 * so every reader of the frame sees the entry's current fields.
 */
module Pages {
  import opened Wrappers
  import opened AddressCodec

  /** `id` is final; the other fields have setters, written as record updates. */
  datatype Page = Page(id: int, valid: bool, frameNumber: int, lastUsedTime: nat, dirty: bool)

  /** Where a resident page lives: directory index and table index. */
  datatype Coord = Coord(dir: Index, tab: Index)

  /** `new Page(id)`: unmapped, clean, stamped with the current tick. */
  function NewPage(id: int, now: nat): (p: Page)
    ensures p.id == id && p.lastUsedTime == now
    ensures !p.valid && p.frameNumber == -1 && !p.dirty
  {
    Page(id, false, -1, now, false)
  }

  /** What `PageTable.reset` does to one entry: identity and stamp survive. */
  function Cleared(p: Page): (r: Page)
    ensures !r.valid && r.frameNumber == -1 && !r.dirty
    ensures r.id == p.id && r.lastUsedTime == p.lastUsedTime
    ensures r.(valid := false, frameNumber := -1, dirty := false) == r
  {
    p.(valid := false, frameNumber := -1, dirty := false)
  }

  /** The coordinate a 20-bit VPN names: `vpn >>> 10` and `vpn & 0x3FF`. */
  function VpnCoord(vpn: Vpn): (c: Coord)
    ensures c.dir * ENTRIES + c.tab == vpn
  {
    Coord(vpn / ENTRIES, vpn % ENTRIES)
  }

  /** A physical frame slot; `id` is final and `currentPage` is None when free. */
  class Frame {
    const id: int
    var currentPage: Option<Coord>

    constructor (id: int)
      ensures this.id == id && currentPage == None && IsFree()
    {
      this.id := id;
      currentPage := None;
    }

    /** `isFree`: the frame holds no page. */
    predicate IsFree()
      reads this
    {
      currentPage == None
    }

    method SetCurrentPage(page: Option<Coord>)
      modifies this
      ensures currentPage == page && (IsFree() <==> page == None)
    {
      currentPage := page;
    }
  }
}
