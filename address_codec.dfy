/**
 * Splitting a 32-bit virtual address into the two-level 10/10/12 layout of
 * "32-Bit Paging" (Intel SDM Vol. 3A, section 4.3): directory index in bits
 * 31..22, table index in bits 21..12 and the byte offset in bits 11..0.
 *
 * A Java `int` address is read as its unsigned 32-bit value. On that value
 * `(va >>> k) & mask` is `(va / 2^k) % (mask + 1)` and `va & 0xFFF` is
 * `va % 4096`, which is how the fields are written here.
 */
module AddressCodec {
  const PAGE_SIZE := 4096
  const DIR_SHIFT := 0x40_0000

  /** Number of entries of a page table and of the page directory. */
  const ENTRIES := 1024

  /** The unsigned value of a 32-bit address. */
  type Address = a: int | 0 <= a < 0x1_0000_0000

  /** An index into the page directory or into a page table. */
  type Index = i: int | 0 <= i < ENTRIES

  /** A 20-bit virtual page number. */
  type Vpn = v: int | 0 <= v < ENTRIES * ENTRIES

  /** `(va >>> 22) & 0x3FF`: bits 31..22, the 4 MiB region holding `va`. */
  function DirectoryIndex(va: Address): (i: Index)
    ensures i * DIR_SHIFT <= va < (i + 1) * DIR_SHIFT
    ensures i == (va / PAGE_SIZE) / ENTRIES
  {
    DivideTwice(va);
    (va / DIR_SHIFT) % ENTRIES
  }

  /** `(va >>> 12) & 0x3FF`: bits 21..12, the page of `va` within its 4 MiB region. */
  function TableIndex(va: Address): (i: Index)
    ensures i * PAGE_SIZE <= va % DIR_SHIFT < (i + 1) * PAGE_SIZE
  {
    RegionOffset(va);
    (va / PAGE_SIZE) % ENTRIES
  }

  /** The offset of `va` in its 4 MiB region splits into a page of that region and a byte of that page. */
  lemma RegionOffset(va: Address)
    ensures va % DIR_SHIFT == ((va / PAGE_SIZE) % ENTRIES) * PAGE_SIZE + va % PAGE_SIZE
  {
    DivideTwice(va);
    var q := va / PAGE_SIZE;
    assert va == q * PAGE_SIZE + va % PAGE_SIZE;
    assert q == (q / ENTRIES) * ENTRIES + q % ENTRIES;
    assert va == (q / ENTRIES) * DIR_SHIFT + ((q % ENTRIES) * PAGE_SIZE + va % PAGE_SIZE);
  }

  /** `va & 0xFFF`: bits 11..0. */
  function Offset(va: Address): (o: int)
    ensures 0 <= o < PAGE_SIZE
  {
    va % PAGE_SIZE
  }

  /** `(dirIndex << 10) | tableIndex`; the table index has only ten bits, so the `|` is a sum. */
  function ComputeVpn(va: Address): (v: Vpn)
    ensures v == va / PAGE_SIZE
    ensures DirectoryIndex(va) == v / ENTRIES && TableIndex(va) == v % ENTRIES
  {
    DivideTwice(va);
    DirectoryIndex(va) * ENTRIES + TableIndex(va)
  }

  /** Shifting right by 22 is shifting by 12 and then by 10, and the result already fits ten bits. */
  lemma DivideTwice(va: Address)
    ensures va / DIR_SHIFT == (va / PAGE_SIZE) / ENTRIES
    ensures va / DIR_SHIFT < ENTRIES
  {
    var q := va / PAGE_SIZE;
    assert va == q * PAGE_SIZE + va % PAGE_SIZE;
    assert q == (q / ENTRIES) * ENTRIES + q % ENTRIES;
    assert va == (q / ENTRIES) * DIR_SHIFT + ((q % ENTRIES) * PAGE_SIZE + va % PAGE_SIZE);
    assert 0 <= (q % ENTRIES) * PAGE_SIZE + va % PAGE_SIZE < DIR_SHIFT;
  }

  /** The decomposition loses nothing: the three fields rebuild the unsigned address. */
  lemma {:induction false} Reconstruct(va: Address)
    ensures DirectoryIndex(va) * DIR_SHIFT + TableIndex(va) * PAGE_SIZE + Offset(va) == va
    ensures ComputeVpn(va) * PAGE_SIZE + Offset(va) == va
  {
    DivideTwice(va);
    var q := va / PAGE_SIZE;
    assert va == q * PAGE_SIZE + va % PAGE_SIZE;
    assert q == (q / ENTRIES) * ENTRIES + q % ENTRIES;
  }
}
