/** The first level: 1024 page tables, all allocated up front. */
module PageDirectories {
  import opened AddressCodec
  import opened Pages
  import opened PageTables

  class PageDirectory {
    const tables: array<PageTable>
    /** The entry arrays of the tables, i.e. everything a page update writes. */
    ghost const Repr: set<array<Page>>
    /** The entry at every (directory, table) coordinate. */
    ghost var ptes: imap<Coord, Page>

    /** Fixed size, every table well formed and owning its own entry array. */
    ghost predicate Shape()
      reads tables
    {
      && tables.Length == ENTRIES
      && (forall i :: 0 <= i < ENTRIES ==> tables[i].Valid() && tables[i].entries in Repr)
      && (forall i, j :: 0 <= i < j < ENTRIES ==> tables[i].entries != tables[j].entries)
    }

    /** The shape holds and `ptes` is what the tables store. */
    ghost predicate Valid()
      reads this, tables, Repr
    {
      && Shape()
      && (forall c: Coord :: c in ptes)
      && (forall c: Coord {:trigger tables[c.dir].entries[c.tab]} :: tables[c.dir].entries[c.tab] == ptes[c])
    }

    constructor (now: nat)
      ensures Valid() && fresh(tables) && fresh(Repr)
      ensures forall i, j :: 0 <= i < j < ENTRIES ==> tables[i] != tables[j]
      ensures forall c: Coord :: ptes[c] == NewPage(c.tab, now)
    {
      var ts: seq<PageTable> := [];
      ghost var repr: set<array<Page>> := {};
      while |ts| < ENTRIES
        invariant |ts| <= ENTRIES
        invariant fresh(repr)
        invariant forall k :: 0 <= k < |ts| ==> ts[k].Valid() && ts[k].entries in repr && fresh(ts[k].entries)
        invariant forall k, l :: 0 <= k < l < |ts| ==> ts[k].entries != ts[l].entries
        invariant forall k, t :: 0 <= k < |ts| && 0 <= t < ENTRIES ==> ts[k].entries[t] == NewPage(t, now)
      {
        var t := new PageTable(now);
        ts := ts + [t];
        repr := repr + {t.entries};
      }
      var a := new PageTable[ENTRIES](i requires 0 <= i < ENTRIES => ts[i]);
      tables := a;
      Repr := repr;
      ptes := imap c: Coord :: NewPage(c.tab, now);
    }

    /** The entry at a coordinate: `getTable(dir).getEntry(tab)` on the eager layout. */
    function Pte(c: Coord): (p: Page)
      reads this, tables, Repr
      requires Valid()
      ensures p == ptes[c]
    {
      tables[c.dir].entries[c.tab]
    }

    /**
     * A setter called on the shared entry at `c` (`setValid`, `setDirty`, ...):
     * the entry there becomes `p` and no other entry changes.
     */
    method SetPte(c: Coord, p: Page)
      requires Valid()
      modifies this, tables[c.dir].entries
      ensures Valid()
      ensures ptes == old(ptes)[c := p]
    {
      tables[c.dir].entries[c.tab] := p;
      ptes := ptes[c := p];
    }

    /** `null` outside [0, 1024), the stored table otherwise. */
    method GetTable(index: int) returns (t: PageTable?)
      requires tables.Length == ENTRIES
      ensures 0 <= index < ENTRIES ==> t == tables[index]
      ensures !(0 <= index < ENTRIES) ==> t == null
    {
      if index < 0 || index >= ENTRIES {
        return null;
      }
      return tables[index];
    }

    /**
     * Out of range it does nothing; in range it replaces slot `index` only.
     * It gives up `Valid()`: the new table's entries are not mirrored in `ptes`
     * and its array is not in `Repr`, so after a call in range `ptes` no longer
     * describes the tables. The memory manager never calls it.
     */
    method SetTable(index: int, table: PageTable)
      requires tables.Length == ENTRIES
      modifies tables
      ensures 0 <= index < ENTRIES ==> tables[..] == old(tables[..])[index := table]
      ensures !(0 <= index < ENTRIES) ==> tables[..] == old(tables[..])
    {
      if index < 0 || index >= ENTRIES {
        return;
      }
      tables[index] := table;
    }
  }
}
