/** A second-level page table: 1024 entries, entry i created as `new Page(i)`. */
module PageTables {
  import opened Wrappers
  import opened AddressCodec
  import opened Pages

  class PageTable {
    const entries: array<Page>

    /** The table has its fixed size (the Java `size()`); nothing else is assumed of it. */
    predicate Valid()
    {
      entries.Length == ENTRIES
    }

    /** Entry i gets page id i: the id is the table index, not the VPN. */
    constructor (now: nat)
      ensures Valid() && fresh(entries)
      ensures forall i :: 0 <= i < ENTRIES ==> entries[i] == NewPage(i, now)
    {
      var a := new Page[ENTRIES];
      var i := 0;
      while i < ENTRIES
        invariant 0 <= i <= ENTRIES
        invariant forall k :: 0 <= k < i ==> a[k] == NewPage(k, now)
      {
        a[i] := NewPage(i, now);
        i := i + 1;
      }
      entries := a;
    }

    /** None stands for the `null` returned outside [0, 1024). */
    method GetEntry(index: int) returns (r: Option<Page>)
      requires Valid()
      ensures 0 <= index < ENTRIES ==> r == Some(entries[index])
      ensures !(0 <= index < ENTRIES) ==> r == None
    {
      if index < 0 || index >= ENTRIES {
        return None;
      }
      return Some(entries[index]);
    }

    /** Out of range it does nothing; in range it replaces slot `index` only. */
    method SetEntry(index: int, entry: Page)
      requires Valid()
      modifies entries
      ensures 0 <= index < ENTRIES ==> entries[..] == old(entries[..])[index := entry]
      ensures !(0 <= index < ENTRIES) ==> entries[..] == old(entries[..])
    {
      if index < 0 || index >= ENTRIES {
        return;
      }
      entries[index] := entry;
    }

    method HasAnyValidEntry() returns (b: bool)
      ensures b <==> exists i :: 0 <= i < entries.Length && entries[i].valid
    {
      for i := 0 to entries.Length
        invariant forall k :: 0 <= k < i ==> !entries[k].valid
      {
        if entries[i].valid {
          return true;
        }
      }
      return false;
    }

    /** Every entry becomes invalid, unmapped and clean; id and stamp are kept. */
    method Reset()
      modifies entries
      ensures forall i :: 0 <= i < entries.Length ==> entries[i] == Cleared(old(entries[i]))
    {
      for i := 0 to entries.Length
        invariant forall k :: 0 <= k < i ==> entries[k] == Cleared(old(entries[k]))
        invariant forall k :: i <= k < entries.Length ==> entries[k] == old(entries[k])
      {
        entries[i] := Cleared(entries[i]);
      }
    }
  }
}
