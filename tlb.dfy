/**
 * The translation lookaside buffer: a `LinkedHashMap` in access order that
 * drops its eldest entry once it holds more than 16. Its contents are the
 * sequence of (vpn, frame) entries from least to most recently used.
 */
module Tlb {
  import opened Wrappers

  const MAX_ENTRIES := 16

  datatype Entry = Entry(vpn: int, frame: int)

  predicate HasKey(s: seq<Entry>, vpn: int)
  {
    exists i :: 0 <= i < |s| && s[i].vpn == vpn
  }

  /** Positions i < j of `s`, when both exist, hold different keys. */
  predicate KeysApart(s: seq<Entry>, i: int, j: int)
  {
    0 <= i < j < |s| ==> s[i].vpn != s[j].vpn
  }

  /**
   * A map has one entry per key. The trigger is the pairwise fact itself, so
   * a pair of positions is compared only where a proof asks about it.
   */
  ghost predicate DistinctKeys(s: seq<Entry>)
  {
    forall i, j {:trigger KeysApart(s, i, j)} :: KeysApart(s, i, j)
  }

  /** `cache.get` without its reordering: the frame mapped to `vpn`, if any. */
  function Find(s: seq<Entry>, vpn: int): (r: Option<int>)
    ensures r.None? <==> !HasKey(s, vpn)
    ensures r.Some? ==> Entry(vpn, r.value) in s
  {
    if s == [] then None
    else if s[0].vpn == vpn then Some(s[0].frame)
    else Find(s[1..], vpn)
  }

  /** In a map, an entry present is the one `Find` returns. */
  lemma {:induction false} FindEntry(s: seq<Entry>, e: Entry)
    requires DistinctKeys(s) && e in s
    ensures Find(s, e.vpn) == Some(e.frame)
  {
    if s[0] != e {
      var k :| 0 <= k < |s| && s[k] == e;
      assert KeysApart(s, 0, k);
      TailDistinct(s);
      assert e in s[1..];
      FindEntry(s[1..], e);
    }
  }

  /** `cache.remove(vpn)`. */
  function Without(s: seq<Entry>, vpn: int): (r: seq<Entry>)
    ensures |r| <= |s|
  {
    if s == [] then []
    else if s[0].vpn == vpn then Without(s[1..], vpn)
    else [s[0]] + Without(s[1..], vpn)
  }

  /** Removal keeps exactly the entries with another key. */
  lemma {:induction false} WithoutMembers(s: seq<Entry>, vpn: int)
    ensures forall e :: e in Without(s, vpn) <==> e in s && e.vpn != vpn
  {
    if s != [] {
      WithoutMembers(s[1..], vpn);
      assert forall e :: e in s <==> e == s[0] || e in s[1..];
    }
  }

  /** Removing an absent key is a no-op. */
  lemma {:induction false} WithoutAbsent(s: seq<Entry>, vpn: int)
    requires !HasKey(s, vpn)
    ensures Without(s, vpn) == s
  {
    if s != [] {
      WithoutAbsent(s[1..], vpn);
    }
  }

  /** Dropping the eldest entry of a map leaves a map without its key. */
  lemma TailDistinct(s: seq<Entry>)
    requires DistinctKeys(s) && s != []
    ensures DistinctKeys(s[1..]) && !HasKey(s[1..], s[0].vpn)
  {
    var t := s[1..];
    forall k, l ensures KeysApart(t, k, l) {
      assert KeysApart(s, k + 1, l + 1);
    }
    forall k | 0 <= k < |t| ensures t[k].vpn != s[0].vpn {
      assert KeysApart(s, 0, k + 1);
    }
  }

  /** Removing the key at position i cuts out exactly that entry: the others keep their order. */
  lemma {:induction false} WithoutAt(s: seq<Entry>, vpn: int, i: nat)
    requires DistinctKeys(s) && i < |s| && s[i].vpn == vpn
    ensures Without(s, vpn) == s[..i] + s[i + 1..]
  {
    var t := s[1..];
    TailDistinct(s);
    if i == 0 {
      WithoutAbsent(t, vpn);
    } else {
      assert KeysApart(s, 0, i);
      assert Without(s, vpn) == [s[0]] + Without(t, vpn);
      WithoutAt(t, vpn, i - 1);
      assert [s[0]] + t[..i - 1] == s[..i];
      assert t[i..] == s[i + 1..];
    }
  }

  /** Removal keeps the entries a map. */
  lemma {:induction false} WithoutDistinct(s: seq<Entry>, vpn: int)
    requires DistinctKeys(s)
    ensures DistinctKeys(Without(s, vpn))
  {
    if HasKey(s, vpn) {
      var i :| 0 <= i < |s| && s[i].vpn == vpn;
      WithoutAt(s, vpn, i);
      var r := s[..i] + s[i + 1..];
      forall k, l ensures KeysApart(r, k, l) {
        if 0 <= k < l < |r| {
          var k', l' := if k < i then k else k + 1, if l < i then l else l + 1;
          assert r[k] == s[k'] && r[l] == s[l'];
          assert KeysApart(s, k', l');
        }
      }
    } else {
      WithoutAbsent(s, vpn);
    }
  }

  /** Access order: a hit moves the entry to the most recent end. */
  function Touch(s: seq<Entry>, vpn: int): (r: seq<Entry>)
    requires HasKey(s, vpn)
    ensures r != [] && r[|r| - 1] == Entry(vpn, Find(s, vpn).value)
    ensures forall e :: e in r ==> e in s
    ensures forall e :: e in s && e.vpn != vpn ==> e in r
  {
    WithoutMembers(s, vpn);
    Without(s, vpn) + [Entry(vpn, Find(s, vpn).value)]
  }

  /** `cache.put`: overwrite and promote, and drop the eldest once 17 are held. */
  function Put(s: seq<Entry>, vpn: int, frame: int): (r: seq<Entry>)
    ensures r != [] && r[|r| - 1] == Entry(vpn, frame)
    ensures |r| <= MAX_ENTRIES || |r| <= |s|
  {
    var t := Without(s, vpn) + [Entry(vpn, frame)];
    if |t| > MAX_ENTRIES then t[1..] else t
  }

  /** `put` invents no mapping: every entry after it was there before or is the new one. */
  lemma PutMembers(s: seq<Entry>, vpn: int, frame: int)
    ensures forall e :: e in Put(s, vpn, frame) ==> e in s || e == Entry(vpn, frame)
  {
    WithoutMembers(s, vpn);
  }

  /** Appending an entry with a fresh key keeps the entries a map. */
  lemma AppendDistinct(w: seq<Entry>, e: Entry)
    requires DistinctKeys(w) && forall x :: x in w ==> x.vpn != e.vpn
    ensures DistinctKeys(w + [e])
  {
    var t := w + [e];
    forall i, j ensures KeysApart(t, i, j) {
      if 0 <= i < j < |t| {
        if j == |w| {
          assert t[i] in w;
        } else {
          assert KeysApart(w, i, j);
        }
      }
    }
  }

  /** Removing a key and appending it again gives a map whose length tells whether the key was there. */
  lemma {:induction false} ReplaceKey(s: seq<Entry>, vpn: int, frame: int)
    requires DistinctKeys(s)
    ensures DistinctKeys(Without(s, vpn) + [Entry(vpn, frame)])
    ensures HasKey(s, vpn) ==> |Without(s, vpn)| == |s| - 1
    ensures !HasKey(s, vpn) ==> Without(s, vpn) == s
  {
    WithoutDistinct(s, vpn);
    WithoutMembers(s, vpn);
    AppendDistinct(Without(s, vpn), Entry(vpn, frame));
    if HasKey(s, vpn) {
      var i :| 0 <= i < |s| && s[i].vpn == vpn;
      WithoutAt(s, vpn, i);
    } else {
      WithoutAbsent(s, vpn);
    }
  }

  /** A hit cuts the entry out of its place and appends it. */
  lemma TouchMovesToEnd(s: seq<Entry>, vpn: int) returns (i: nat)
    requires DistinctKeys(s) && HasKey(s, vpn)
    ensures i < |s| && s[i].vpn == vpn
    ensures Touch(s, vpn) == s[..i] + s[i + 1..] + [s[i]]
    ensures DistinctKeys(Touch(s, vpn))
  {
    var f := Find(s, vpn).value;
    i :| 0 <= i < |s| && s[i] == Entry(vpn, f);
    ReplaceKey(s, vpn, f);
    WithoutAt(s, vpn, i);
  }

  /** Two maps holding the same entries map every key alike, whatever their order. */
  lemma SameEntriesSameFind(r: seq<Entry>, s: seq<Entry>)
    requires DistinctKeys(r) && DistinctKeys(s) && multiset(r) == multiset(s)
    ensures forall w :: Find(r, w) == Find(s, w)
  {
    forall w ensures Find(r, w) == Find(s, w) {
      var a, b := Find(r, w), Find(s, w);
      if a.Some? {
        assert Entry(w, a.value) in s by { assert Entry(w, a.value) in multiset(r); }
        FindEntry(s, Entry(w, a.value));
      }
      if b.Some? {
        assert Entry(w, b.value) in r by { assert Entry(w, b.value) in multiset(s); }
        FindEntry(r, Entry(w, b.value));
      }
    }
  }

  /** A hit changes the order only: the same entries, the promoted one last, every mapping kept. */
  lemma TouchKeepsMappings(s: seq<Entry>, vpn: int)
    requires DistinctKeys(s) && HasKey(s, vpn)
    ensures DistinctKeys(Touch(s, vpn)) && |Touch(s, vpn)| == |s|
    ensures multiset(Touch(s, vpn)) == multiset(s)
    ensures Touch(s, vpn)[|s| - 1].vpn == vpn
    ensures forall w :: Find(Touch(s, vpn), w) == Find(s, w)
  {
    var i := TouchMovesToEnd(s, vpn);
    var r := Touch(s, vpn);
    assert s == s[..i] + [s[i]] + s[i + 1..];
    assert multiset(r) == multiset(s);
    SameEntriesSameFind(r, s);
  }

  /** The TLB stays a map of at most 16 entries and `vpn -> frame` becomes its newest entry. */
  lemma {:induction false} PutSpec(s: seq<Entry>, vpn: int, frame: int)
    requires DistinctKeys(s) && |s| <= MAX_ENTRIES
    ensures DistinctKeys(Put(s, vpn, frame)) && 0 < |Put(s, vpn, frame)| <= MAX_ENTRIES
    ensures Put(s, vpn, frame)[|Put(s, vpn, frame)| - 1] == Entry(vpn, frame)
    ensures Find(Put(s, vpn, frame), vpn) == Some(frame)
    ensures forall e :: e in Put(s, vpn, frame) ==> e in s || e == Entry(vpn, frame)
  {
    ReplaceKey(s, vpn, frame);
    WithoutMembers(s, vpn);
    var t := Without(s, vpn) + [Entry(vpn, frame)];
    var r := Put(s, vpn, frame);
    if |t| > MAX_ENTRIES {
      TailDistinct(t);
    }
    assert r[|r| - 1] in r;
    FindEntry(r, Entry(vpn, frame));
  }

  /** Exactly the least recently used entry is dropped, and only when a new key meets a full TLB. */
  lemma {:induction false} PutEvictsEldest(s: seq<Entry>, vpn: int, frame: int)
    requires DistinctKeys(s) && |s| <= MAX_ENTRIES
    ensures forall e :: e in s && e.vpn != vpn && e !in Put(s, vpn, frame) ==>
      e == s[0] && |s| == MAX_ENTRIES && !HasKey(s, vpn)
    ensures |s| == MAX_ENTRIES && !HasKey(s, vpn) ==>
      Put(s, vpn, frame) == s[1..] + [Entry(vpn, frame)] && s[0] !in Put(s, vpn, frame)
  {
    ReplaceKey(s, vpn, frame);
    WithoutMembers(s, vpn);
    var w := Without(s, vpn);
    var t := w + [Entry(vpn, frame)];
    var r := Put(s, vpn, frame);
    forall e | e in s && e.vpn != vpn && e !in r
      ensures e == s[0] && |s| == MAX_ENTRIES && !HasKey(s, vpn)
    {
      assert e in t;
      assert |t| > MAX_ENTRIES;
      assert !HasKey(s, vpn);
      assert t[0] == s[0];
    }
    if |s| == MAX_ENTRIES && !HasKey(s, vpn) {
      assert r == s[1..] + [Entry(vpn, frame)];
      forall k | 0 <= k < |s| - 1 ensures s[1..][k] != s[0] {
        assert KeysApart(s, 0, k + 1);
      }
    }
  }

  /** `update` called for each entry of `es` in turn, with no lookup in between. */
  function PutAll(s: seq<Entry>, es: seq<Entry>): (r: seq<Entry>)
    ensures forall e :: e in r ==> e in s || e in es
    ensures |r| <= MAX_ENTRIES || |r| <= |s|
    ensures es != [] ==> r != [] && r[|r| - 1] == es[|es| - 1]
  {
    if es == [] then s
    else
      var e, p := es[|es| - 1], PutAll(s, es[..|es| - 1]);
      PutMembers(p, e.vpn, e.frame);
      Put(p, e.vpn, e.frame)
  }

  /** Removing a key absent from a suffix leaves that suffix in place. */
  lemma {:induction false} WithoutSuffix(a: seq<Entry>, t: seq<Entry>, vpn: int)
    requires !HasKey(t, vpn)
    ensures Without(a + t, vpn) == Without(a, vpn) + t
  {
    if a == [] {
      assert a + t == t;
      WithoutAbsent(t, vpn);
    } else {
      assert (a + t)[1..] == a[1..] + t;
      WithoutSuffix(a[1..], t, vpn);
    }
  }

  function Min(a: int, b: int): int { if a < b then a else b }

  /** `t` is the newest end of `r`. */
  predicate EndsWith(r: seq<Entry>, t: seq<Entry>)
  {
    |r| >= |t| && r[|r| - |t|..] == t
  }

  /** The last m elements of w + v are those of v when v has at least m. */
  lemma SuffixOfConcat<T>(w: seq<T>, v: seq<T>, m: nat)
    requires m <= |v|
    ensures (w + v)[|w + v| - m..] == v[|v| - m..]
  {
    var x := w + v;
    assert forall i :: |x| - m <= i < |x| ==> x[i] == v[i - |w|];
  }

  /** One insert of a key absent from a suffix t of the TLB keeps t, now followed by the new entry,
      at the newest end (up to the 16 that fit). */
  lemma {:induction false} PutKeepsSuffix(r0: seq<Entry>, k: nat, e: Entry, m: nat)
    requires |r0| <= MAX_ENTRIES && k <= |r0|
    requires !HasKey(r0[k..], e.vpn)
    requires m <= |r0| - k + 1 && m <= MAX_ENTRIES
    ensures var r := Put(r0, e.vpn, e.frame);
      |r| >= m && r[|r| - m..] == (r0[k..] + [e])[|r0| - k + 1 - m..]
  {
    var u := Without(r0, e.vpn) + [e];
    RemovalKeepsSuffix(r0, k, e, m);
    var r := Put(r0, e.vpn, e.frame);
    if |u| > MAX_ENTRIES {
      assert r == u[1..];
      SuffixOfConcat([u[0]], r, m);
      assert [u[0]] + r == u;
    } else {
      assert r == u;
    }
  }

  /** Before the eldest is dropped, `put` keeps a key-free suffix and appends the new entry after it. */
  lemma RemovalKeepsSuffix(r0: seq<Entry>, k: nat, e: Entry, m: nat)
    requires k <= |r0| && !HasKey(r0[k..], e.vpn) && m <= |r0| - k + 1
    ensures var u := Without(r0, e.vpn) + [e];
      |u| >= m && u[|u| - m..] == (r0[k..] + [e])[|r0| - k + 1 - m..]
  {
    var a, t := r0[..k], r0[k..];
    assert r0 == a + t;
    WithoutSuffix(a, t, e.vpn);
    var w, v := Without(a, e.vpn), t + [e];
    assert Without(r0, e.vpn) + [e] == w + v;
    SuffixOfConcat(w, v, m);
  }

  /** In a map, the newest key does not occur among the entries before it. */
  lemma LastKeyIsNew(es: seq<Entry>, lo: nat)
    requires DistinctKeys(es) && lo < |es|
    ensures !HasKey(es[lo..|es| - 1], es[|es| - 1].vpn)
  {
    var t := es[lo..|es| - 1];
    forall k | 0 <= k < |t| ensures t[k].vpn != es[|es| - 1].vpn {
      assert t[k] == es[lo + k];
      assert KeysApart(es, lo + k, |es| - 1);
    }
  }

  /** Sequence algebra of the induction step: a suffix of t + [e] is a suffix of es. */
  lemma SuffixOfExtension<T>(r: seq<T>, t: seq<T>, es: seq<T>, m: nat)
    requires es != [] && |t| < |es| && t == es[|es| - 1 - |t|..|es| - 1]
    requires m <= |t| + 1 && m <= |r|
    requires r[|r| - m..] == (t + [es[|es| - 1]])[|t| + 1 - m..]
    ensures r[|r| - m..] == es[|es| - m..]
  {
    var n := |es|;
    assert t + [es[n - 1]] == es[n - 1 - |t|..];
  }

  /** The induction step of KeepsLastInserted: one more insert of a distinct key. */
  lemma SuffixStep(r0: seq<Entry>, es: seq<Entry>, m0: nat, m: nat) returns (r: seq<Entry>)
    requires |r0| <= MAX_ENTRIES && es != []
    requires m0 == Min(|es| - 1, MAX_ENTRIES) && |r0| >= m0 && m == Min(|es|, MAX_ENTRIES)
    requires r0[|r0| - m0..] == es[|es| - 1 - m0..|es| - 1]
    requires !HasKey(es[|es| - 1 - m0..|es| - 1], es[|es| - 1].vpn)
    ensures r == Put(r0, es[|es| - 1].vpn, es[|es| - 1].frame)
    ensures |r| >= m && r[|r| - m..] == es[|es| - m..]
  {
    var k := |r0| - m0;
    PutKeepsSuffix(r0, k, es[|es| - 1], m);
    r := Put(r0, es[|es| - 1].vpn, es[|es| - 1].frame);
    SuffixOfExtension(r, r0[k..], es, m);
  }

  /** One more insert, of a key distinct from all earlier ones, extends the kept suffix by that entry. */
  lemma InsertStep(r0: seq<Entry>, es: seq<Entry>)
    requires DistinctKeys(r0) && |r0| <= MAX_ENTRIES && DistinctKeys(es) && es != []
    requires EndsWith(r0, es[..|es| - 1][|es| - 1 - Min(|es| - 1, MAX_ENTRIES)..])
    ensures var r := Put(r0, es[|es| - 1].vpn, es[|es| - 1].frame);
      DistinctKeys(r) && |r| <= MAX_ENTRIES && EndsWith(r, es[|es| - Min(|es|, MAX_ENTRIES)..])
  {
    var n := |es|;
    var m0 := Min(n - 1, MAX_ENTRIES);
    assert es[..n - 1][n - 1 - m0..] == es[n - 1 - m0..n - 1];
    LastKeyIsNew(es, n - 1 - m0);
    PutSpec(r0, es[n - 1].vpn, es[n - 1].frame);
    var r := SuffixStep(r0, es, m0, Min(n, MAX_ENTRIES));
  }

  /** After k inserts of distinct keys the newest min(k, 16) entries are exactly the last ones
      inserted, in insertion order. */
  lemma {:induction false} KeepsLastInserted(s: seq<Entry>, es: seq<Entry>)
    requires DistinctKeys(s) && |s| <= MAX_ENTRIES && DistinctKeys(es)
    ensures DistinctKeys(PutAll(s, es)) && |PutAll(s, es)| <= MAX_ENTRIES
    ensures EndsWith(PutAll(s, es), es[|es| - Min(|es|, MAX_ENTRIES)..])
  {
    if es != [] {
      var p := es[..|es| - 1];
      forall i, j ensures KeysApart(p, i, j) {
        assert KeysApart(es, i, j);
      }
      KeepsLastInserted(s, p);
      InsertStep(PutAll(s, p), es);
    }
  }

  /** So after 16 or more inserts of distinct keys the TLB holds exactly the last 16, oldest first. */
  lemma HoldsLastSixteen(s: seq<Entry>, es: seq<Entry>)
    requires DistinctKeys(s) && |s| <= MAX_ENTRIES && DistinctKeys(es) && |es| >= MAX_ENTRIES
    ensures PutAll(s, es) == es[|es| - MAX_ENTRIES..]
  {
    KeepsLastInserted(s, es);
    var r := PutAll(s, es);
    assert r == r[|r| - MAX_ENTRIES..];
  }

  class TLB {
    /** Least recently used first. */
    var entries: seq<Entry>

    ghost predicate Valid()
      reads this
    {
      DistinctKeys(entries) && |entries| <= MAX_ENTRIES
    }

    constructor ()
      ensures Valid() && entries == []
    {
      entries := [];
    }

    /** A hit promotes the entry; a miss (None, the Java `null`) changes nothing. */
    method Lookup(vpn: int) returns (r: Option<int>)
      requires Valid()
      modifies this
      ensures Valid()
      ensures r == Find(old(entries), vpn)
      ensures r.None? ==> entries == old(entries)
      ensures r.Some? ==> entries == Touch(old(entries), vpn)
    {
      r := Find(entries, vpn);
      if r.Some? {
        TouchKeepsMappings(entries, vpn);
        entries := Touch(entries, vpn);
      }
    }

    method Update(vpn: int, frame: int)
      requires Valid()
      modifies this
      ensures Valid()
      ensures entries == Put(old(entries), vpn, frame)
    {
      PutSpec(entries, vpn, frame);
      entries := Put(entries, vpn, frame);
    }

    method Clear()
      modifies this
      ensures Valid() && entries == []
    {
      entries := [];
    }

    method Remove(vpn: int)
      requires Valid()
      modifies this
      ensures Valid()
      ensures entries == Without(old(entries), vpn)
    {
      WithoutDistinct(entries, vpn);
      entries := Without(entries, vpn);
    }
  }
}
