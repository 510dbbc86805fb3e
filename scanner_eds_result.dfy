/** What scanEds returns as a whole: its roots, its standalone slots and
    their container, the ids the id pass stamps (one pre-order pass
    numbered from zero per kind, every node one, no two the same, counted
    exactly), and that no slot element is attached twice. */
module ScannerEdsResult {
  import opened Common
  import opened Dom
  import opened ScannerEds
  import opened ScannerEdsFacts

  // ---------------------------------------------------------------------
  // Projections of the pre-order traversal
  // ---------------------------------------------------------------------

  /** The ids of the entries of kind `k`, in traversal order. */
  function IdsOf(es: seq<Entry>, k: Kind): (r: seq<Option<string>>)
    ensures |r| <= |es|
  {
    if es == [] then [] else (if es[0].kind == k then [es[0].id] else []) + IdsOf(es[1..], k)
  }

  /** The traversal with its ids erased. */
  function Bare(es: seq<Entry>): seq<Entry>
  {
    seq(|es|, i requires 0 <= i < |es| => es[i].(id := None))
  }

  /** `n` ids: the prefix followed by start, start + 1, … */
  function Numbered(prefix: string, start: nat, n: nat): seq<Option<string>>
  {
    seq(n, i requires 0 <= i => Some(prefix + Decimal(start + i)))
  }

  lemma {:induction false} IdsOfAppend(a: seq<Entry>, b: seq<Entry>, k: Kind)
    ensures IdsOf(a + b, k) == IdsOf(a, k) + IdsOf(b, k)
    decreases |a|
  {
    if a == [] {
      assert a + b == b;
    } else {
      var hd := if a[0].kind == k then [a[0].id] else [];
      assert (a + b)[0] == a[0];
      assert (a + b)[1..] == a[1..] + b;
      assert IdsOf(a + b, k) == hd + IdsOf(a[1..] + b, k);
      IdsOfAppend(a[1..], b, k);
      assert IdsOf(a, k) == hd + IdsOf(a[1..], k);
    }
  }

  lemma {:induction false} IdsOfHas(es: seq<Entry>, i: nat)
    requires i < |es|
    ensures es[i].id in IdsOf(es, es[i].kind)
    decreases i
  {
    if i > 0 {
      IdsOfHas(es[1..], i - 1);
    }
  }

  lemma BareAppend(a: seq<Entry>, b: seq<Entry>)
    ensures Bare(a + b) == Bare(a) + Bare(b)
  {
  }

  lemma NumberedAppend(prefix: string, start: nat, m: nat, n: nat)
    ensures Numbered(prefix, start, m) + Numbered(prefix, start + m, n) == Numbered(prefix, start, m + n)
  {
  }

  // ---------------------------------------------------------------------
  // The id pass
  // ---------------------------------------------------------------------

  /** The id pass turned traversal `es` into `es'` and counters `t` into
      `t'`: it changed nothing but the ids, numbered the blocks and the
      slots on from the counters, and counted every id it stamped. */
  ghost predicate MintedFrom(es: seq<Entry>, es': seq<Entry>, t: Tally, t': Tally)
  {
    var nb, ns := |IdsOf(es, BlockKind)|, |IdsOf(es, SlotKind)|;
    && Bare(es') == Bare(es)
    && IdsOf(es', BlockKind) == Numbered(BlockIdPrefix, t.blockIndex, nb)
    && IdsOf(es', SlotKind) == Numbered(SlotIdPrefix, t.slotIndex, ns)
    && t' == Tally(t.blockIndex + nb, t.slotIndex + ns, t.totalBlocks + nb, t.totalSlots + ns)
  }

  lemma MintedConcat(a: seq<Entry>, a': seq<Entry>, b: seq<Entry>, b': seq<Entry>, t: Tally, t1: Tally, t2: Tally)
    requires MintedFrom(a, a', t, t1) && MintedFrom(b, b', t1, t2)
    ensures MintedFrom(a + b, a' + b', t, t2)
  {
    IdsOfAppend(a, b, BlockKind);
    IdsOfAppend(a, b, SlotKind);
    IdsOfAppend(a', b', BlockKind);
    IdsOfAppend(a', b', SlotKind);
    BareAppend(a, b);
    BareAppend(a', b');
    NumberedAppend(BlockIdPrefix, t.blockIndex, |IdsOf(a, BlockKind)|, |IdsOf(b, BlockKind)|);
    NumberedAppend(SlotIdPrefix, t.slotIndex, |IdsOf(a, SlotKind)|, |IdsOf(b, SlotKind)|);
  }

  /** The entry of the block assignIds is at: the next block id. */
  lemma MintedBlockEntry(e: Entry, t: Tally)
    requires e.kind == BlockKind
    ensures MintedFrom([e], [e.(id := Some(BlockIdPrefix + Decimal(t.blockIndex)))], t,
                       Tally(t.blockIndex + 1, t.slotIndex, t.totalBlocks + 1, t.totalSlots))
  {
    assert IdsOf([e.(id := Some(BlockIdPrefix + Decimal(t.blockIndex)))], BlockKind) == Numbered(BlockIdPrefix, t.blockIndex, 1);
  }

  /** The entry of the slot assignSlotIds is at: the next slot id. */
  lemma MintedSlotEntry(e: Entry, t: Tally)
    requires e.kind == SlotKind
    ensures MintedFrom([e], [e.(id := Some(SlotIdPrefix + Decimal(t.slotIndex)))], t,
                       Tally(t.blockIndex, t.slotIndex + 1, t.totalBlocks, t.totalSlots + 1))
  {
    assert IdsOf([e.(id := Some(SlotIdPrefix + Decimal(t.slotIndex)))], SlotKind) == Numbered(SlotIdPrefix, t.slotIndex, 1);
  }

  /** assignIds over a forest stamps the ids of its pre-order traversal. */
  lemma {:induction false} MintBlocksNumbers(bs: seq<BlockNode>, t: Tally)
    ensures var (r, t') := MintBlocks(bs, t);
      MintedFrom(FlatBlocks(bs), FlatBlocks(r), t, t')
    decreases bs
  {
    if bs != [] {
      var (b, t1) := MintBlock(bs[0], t);
      var (rest, t2) := MintBlocks(bs[1..], t1);
      MintBlockNumbers(bs[0], t);
      MintBlocksNumbers(bs[1..], t1);
      MintedConcat(FlatBlock(bs[0]), FlatBlock(b), FlatBlocks(bs[1..]), FlatBlocks(rest), t, t1, t2);
      assert ([b] + rest)[0] == b && ([b] + rest)[1..] == rest;
    }
  }

  lemma {:induction false} MintBlockNumbers(b: BlockNode, t: Tally)
    ensures var (b', t') := MintBlock(b, t);
      MintedFrom(FlatBlock(b), FlatBlock(b'), t, t')
    decreases b
  {
    var t0 := Tally(t.blockIndex + 1, t.slotIndex, t.totalBlocks + 1, t.totalSlots);
    var (slots, t1) := MintSlots(b.slots, t0);
    var (children, t2) := MintBlocks(b.children, t1);
    MintSlotsNumbers(b.slots, t0);
    MintBlocksNumbers(b.children, t1);
    var id := Some(BlockIdPrefix + Decimal(t.blockIndex));
    var e, e' := Entry(BlockKind, b.element, b.name, b.id), Entry(BlockKind, b.element, b.name, id);
    MintedBlockEntry(e, t);
    MintedConcat([e], [e'], FlatSlots(b.slots), FlatSlots(slots), t, t0, t1);
    MintedConcat([e] + FlatSlots(b.slots), [e'] + FlatSlots(slots), FlatBlocks(b.children), FlatBlocks(children), t, t1, t2);
  }

  lemma {:induction false} MintSlotsNumbers(ss: seq<SlotNode>, t: Tally)
    ensures var (r, t') := MintSlots(ss, t);
      MintedFrom(FlatSlots(ss), FlatSlots(r), t, t')
    decreases ss
  {
    if ss != [] {
      var (s, t1) := MintSlot(ss[0], t);
      var (rest, t2) := MintSlots(ss[1..], t1);
      MintSlotNumbers(ss[0], t);
      MintSlotsNumbers(ss[1..], t1);
      MintedConcat(FlatSlot(ss[0]), FlatSlot(s), FlatSlots(ss[1..]), FlatSlots(rest), t, t1, t2);
      assert ([s] + rest)[0] == s && ([s] + rest)[1..] == rest;
    }
  }

  lemma {:induction false} MintSlotNumbers(s: SlotNode, t: Tally)
    ensures var (s', t') := MintSlot(s, t);
      MintedFrom(FlatSlot(s), FlatSlot(s'), t, t')
    decreases s
  {
    var t0 := Tally(t.blockIndex, t.slotIndex + 1, t.totalBlocks, t.totalSlots + 1);
    var (childSlots, t1) := MintSlots(s.childSlots, t0);
    var (children, t2) := MintBlocks(s.children, t1);
    MintSlotsNumbers(s.childSlots, t0);
    MintBlocksNumbers(s.children, t1);
    var id := Some(SlotIdPrefix + Decimal(t.slotIndex));
    var e, e' := Entry(SlotKind, s.element, s.name, s.id), Entry(SlotKind, s.element, s.name, id);
    MintedSlotEntry(e, t);
    MintedConcat([e], [e'], FlatSlots(s.childSlots), FlatSlots(childSlots), t, t0, t1);
    MintedConcat([e] + FlatSlots(s.childSlots), [e'] + FlatSlots(childSlots), FlatBlocks(s.children), FlatBlocks(children), t, t1, t2);
  }

  lemma NumberedTail(prefix: string, start: nat, n: nat)
    requires n > 0
    ensures Numbered(prefix, start, n)[0] == Some(prefix + Decimal(start))
    ensures Numbered(prefix, start, n)[1..] == Numbered(prefix, start + 1, n - 1)
  {
  }

  /** The ids of a non-empty traversal: its first entry's, then the rest's. */
  lemma IdsOfCons(es: seq<Entry>, k: Kind)
    requires es != []
    ensures IdsOf(es, k) == (if es[0].kind == k then [es[0].id] else []) + IdsOf(es[1..], k)
  {
  }

  /** An id `prefix + n` differs from every id of a numbering that starts
      after `n`, and from every id with the other prefix. */
  lemma FreshAgainst(p: string, n: nat, q: string, later: nat, m: nat, y: Option<string>)
    requires p == BlockIdPrefix || p == SlotIdPrefix
    requires q == BlockIdPrefix || q == SlotIdPrefix
    requires y in Numbered(q, later, m)
    requires p == q ==> n < later
    ensures y != Some(p + Decimal(n))
  {
    var k :| 0 <= k < m && Numbered(q, later, m)[k] == y;
    var a, b := p + Decimal(n), q + Decimal(later + k);
    assert a[0] == p[0] && b[0] == q[0];
    if p == q && a == b {
      PrefixedDecimalInjective(p, n, later + k);
    }
  }

  /** Numbered block ids and numbered slot ids in one traversal: every
      entry has an id and no two entries share one. */
  lemma {:induction false} NumberedIdsDistinct(es: seq<Entry>, sb: nat, ss: nat)
    requires IdsOf(es, BlockKind) == Numbered(BlockIdPrefix, sb, |IdsOf(es, BlockKind)|)
    requires IdsOf(es, SlotKind) == Numbered(SlotIdPrefix, ss, |IdsOf(es, SlotKind)|)
    ensures forall i :: 0 <= i < |es| ==> es[i].id.Some?
    ensures forall i, j :: 0 <= i < j < |es| ==> es[i].id != es[j].id
    decreases |es|
  {
    if es != [] {
      var e, rest := es[0], es[1..];
      var nb, ns := |IdsOf(es, BlockKind)|, |IdsOf(es, SlotKind)|;
      IdsOfCons(es, BlockKind);
      IdsOfCons(es, SlotKind);
      var p, n0 := if e.kind == BlockKind then BlockIdPrefix else SlotIdPrefix, if e.kind == BlockKind then sb else ss;
      var sb', ss' := if e.kind == BlockKind then sb + 1 else sb, if e.kind == SlotKind then ss + 1 else ss;
      if e.kind == BlockKind {
        NumberedTail(BlockIdPrefix, sb, nb);
      } else {
        NumberedTail(SlotIdPrefix, ss, ns);
      }
      assert e.id == Some(p + Decimal(n0));
      NumberedIdsDistinct(rest, sb', ss');
      forall j | 1 <= j < |es|
        ensures e.id != es[j].id
      {
        var x := rest[j - 1];
        IdsOfHas(rest, j - 1);
        if x.kind == BlockKind {
          FreshAgainst(p, n0, BlockIdPrefix, sb', |IdsOf(rest, BlockKind)|, x.id);
        } else {
          FreshAgainst(p, n0, SlotIdPrefix, ss', |IdsOf(rest, SlotKind)|, x.id);
        }
      }
      forall i, j | 0 <= i < j < |es|
        ensures es[i].id != es[j].id
      {
        if i > 0 {
          assert es[i] == rest[i - 1] && es[j] == rest[j - 1];
        }
      }
      forall i | 0 <= i < |es|
        ensures es[i].id.Some?
      {
        if i > 0 {
          assert es[i] == rest[i - 1];
        }
      }
    }
  }

  // ---------------------------------------------------------------------
  // No slot attached twice
  // ---------------------------------------------------------------------

  /** No two slot entries of a traversal share an element. */
  ghost predicate SlotsOnce(es: seq<Entry>)
  {
    forall i, j :: 0 <= i < j < |es| && es[i].kind == SlotKind && es[j].kind == SlotKind ==>
      es[i].element != es[j].element
  }

  /** The slot entries of a traversal are distinct elements, each of which
      joined processedSlots between `s0` and `s1`. */
  ghost predicate SlotsClaimed(es: seq<Entry>, s0: set<nat>, s1: set<nat>)
  {
    && SlotsOnce(es)
    && (forall i :: 0 <= i < |es| && es[i].kind == SlotKind ==> es[i].element in s1 - s0)
  }

  lemma SlotsClaimedConcat(a: seq<Entry>, b: seq<Entry>, s0: set<nat>, s1: set<nat>, s2: set<nat>, s3: set<nat>)
    requires SlotsClaimed(a, s0, s1) && SlotsClaimed(b, s2, s3) && s0 <= s1 <= s2 <= s3
    ensures SlotsClaimed(a + b, s0, s3)
  {
    var ab := a + b;
    forall i, j | 0 <= i < j < |ab| && ab[i].kind == SlotKind && ab[j].kind == SlotKind
      ensures ab[i].element != ab[j].element
    {
      if j < |a| {
        assert ab[i] == a[i] && ab[j] == a[j];
      } else if i >= |a| {
        assert ab[i] == b[i - |a|] && ab[j] == b[j - |a|];
      } else {
        assert ab[i] == a[i] && ab[j] == b[j - |a|];
      }
    }
    forall i | 0 <= i < |ab| && ab[i].kind == SlotKind
      ensures ab[i].element in s3 - s0
    {
      if i < |a| {
        assert ab[i] == a[i];
      } else {
        assert ab[i] == b[i - |a|];
      }
    }
  }

  /** The forEach over the blocks in buildSlotTree marks blocks only. */
  lemma {:induction false} NestedScanKeepsSlots(sc: Scan, m: Marks, slotEl: nat, blockEl: nat, ab: seq<nat>)
    requires ScanOk(sc) && forall i :: 0 <= i < |ab| ==> IsBlock(sc.h, ab[i])
    ensures NestedScan(sc, m, slotEl, blockEl, ab).1.slots == m.slots
    decreases |ab|
  {
    if ab != [] {
      NestedScanKeepsSlots(sc, m, slotEl, blockEl, ab[..|ab| - 1]);
    }
  }

  /** The forEach over the blocks in getDirectChildBlocks marks blocks only. */
  lemma {:induction false} ChildBlockScanKeepsSlots(sc: Scan, m: Marks, parentEl: nat, ab: seq<nat>)
    requires ScanOk(sc) && forall i :: 0 <= i < |ab| ==> IsBlock(sc.h, ab[i])
    ensures ChildBlockScan(sc, m, parentEl, ab).1.slots == m.slots
    decreases |ab|
  {
    if ab != [] {
      ChildBlockScanKeepsSlots(sc, m, parentEl, ab[..|ab| - 1]);
    }
  }

  /** buildSlotTree attaches each slot it returns exactly once, each one
      newly processed. */
  lemma {:induction false} SlotTreeClaims(sc: Scan, m: Marks, slotEl: nat, blockEl: nat)
    requires ScanOk(sc) && slotEl < |sc.h.nodes|
    ensures var (r, m') := SlotTree(sc, m, slotEl, blockEl);
      m.slots <= m'.slots && (r.Some? ==> SlotsClaimed(FlatSlot(r.value), m.slots, m'.slots))
    decreases |sc.h.nodes| - slotEl, 4, 0
  {
    if slotEl !in m.slots && IsElementVisible(sc.h, slotEl, None, sc.show) {
      var m0 := Marks(m.slots + {slotEl}, m.blocks);
      var els := ChildSlotEls(sc.h, m0.slots, slotEl, blockEl);
      ChildSlotElsBelow(sc.h, m0.slots, slotEl, blockEl);
      var (childSlots, m1) := ChildSlots(sc, m0, slotEl, blockEl, els);
      ChildSlotsClaims(sc, m0, slotEl, blockEl, els);
      var (found, m2) := NestedScan(sc, m1, slotEl, blockEl, sc.all);
      NestedScanKeepsSlots(sc, m1, slotEl, blockEl, sc.all);
      var (nested, m3) := NestedBlocks(sc, m2, slotEl, found);
      NestedBlocksClaims(sc, m2, slotEl, found);
      var e := Entry(SlotKind, slotEl, SlotName(sc.h, slotEl), None);
      assert SlotsClaimed([e], m.slots, m0.slots);
      SlotsClaimedConcat([e], FlatSlots(childSlots), m.slots, m0.slots, m0.slots, m1.slots);
      SlotsClaimedConcat([e] + FlatSlots(childSlots), FlatBlocks(nested), m.slots, m1.slots, m2.slots, m3.slots);
    }
  }

  lemma {:induction false} ChildSlotsClaims(sc: Scan, m: Marks, slotEl: nat, blockEl: nat, els: seq<nat>)
    requires ScanOk(sc) && slotEl < |sc.h.nodes|
    requires forall i :: 0 <= i < |els| ==> slotEl < els[i] < |sc.h.nodes|
    ensures var (r, m') := ChildSlots(sc, m, slotEl, blockEl, els);
      m.slots <= m'.slots && SlotsClaimed(FlatSlots(r), m.slots, m'.slots)
    decreases |sc.h.nodes| - slotEl, 3, |els|
  {
    if els != [] {
      var init, c := els[..|els| - 1], els[|els| - 1];
      ChildSlotsClaims(sc, m, slotEl, blockEl, init);
      var (prev, m1) := ChildSlots(sc, m, slotEl, blockEl, init);
      SlotTreeClaims(sc, m1, c, blockEl);
      var (t, m2) := SlotTree(sc, m1, c, blockEl);
      if t.Some? {
        FlatSlotsSnoc(prev, t.value);
        SlotsClaimedConcat(FlatSlots(prev), FlatSlot(t.value), m.slots, m1.slots, m1.slots, m2.slots);
      } else {
        assert prev + [] == prev;
      }
    }
  }

  lemma {:induction false} NestedBlocksClaims(sc: Scan, m: Marks, slotEl: nat, found: seq<nat>)
    requires ScanOk(sc) && slotEl < |sc.h.nodes|
    requires forall i :: 0 <= i < |found| ==> IsBlock(sc.h, found[i]) && slotEl <= found[i]
    ensures var (r, m') := NestedBlocks(sc, m, slotEl, found);
      m.slots <= m'.slots && SlotsClaimed(FlatBlocks(r), m.slots, m'.slots)
    decreases |sc.h.nodes| - slotEl, 3, |found|
  {
    if found != [] {
      var init, e := found[..|found| - 1], found[|found| - 1];
      NestedBlocksClaims(sc, m, slotEl, init);
      var (prev, m1) := NestedBlocks(sc, m, slotEl, init);
      BlockTreeClaims(sc, m1, e, 0);
      var (b, m2) := BlockTree(sc, m1, e, 0);
      FlatBlocksSnoc(prev, b);
      SlotsClaimedConcat(FlatBlocks(prev), FlatBlock(b), m.slots, m1.slots, m1.slots, m2.slots);
    }
  }

  lemma {:induction false} BlockTreeClaims(sc: Scan, m: Marks, blockEl: nat, depth: nat)
    requires ScanOk(sc) && IsBlock(sc.h, blockEl)
    ensures var (r, m') := BlockTree(sc, m, blockEl, depth);
      m.slots <= m'.slots && SlotsClaimed(FlatBlock(r), m.slots, m'.slots)
    decreases |sc.h.nodes| - blockEl, 2, 0
  {
    var m0 := Marks(m.slots, m.blocks + {blockEl});
    var (slots, m1) := DirectSlotsOf(sc, m0, blockEl);
    DirectSlotsOfClaims(sc, m0, blockEl);
    var (childEls, m2) := ChildBlockScan(sc, m1, blockEl, sc.all);
    ChildBlockScanKeepsSlots(sc, m1, blockEl, sc.all);
    var (children, m3) := ChildBlocks(sc, m2, blockEl, depth, childEls);
    ChildBlocksClaims(sc, m2, blockEl, depth, childEls);
    var e := Entry(BlockKind, blockEl, BlockName(sc.h, blockEl), None);
    assert SlotsClaimed([e], m.slots, m.slots);
    SlotsClaimedConcat([e], FlatSlots(slots), m.slots, m.slots, m0.slots, m1.slots);
    SlotsClaimedConcat([e] + FlatSlots(slots), FlatBlocks(children), m.slots, m1.slots, m2.slots, m3.slots);
  }

  lemma {:induction false} DirectSlotsOfClaims(sc: Scan, m: Marks, blockEl: nat)
    requires ScanOk(sc) && blockEl < |sc.h.nodes|
    ensures var (r, m') := DirectSlotsOf(sc, m, blockEl);
      m.slots <= m'.slots && SlotsClaimed(FlatSlots(r), m.slots, m'.slots)
    decreases |sc.h.nodes| - blockEl, 1, 0
  {
    SelectedBelow(sc.h, blockEl, SlotSelector);
    DirectSlotsClaims(sc, m, blockEl, QuerySelectorAll(sc.h, blockEl, SlotSelector));
  }

  lemma {:induction false} DirectSlotsClaims(sc: Scan, m: Marks, blockEl: nat, cands: seq<nat>)
    requires ScanOk(sc) && blockEl < |sc.h.nodes|
    requires forall i :: 0 <= i < |cands| ==> blockEl < cands[i] < |sc.h.nodes|
    ensures var (r, m') := DirectSlots(sc, m, blockEl, cands);
      m.slots <= m'.slots && SlotsClaimed(FlatSlots(r), m.slots, m'.slots)
    decreases |sc.h.nodes| - blockEl, 0, |cands|
  {
    if cands != [] {
      var init, c := cands[..|cands| - 1], cands[|cands| - 1];
      DirectSlotsClaims(sc, m, blockEl, init);
      var (prev, m1) := DirectSlots(sc, m, blockEl, init);
      if KeepDirectSlot(sc.h, m1.slots, blockEl, c) {
        SlotTreeClaims(sc, m1, c, blockEl);
        var (t, m2) := SlotTree(sc, m1, c, blockEl);
        if t.Some? {
          FlatSlotsSnoc(prev, t.value);
          SlotsClaimedConcat(FlatSlots(prev), FlatSlot(t.value), m.slots, m1.slots, m1.slots, m2.slots);
        } else {
          assert prev + [] == prev;
        }
      }
    }
  }

  lemma {:induction false} ChildBlocksClaims(sc: Scan, m: Marks, parentEl: nat, depth: nat, els: seq<nat>)
    requires ScanOk(sc) && parentEl < |sc.h.nodes|
    requires forall i :: 0 <= i < |els| ==> IsBlock(sc.h, els[i]) && parentEl < els[i]
    ensures var (r, m') := ChildBlocks(sc, m, parentEl, depth, els);
      m.slots <= m'.slots && SlotsClaimed(FlatBlocks(r), m.slots, m'.slots)
    decreases |sc.h.nodes| - parentEl, 0, |els|
  {
    if els != [] {
      var init, e := els[..|els| - 1], els[|els| - 1];
      ChildBlocksClaims(sc, m, parentEl, depth, init);
      var (prev, m1) := ChildBlocks(sc, m, parentEl, depth, init);
      BlockTreeClaims(sc, m1, e, depth + 1);
      var (b, m2) := BlockTree(sc, m1, e, depth + 1);
      FlatBlocksSnoc(prev, b);
      SlotsClaimedConcat(FlatBlocks(prev), FlatBlock(b), m.slots, m1.slots, m1.slots, m2.slots);
    }
  }

  lemma {:induction false} TopBlocksClaims(sc: Scan, m: Marks, tops: seq<nat>)
    requires ScanOk(sc) && forall i :: 0 <= i < |tops| ==> IsBlock(sc.h, tops[i])
    ensures var (r, m') := TopBlocks(sc, m, tops);
      m.slots <= m'.slots && SlotsClaimed(FlatBlocks(r), m.slots, m'.slots)
    decreases |tops|
  {
    if tops != [] {
      var init, e := tops[..|tops| - 1], tops[|tops| - 1];
      TopBlocksClaims(sc, m, init);
      var (prev, m1) := TopBlocks(sc, m, init);
      BlockTreeClaims(sc, m1, e, 0);
      var (b, m2) := BlockTree(sc, m1, e, 0);
      FlatBlocksSnoc(prev, b);
      SlotsClaimedConcat(FlatBlocks(prev), FlatBlock(b), m.slots, m1.slots, m1.slots, m2.slots);
    }
  }

  lemma {:induction false} StandaloneClaims(sc: Scan, m: Marks, cands: seq<nat>)
    requires ScanOk(sc) && forall i :: 0 <= i < |cands| ==> cands[i] < |sc.h.nodes|
    ensures var (r, m') := Standalone(sc, m, cands);
      m.slots <= m'.slots && SlotsClaimed(FlatSlots(r), m.slots, m'.slots)
    decreases |cands|
  {
    if cands != [] {
      var init, c := cands[..|cands| - 1], cands[|cands| - 1];
      StandaloneClaims(sc, m, init);
      var (prev, m1) := Standalone(sc, m, init);
      if StandaloneVerdict(sc.h, sc.show, m1.slots, sc.all, c) == Take {
        var s := SlotNode(SlotName(sc.h, c), c, [], [], None);
        var m2 := Marks(m1.slots + {c}, m1.blocks);
        FlatSlotsSnoc(prev, s);
        assert FlatSlot(s) == [Entry(SlotKind, c, s.name, None)];
        SlotsClaimedConcat(FlatSlots(prev), FlatSlot(s), m.slots, m1.slots, m1.slots, m2.slots);
      }
    }
  }

  // ---------------------------------------------------------------------
  // scanEds
  // ---------------------------------------------------------------------

  /** The id pass of scanEds: block ids block-0, block-1, … and slot ids
      slot-0, slot-1, … in pre-order, counts.blocks and counts.slots are
      how many of each were stamped, and nothing but the ids differs
      from the trees the builders returned (the standalone container
      included). */
  lemma ScanIdsNumbered(h: Host, root: nat, show: bool)
    requires WellFormed(h)
    ensures var r := ScanEdsSpec(h, root, show);
      var es := FlatBlocks(r.blocks);
      var (blocks, standalone) := ScanForest(h, root, show);
      && IdsOf(es, BlockKind) == Numbered(BlockIdPrefix, 0, r.counts.blocks)
      && IdsOf(es, SlotKind) == Numbered(SlotIdPrefix, 0, r.counts.slots)
      && Bare(es) == Bare(FlatBlocks(WithContainer(h, blocks, standalone)))
  {
    var (blocks, standalone) := ScanForest(h, root, show);
    MintBlocksNumbers(WithContainer(h, blocks, standalone), Tally(0, 0, 0, 0));
  }

  /** Every block and slot scanEds returns carries an id, and no two
      share one. */
  lemma ScanIdsDistinct(h: Host, root: nat, show: bool)
    requires WellFormed(h)
    ensures var es := FlatBlocks(ScanEdsSpec(h, root, show).blocks);
      && (forall i :: 0 <= i < |es| ==> es[i].id.Some?)
      && (forall i, j :: 0 <= i < j < |es| ==> es[i].id != es[j].id)
  {
    var r := ScanEdsSpec(h, root, show);
    ScanIdsNumbered(h, root, show);
    NumberedIdsDistinct(FlatBlocks(r.blocks), 0, 0);
  }

  /** The builders and the standalone container never attach one slot
      element twice. */
  lemma ForestSlotsOnce(h: Host, root: nat, show: bool)
    requires WellFormed(h)
    ensures var (blocks, standalone) := ScanForest(h, root, show);
      SlotsOnce(FlatBlocks(WithContainer(h, blocks, standalone)))
  {
    var sc := Scan(h, root, show, QuerySelectorAll(h, root, BlockSelector));
    SelectedAreBlocks(h, root);
    TopsAreBlocks(h, root, show);
    var tops := TopLevelSpec(h, root, show);
    TopBlocksClaims(sc, Marks({}, {}), tops);
    var (blocks, m1) := TopBlocks(sc, Marks({}, {}), tops);
    SelectedBelow(h, root, SlotSelector);
    var cands := QuerySelectorAll(h, root, SlotSelector);
    StandaloneClaims(sc, m1, cands);
    var (standalone, m2) := Standalone(sc, m1, cands);
    if |standalone| > 0 {
      var c := BlockNode(StandaloneName, h.body, standalone, [], 0, None);
      FlatBlocksSnoc(blocks, c);
      var e := Entry(BlockKind, h.body, StandaloneName, None);
      assert FlatBlock(c) == [e] + FlatSlots(standalone) + FlatBlocks([]);
      assert FlatBlock(c) == [e] + FlatSlots(standalone);
      assert SlotsClaimed([e], m1.slots, m1.slots);
      SlotsClaimedConcat([e], FlatSlots(standalone), m1.slots, m1.slots, m1.slots, m2.slots);
      SlotsClaimedConcat(FlatBlocks(blocks), FlatBlock(c), {}, m1.slots, m1.slots, m2.slots);
    }
  }

  /** No slot element appears twice anywhere in what scanEds returns:
      not in two blocks, not under two slots, not both under a block and
      among the standalone slots. */
  lemma ScanSlotsOnce(h: Host, root: nat, show: bool)
    requires WellFormed(h)
    ensures var es := FlatBlocks(ScanEdsSpec(h, root, show).blocks);
      forall i, j :: 0 <= i < j < |es| && es[i].kind == SlotKind && es[j].kind == SlotKind ==>
        es[i].element != es[j].element
  {
    var (blocks, standalone) := ScanForest(h, root, show);
    ForestSlotsOnce(h, root, show);
    ScanIdsNumbered(h, root, show);
    var es := FlatBlocks(ScanEdsSpec(h, root, show).blocks);
    var es0 := FlatBlocks(WithContainer(h, blocks, standalone));
    forall i, j | 0 <= i < j < |es| && es[i].kind == SlotKind && es[j].kind == SlotKind
      ensures es[i].element != es[j].element
    {
      assert Bare(es)[i] == Bare(es0)[i] && Bare(es)[j] == Bare(es0)[j];
    }
  }

  // ---------------------------------------------------------------------
  // No block attached twice
  // ---------------------------------------------------------------------

  /** No two block entries of a traversal share an element. */
  ghost predicate BlocksOnce(es: seq<Entry>)
  {
    forall i, j :: 0 <= i < j < |es| && es[i].kind == BlockKind && es[j].kind == BlockKind ==>
      es[i].element != es[j].element
  }

  /** The block entries of a traversal are distinct elements, each of
      which joined processedBlocks between `b0` and `b1`. */
  ghost predicate BlocksClaimed(es: seq<Entry>, b0: set<nat>, b1: set<nat>)
  {
    && BlocksOnce(es)
    && (forall i :: 0 <= i < |es| && es[i].kind == BlockKind ==> es[i].element in b1 - b0)
  }

  lemma BlocksClaimedConcat(a: seq<Entry>, b: seq<Entry>, s0: set<nat>, s1: set<nat>, s2: set<nat>, s3: set<nat>)
    requires BlocksClaimed(a, s0, s1) && BlocksClaimed(b, s2, s3) && s0 <= s1 <= s2 <= s3
    ensures BlocksClaimed(a + b, s0, s3)
  {
    var ab := a + b;
    forall i, j | 0 <= i < j < |ab| && ab[i].kind == BlockKind && ab[j].kind == BlockKind
      ensures ab[i].element != ab[j].element
    {
      if j < |a| {
        assert ab[i] == a[i] && ab[j] == a[j];
      } else if i >= |a| {
        assert ab[i] == b[i - |a|] && ab[j] == b[j - |a|];
      } else {
        assert ab[i] == a[i] && ab[j] == b[j - |a|];
      }
    }
    forall i | 0 <= i < |ab| && ab[i].kind == BlockKind
      ensures ab[i].element in s3 - s0
    {
      if i < |a| {
        assert ab[i] == a[i];
      } else {
        assert ab[i] == b[i - |a|];
      }
    }
  }

  /** No element of `els` lies inside another one of them. */
  ghost predicate Unnested(h: Host, els: seq<nat>)
    requires WellFormed(h)
  {
    forall i, j :: 0 <= i < |els| && 0 <= j < |els| && i != j && els[j] < |h.nodes| ==> !Contains(h, els[i], els[j])
  }

  /** `e` lies inside no element of `els`. */
  ghost predicate NotInside(h: Host, els: seq<nat>, e: nat)
    requires WellFormed(h) && e < |h.nodes|
  {
    forall i :: 0 <= i < |els| ==> !Contains(h, els[i], e)
  }

  /** The last of a list of unnested elements lies inside none of the
      others, and the others are unnested. */
  lemma UnnestedInit(h: Host, els: seq<nat>)
    requires WellFormed(h) && Unnested(h, els) && els != [] && els[|els| - 1] < |h.nodes|
    ensures Unnested(h, els[..|els| - 1]) && NotInside(h, els[..|els| - 1], els[|els| - 1])
  {
    var init, e := els[..|els| - 1], els[|els| - 1];
    forall i, j | 0 <= i < |init| && 0 <= j < |init| && i != j && init[j] < |h.nodes|
      ensures !Contains(h, init[i], init[j])
    {
      assert init[i] == els[i] && init[j] == els[j];
    }
    forall i | 0 <= i < |init|
      ensures !Contains(h, init[i], e)
    {
      assert init[i] == els[i];
    }
  }

  /** A block that was not processed and lies inside none of the blocks
      built since is still not processed. */
  lemma StillFresh(h: Host, m: Marks, m': Marks, init: seq<nat>, e: nat)
    requires WellFormed(h) && e < |h.nodes| && e !in m.blocks && AddedWithinSome(h, m, m', init)
    requires NotInside(h, init, e)
    ensures e !in m'.blocks
  {
    assert e !in (m'.slots - m.slots) + (m'.blocks - m.blocks);
  }

  /** Blocks that share their nearest block are unnested. */
  lemma SiblingsUnnested(h: Host, els: seq<nat>, p: Option<nat>)
    requires WellFormed(h)
    requires forall i :: 0 <= i < |els| ==> IsBlock(h, els[i]) && ParentBlockOf(h, els[i]) == p
    requires StrictlyIncreasing(els)
    ensures Unnested(h, els)
  {
    forall i, j | 0 <= i < |els| && 0 <= j < |els| && i != j && els[j] < |h.nodes|
      ensures !Contains(h, els[i], els[j])
    {
      SiblingBlocksNotNested(h, els[i], els[j]);
    }
  }

  /** buildSlotTree attaches each block it returns exactly once, each one
      newly processed. */
  lemma {:induction false} SlotTreeBlocks(sc: Scan, m: Marks, slotEl: nat, blockEl: nat)
    requires ScanFine(sc) && slotEl < |sc.h.nodes|
    requires IsBlock(sc.h, blockEl) && ProperAncestor(sc.h, blockEl, slotEl)
    ensures var (r, m') := SlotTree(sc, m, slotEl, blockEl);
      m.blocks <= m'.blocks && (r.Some? ==> BlocksClaimed(FlatSlot(r.value), m.blocks, m'.blocks))
    decreases |sc.h.nodes| - slotEl, 5, 0
  {
    var h := sc.h;
    if slotEl !in m.slots && IsElementVisible(h, slotEl, None, sc.show) {
      var m0 := Marks(m.slots + {slotEl}, m.blocks);
      var els := ChildSlotEls(h, m0.slots, slotEl, blockEl);
      ChildSlotElsFacts(h, m0.slots, slotEl, blockEl);
      var (childSlots, m1) := ChildSlots(sc, m0, slotEl, blockEl, els);
      ChildSlotsBlocks(sc, m0, slotEl, blockEl, els);
      var (found, m2) := NestedScan(sc, m1, slotEl, blockEl, sc.all);
      var (nested, m3) := NestedBlocks(sc, m2, slotEl, found);
      SlotNestedBlocks(sc, m1, slotEl, blockEl);
      var e := Entry(SlotKind, slotEl, SlotName(h, slotEl), None);
      assert BlocksClaimed([e], m.blocks, m0.blocks);
      BlocksClaimedConcat([e], FlatSlots(childSlots), m.blocks, m0.blocks, m0.blocks, m1.blocks);
      BlocksClaimedConcat([e] + FlatSlots(childSlots), FlatBlocks(nested), m.blocks, m1.blocks, m1.blocks, m3.blocks);
    }
  }

  /** The blocks nested in a slot, found and then built, are claimed by
      that step alone. */
  lemma {:induction false} SlotNestedBlocks(sc: Scan, m: Marks, slotEl: nat, blockEl: nat)
    requires ScanFine(sc) && slotEl < |sc.h.nodes|
    requires IsBlock(sc.h, blockEl) && ProperAncestor(sc.h, blockEl, slotEl)
    ensures var (found, m2) := NestedScan(sc, m, slotEl, blockEl, sc.all);
      var (nested, m3) := NestedBlocks(sc, m2, slotEl, found);
      m.blocks <= m3.blocks && BlocksClaimed(FlatBlocks(nested), m.blocks, m3.blocks)
    decreases |sc.h.nodes| - slotEl, 4, 0
  {
    var h := sc.h;
    var (found, m2) := NestedScan(sc, m, slotEl, blockEl, sc.all);
    NestedScanFacts(sc, m, slotEl, blockEl);
    forall i | 0 <= i < |found|
      ensures IsBlock(h, found[i]) && ParentBlockOf(h, found[i]) == Some(blockEl)
    {
      NestedParentIsBlock(h, found[i], slotEl, blockEl);
    }
    SiblingsUnnested(h, found, Some(blockEl));
    var (nested, m3) := NestedBlocks(sc, m2, slotEl, found);
    NestedBlocksBlocks(sc, m2, slotEl, found);
    assert BlocksClaimed(FlatBlocks(nested), m2.blocks, m3.blocks);
  }

  lemma {:induction false} ChildSlotsBlocks(sc: Scan, m: Marks, slotEl: nat, blockEl: nat, els: seq<nat>)
    requires ScanFine(sc) && slotEl < |sc.h.nodes|
    requires IsBlock(sc.h, blockEl) && ProperAncestor(sc.h, blockEl, slotEl)
    requires forall i :: 0 <= i < |els| ==> slotEl < els[i] < |sc.h.nodes| && ChildSlotOf(sc.h, els[i], slotEl, blockEl)
    ensures var (r, m') := ChildSlots(sc, m, slotEl, blockEl, els);
      m.blocks <= m'.blocks && BlocksClaimed(FlatSlots(r), m.blocks, m'.blocks)
    decreases |sc.h.nodes| - slotEl, 3, |els|
  {
    if els != [] {
      var init, c := els[..|els| - 1], els[|els| - 1];
      ChildSlotsBlocks(sc, m, slotEl, blockEl, init);
      var (prev, m1) := ChildSlots(sc, m, slotEl, blockEl, init);
      assert ProperAncestor(sc.h, blockEl, c) by {
        assert Contains(sc.h, blockEl, slotEl);
        ContainsThenProperAncestor(sc.h, blockEl, slotEl, c);
      }
      SlotTreeBlocks(sc, m1, c, blockEl);
      var (t, m2) := SlotTree(sc, m1, c, blockEl);
      if t.Some? {
        FlatSlotsSnoc(prev, t.value);
        BlocksClaimedConcat(FlatSlots(prev), FlatSlot(t.value), m.blocks, m1.blocks, m1.blocks, m2.blocks);
      } else {
        assert prev + [] == prev;
      }
    }
  }

  lemma {:induction false} NestedBlocksBlocks(sc: Scan, m: Marks, slotEl: nat, found: seq<nat>)
    requires ScanFine(sc) && slotEl < |sc.h.nodes|
    requires forall i :: 0 <= i < |found| ==> IsBlock(sc.h, found[i]) && slotEl <= found[i] && found[i] !in m.blocks
    requires Unnested(sc.h, found)
    ensures var (r, m') := NestedBlocks(sc, m, slotEl, found);
      m.blocks <= m'.blocks && BlocksClaimed(FlatBlocks(r), m.blocks, m'.blocks)
    decreases |sc.h.nodes| - slotEl, 3, |found|
  {
    if found != [] {
      var init, e := found[..|found| - 1], found[|found| - 1];
      UnnestedInit(sc.h, found);
      NestedBlocksBlocks(sc, m, slotEl, init);
      var (prev, m1) := NestedBlocks(sc, m, slotEl, init);
      NestedBlocksFrame(sc, m, slotEl, init);
      StillFresh(sc.h, m, m1, init, e);
      BlockTreeBlocks(sc, m1, e, 0);
      var (b, m2) := BlockTree(sc, m1, e, 0);
      FlatBlocksSnoc(prev, b);
      BlocksClaimedConcat(FlatBlocks(prev), FlatBlock(b), m.blocks, m1.blocks, m1.blocks, m2.blocks);
    }
  }

  /** buildBlockTree on a block not yet processed attaches each block of
      its tree exactly once, each one newly processed. */
  lemma {:induction false} BlockTreeBlocks(sc: Scan, m: Marks, blockEl: nat, depth: nat)
    requires ScanFine(sc) && IsBlock(sc.h, blockEl) && blockEl !in m.blocks
    ensures var (r, m') := BlockTree(sc, m, blockEl, depth);
      m.blocks <= m'.blocks && BlocksClaimed(FlatBlock(r), m.blocks, m'.blocks)
    decreases |sc.h.nodes| - blockEl, 2, 0
  {
    var h := sc.h;
    var m0 := Marks(m.slots, m.blocks + {blockEl});
    var (slots, m1) := DirectSlotsOf(sc, m0, blockEl);
    DirectSlotsOfBlocks(sc, m0, blockEl);
    var (childEls, m2) := ChildBlockScan(sc, m1, blockEl, sc.all);
    ChildBlockScanFacts(sc, m1, blockEl);
    SiblingsUnnested(h, childEls, Some(blockEl));
    var (children, m3) := ChildBlocks(sc, m2, blockEl, depth, childEls);
    ChildBlocksBlocks(sc, m2, blockEl, depth, childEls);
    var e := Entry(BlockKind, blockEl, BlockName(h, blockEl), None);
    assert BlocksClaimed([e], m.blocks, m0.blocks);
    BlocksClaimedConcat([e], FlatSlots(slots), m.blocks, m0.blocks, m0.blocks, m1.blocks);
    BlocksClaimedConcat([e] + FlatSlots(slots), FlatBlocks(children), m.blocks, m1.blocks, m2.blocks, m3.blocks);
  }

  lemma DirectSlotsOfBlocks(sc: Scan, m: Marks, blockEl: nat)
    requires ScanFine(sc) && IsBlock(sc.h, blockEl)
    ensures var (r, m') := DirectSlotsOf(sc, m, blockEl);
      m.blocks <= m'.blocks && BlocksClaimed(FlatSlots(r), m.blocks, m'.blocks)
    decreases |sc.h.nodes| - blockEl, 1, 0
  {
    SelectedBelow(sc.h, blockEl, SlotSelector);
    DirectSlotsBlocks(sc, m, blockEl, QuerySelectorAll(sc.h, blockEl, SlotSelector));
  }

  lemma {:induction false} DirectSlotsBlocks(sc: Scan, m: Marks, blockEl: nat, cands: seq<nat>)
    requires ScanFine(sc) && IsBlock(sc.h, blockEl)
    requires forall i :: 0 <= i < |cands| ==> blockEl < cands[i] < |sc.h.nodes| && ProperAncestor(sc.h, blockEl, cands[i])
    ensures var (r, m') := DirectSlots(sc, m, blockEl, cands);
      m.blocks <= m'.blocks && BlocksClaimed(FlatSlots(r), m.blocks, m'.blocks)
    decreases |sc.h.nodes| - blockEl, 0, |cands|
  {
    if cands != [] {
      var init, c := cands[..|cands| - 1], cands[|cands| - 1];
      DirectSlotsBlocks(sc, m, blockEl, init);
      var (prev, m1) := DirectSlots(sc, m, blockEl, init);
      if KeepDirectSlot(sc.h, m1.slots, blockEl, c) {
        SlotTreeBlocks(sc, m1, c, blockEl);
        var (t, m2) := SlotTree(sc, m1, c, blockEl);
        if t.Some? {
          FlatSlotsSnoc(prev, t.value);
          BlocksClaimedConcat(FlatSlots(prev), FlatSlot(t.value), m.blocks, m1.blocks, m1.blocks, m2.blocks);
        } else {
          assert prev + [] == prev;
        }
      }
    }
  }

  lemma {:induction false} ChildBlocksBlocks(sc: Scan, m: Marks, parentEl: nat, depth: nat, els: seq<nat>)
    requires ScanFine(sc) && parentEl < |sc.h.nodes|
    requires forall i :: 0 <= i < |els| ==> IsBlock(sc.h, els[i]) && parentEl < els[i] && els[i] !in m.blocks
    requires Unnested(sc.h, els)
    ensures var (r, m') := ChildBlocks(sc, m, parentEl, depth, els);
      m.blocks <= m'.blocks && BlocksClaimed(FlatBlocks(r), m.blocks, m'.blocks)
    decreases |sc.h.nodes| - parentEl, 0, |els|
  {
    if els != [] {
      var init, e := els[..|els| - 1], els[|els| - 1];
      UnnestedInit(sc.h, els);
      ChildBlocksBlocks(sc, m, parentEl, depth, init);
      var (prev, m1) := ChildBlocks(sc, m, parentEl, depth, init);
      ChildBlocksFrame(sc, m, parentEl, depth, init);
      StillFresh(sc.h, m, m1, init, e);
      BlockTreeBlocks(sc, m1, e, depth + 1);
      var (b, m2) := BlockTree(sc, m1, e, depth + 1);
      FlatBlocksSnoc(prev, b);
      BlocksClaimedConcat(FlatBlocks(prev), FlatBlock(b), m.blocks, m1.blocks, m1.blocks, m2.blocks);
    }
  }

  lemma {:induction false} TopBlocksBlocks(sc: Scan, m: Marks, tops: seq<nat>)
    requires ScanFine(sc)
    requires forall i :: 0 <= i < |tops| ==> IsBlock(sc.h, tops[i]) && tops[i] !in m.blocks
    requires Unnested(sc.h, tops)
    ensures var (r, m') := TopBlocks(sc, m, tops);
      m.blocks <= m'.blocks && BlocksClaimed(FlatBlocks(r), m.blocks, m'.blocks)
    decreases |tops|
  {
    if tops != [] {
      var init, e := tops[..|tops| - 1], tops[|tops| - 1];
      UnnestedInit(sc.h, tops);
      TopBlocksBlocks(sc, m, init);
      var (prev, m1) := TopBlocks(sc, m, init);
      TopBlocksFrame(sc, m, init);
      StillFresh(sc.h, m, m1, init, e);
      BlockTreeBlocks(sc, m1, e, 0);
      var (b, m2) := BlockTree(sc, m1, e, 0);
      FlatBlocksSnoc(prev, b);
      BlocksClaimedConcat(FlatBlocks(prev), FlatBlock(b), m.blocks, m1.blocks, m1.blocks, m2.blocks);
    }
  }

  /** No entry of a traversal is a block. */
  ghost predicate NoBlocks(es: seq<Entry>)
  {
    forall i :: 0 <= i < |es| ==> es[i].kind == SlotKind
  }

  /** The standalone slots are leaves: their traversal holds no block. */
  lemma {:induction false} StandaloneHasNoBlocks(sc: Scan, m: Marks, cands: seq<nat>)
    requires ScanOk(sc) && forall i :: 0 <= i < |cands| ==> cands[i] < |sc.h.nodes|
    ensures NoBlocks(FlatSlots(Standalone(sc, m, cands).0))
    decreases |cands|
  {
    if cands != [] {
      var init, c := cands[..|cands| - 1], cands[|cands| - 1];
      StandaloneHasNoBlocks(sc, m, init);
      var (prev, m1) := Standalone(sc, m, init);
      if StandaloneVerdict(sc.h, sc.show, m1.slots, sc.all, c) == Take {
        var s := SlotNode(SlotName(sc.h, c), c, [], [], None);
        assert Standalone(sc, m, cands).0 == prev + [s];
        FlatSlotsSnoc(prev, s);
        assert FlatSlot(s) == [Entry(SlotKind, c, s.name, None)];
        var fs := FlatSlots(prev) + FlatSlot(s);
        forall i | 0 <= i < |fs|
          ensures fs[i].kind == SlotKind
        {
          if i < |FlatSlots(prev)| {
            assert fs[i] == FlatSlots(prev)[i];
          }
        }
      } else {
        assert Standalone(sc, m, cands).0 == prev;
      }
    }
  }

  /** The top-level blocks lie inside none of each other. */
  lemma TopsUnnested(h: Host, root: nat, show: bool)
    requires WellFormed(h)
    ensures Unnested(h, TopLevelSpec(h, root, show))
  {
    var tops := TopLevelSpec(h, root, show);
    TopLevelSpecIff(h, root, show);
    forall i | 0 <= i < |tops|
      ensures IsBlock(h, tops[i]) && ParentBlockOf(h, tops[i]) == None
    {
      assert tops[i] in tops;
    }
    SiblingsUnnested(h, tops, None);
  }

  /** The builders never attach one block element twice: a block nested
      in a slot is not also a child of the slot's block, and no block
      appears under two parents. */
  lemma ForestBlocksOnce(h: Host, root: nat, show: bool)
    requires WellFormed(h)
    ensures BlocksOnce(FlatBlocks(ScanForest(h, root, show).0))
  {
    var sc := Scan(h, root, show, QuerySelectorAll(h, root, BlockSelector));
    RootScanFine(h, root, show);
    TopsAreBlocks(h, root, show);
    TopsUnnested(h, root, show);
    TopBlocksBlocks(sc, Marks({}, {}), TopLevelSpec(h, root, show));
  }

  lemma NoBlocksClaimed(es: seq<Entry>, b: set<nat>)
    requires NoBlocks(es)
    ensures BlocksClaimed(es, b, b)
  {
  }

  /** The container's own traversal: one new block, the body, then slots. */
  lemma ContainerClaims(h: Host, standalone: seq<SlotNode>, b1: set<nat>)
    requires h.body !in b1 && NoBlocks(FlatSlots(standalone))
    ensures BlocksClaimed(FlatBlock(BlockNode(StandaloneName, h.body, standalone, [], 0, None)), b1, b1 + {h.body})
  {
    var c := BlockNode(StandaloneName, h.body, standalone, [], 0, None);
    var e := Entry(BlockKind, h.body, StandaloneName, None);
    assert FlatBlock(c) == [e] + FlatSlots(standalone) + FlatBlocks([]);
    assert FlatBlock(c) == [e] + FlatSlots(standalone);
    var s1 := b1 + {h.body};
    assert BlocksClaimed([e], b1, s1);
    NoBlocksClaimed(FlatSlots(standalone), s1);
    BlocksClaimedConcat([e], FlatSlots(standalone), b1, s1, s1, s1);
  }

  /** Appending the standalone container keeps block elements distinct
      when the body, its element, is not among the blocks built. */
  lemma ContainerBlocksOnce(h: Host, blocks: seq<BlockNode>, standalone: seq<SlotNode>, b1: set<nat>)
    requires BlocksClaimed(FlatBlocks(blocks), {}, b1) && h.body !in b1 && NoBlocks(FlatSlots(standalone))
    ensures BlocksOnce(FlatBlocks(WithContainer(h, blocks, standalone)))
  {
    if |standalone| > 0 {
      var c := BlockNode(StandaloneName, h.body, standalone, [], 0, None);
      FlatBlocksSnoc(blocks, c);
      ContainerClaims(h, standalone, b1);
      BlocksClaimedConcat(FlatBlocks(blocks), FlatBlock(c), {}, b1, b1, b1 + {h.body});
    }
  }

  /** Stamping ids changes no entry's kind or element. */
  lemma BareKeepsBlocksOnce(es: seq<Entry>, es0: seq<Entry>)
    requires Bare(es) == Bare(es0) && BlocksOnce(es0)
    ensures BlocksOnce(es)
  {
    forall i, j | 0 <= i < j < |es| && es[i].kind == BlockKind && es[j].kind == BlockKind
      ensures es[i].element != es[j].element
    {
      assert Bare(es)[i] == Bare(es0)[i] && Bare(es)[j] == Bare(es0)[j];
    }
  }

  /** Builders started with no marks that mark only inside blocks below
      the root never mark the root itself. */
  lemma RootNotMarked(h: Host, root: nat, m': Marks, tops: seq<nat>)
    requires WellFormed(h) && AddedWithinSome(h, Marks({}, {}), m', tops)
    requires forall i :: 0 <= i < |tops| ==> tops[i] < |h.nodes| && ProperAncestor(h, root, tops[i])
    ensures root !in m'.blocks
  {
    forall x | x in m'.blocks
      ensures x != root
    {
      assert x in (m'.slots - {}) + (m'.blocks - {});
      var i :| 0 <= i < |tops| && Contains(h, tops[i], x);
      ProperAncestorThenContains(h, root, tops[i], x);
      ProperAncestorOrdered(h, root, x);
    }
  }

  /** When scanEds runs on the document body, as the panel does, no block
      element appears twice anywhere in what it returns, the standalone
      container included. */
  lemma ScanBlocksOnce(h: Host, show: bool)
    requires WellFormed(h)
    ensures BlocksOnce(FlatBlocks(ScanEdsSpec(h, h.body, show).blocks))
  {
    var root := h.body;
    var sc := Scan(h, root, show, QuerySelectorAll(h, root, BlockSelector));
    RootScanFine(h, root, show);
    TopsAreBlocks(h, root, show);
    TopsUnnested(h, root, show);
    var tops := TopLevelSpec(h, root, show);
    TopBlocksBlocks(sc, Marks({}, {}), tops);
    TopBlocksFrame(sc, Marks({}, {}), tops);
    var (blocks, m1) := TopBlocks(sc, Marks({}, {}), tops);
    TopLevelSpecIff(h, root, show);
    forall i | 0 <= i < |tops|
      ensures tops[i] < |h.nodes| && ProperAncestor(h, root, tops[i])
    {
      assert tops[i] in tops;
    }
    RootNotMarked(h, root, m1, tops);
    SelectedBelow(h, root, SlotSelector);
    var cands := QuerySelectorAll(h, root, SlotSelector);
    StandaloneHasNoBlocks(sc, m1, cands);
    var standalone := Standalone(sc, m1, cands).0;
    ContainerBlocksOnce(h, blocks, standalone, m1.blocks);
    ScanIdsNumbered(h, root, show);
    BareKeepsBlocksOnce(FlatBlocks(ScanEdsSpec(h, root, show).blocks), FlatBlocks(WithContainer(h, blocks, standalone)));
  }

  // ---------------------------------------------------------------------
  // Roots, standalone slots and their container
  // ---------------------------------------------------------------------

  /** The scan scanEds sets up: the blocks under the root, in document order. */
  lemma RootScanFine(h: Host, root: nat, show: bool)
    requires WellFormed(h)
    ensures ScanFine(Scan(h, root, show, QuerySelectorAll(h, root, BlockSelector)))
  {
    QuerySelectorAllSpec(h, root, BlockSelector);
    SelectedAreBlocks(h, root);
  }

  /** topLevelBlocks.map(el => buildBlockTree(el)) builds one shaped tree
      at depth 0 per root. */
  lemma {:induction false} TopBlocksShape(sc: Scan, m: Marks, tops: seq<nat>)
    requires ScanFine(sc)
    requires forall i :: 0 <= i < |tops| ==>
      IsBlock(sc.h, tops[i]) && tops[i] in sc.all && BlockVisible(sc.h, sc.show, tops[i])
    ensures var (r, m') := TopBlocks(sc, m, tops);
      BlockElements(r) == tops && AllBlocksShaped(sc.h, sc.root, sc.show, r, 0)
    decreases |tops|
  {
    if tops != [] {
      TopBlocksShape(sc, m, tops[..|tops| - 1]);
      TopBlocksLast(sc, m, tops);
      TopBlocksElementsStep(sc, m, tops);
      TopBlocksShapedStep(sc, m, tops);
    }
  }

  /** The map over a longer list of roots is one more block tree. */
  lemma TopBlocksLast(sc: Scan, m: Marks, tops: seq<nat>)
    requires ScanOk(sc) && tops != [] && forall i :: 0 <= i < |tops| ==> IsBlock(sc.h, tops[i])
    ensures var (prev, m1) := TopBlocks(sc, m, tops[..|tops| - 1]);
      TopBlocks(sc, m, tops).0 == prev + [BlockTree(sc, m1, tops[|tops| - 1], 0).0]
  {
  }

  /** The last root keeps the roots in order. */
  lemma TopBlocksElementsStep(sc: Scan, m: Marks, tops: seq<nat>)
    requires ScanOk(sc) && tops != [] && forall i :: 0 <= i < |tops| ==> IsBlock(sc.h, tops[i])
    requires BlockElements(TopBlocks(sc, m, tops[..|tops| - 1]).0) == tops[..|tops| - 1]
    ensures BlockElements(TopBlocks(sc, m, tops).0) == tops
  {
    var init, e := tops[..|tops| - 1], tops[|tops| - 1];
    var (prev, m1) := TopBlocks(sc, m, init);
    TopBlocksLast(sc, m, tops);
    var b := BlockTree(sc, m1, e, 0).0;
    assert b.element == e;
    BlockElementsSnoc(prev, b);
    PrefixSnoc(tops, |tops| - 1);
    assert tops[..|tops|] == tops;
  }

  /** The last root keeps the roots shaped. */
  lemma TopBlocksShapedStep(sc: Scan, m: Marks, tops: seq<nat>)
    requires ScanFine(sc) && tops != []
    requires forall i :: 0 <= i < |tops| ==>
      IsBlock(sc.h, tops[i]) && tops[i] in sc.all && BlockVisible(sc.h, sc.show, tops[i])
    requires AllBlocksShaped(sc.h, sc.root, sc.show, TopBlocks(sc, m, tops[..|tops| - 1]).0, 0)
    ensures AllBlocksShaped(sc.h, sc.root, sc.show, TopBlocks(sc, m, tops).0, 0)
  {
    var init, e := tops[..|tops| - 1], tops[|tops| - 1];
    var (prev, m1) := TopBlocks(sc, m, init);
    TopBlocksLast(sc, m, tops);
    BlockTreeShape(sc, m1, e, 0);
    AllBlocksShapedSnoc(sc.h, sc.root, sc.show, prev, BlockTree(sc, m1, e, 0).0, 0);
  }

  /** The same map marks only inside the roots. */
  lemma {:induction false} TopBlocksFrame(sc: Scan, m: Marks, tops: seq<nat>)
    requires ScanFine(sc) && forall i :: 0 <= i < |tops| ==> IsBlock(sc.h, tops[i])
    ensures var (r, m') := TopBlocks(sc, m, tops);
      Grows(m, m') && AddedWithinSome(sc.h, m, m', tops)
    decreases |tops|
  {
    if tops != [] {
      var init, e := tops[..|tops| - 1], tops[|tops| - 1];
      assert tops == init + [e];
      TopBlocksFrame(sc, m, init);
      var (prev, m1) := TopBlocks(sc, m, init);
      BlockTreeFrame(sc, m1, e, 0);
      var (b, m2) := BlockTree(sc, m1, e, 0);
      WithinSomeSnoc(sc.h, m, m1, m2, init, e);
    }
  }

  /** The roots of scanEds: one shaped block tree at depth 0 for each
      visible block under the root that has no block ancestor, in
      document order. */
  lemma ScanRoots(h: Host, root: nat, show: bool)
    requires WellFormed(h)
    ensures var (blocks, standalone) := ScanForest(h, root, show);
      && StrictlyIncreasing(BlockElements(blocks))
      && (forall x: nat :: x in BlockElements(blocks) <==>
            && x < |h.nodes| && ProperAncestor(h, root, x) && IsBlock(h, x)
            && ParentBlockOf(h, x).None? && BlockVisible(h, show, x))
      && AllBlocksShaped(h, root, show, blocks, 0)
  {
    var sc := Scan(h, root, show, QuerySelectorAll(h, root, BlockSelector));
    RootScanFine(h, root, show);
    TopLevelSpecIff(h, root, show);
    QuerySelectorAllSpec(h, root, BlockSelector);
    var tops := TopLevelSpec(h, root, show);
    forall i | 0 <= i < |tops|
      ensures IsBlock(h, tops[i]) && tops[i] in sc.all && BlockVisible(h, show, tops[i])
    {
      assert tops[i] in tops;
      BlockSelectorMatches(h, tops[i]);
    }
    TopBlocksShape(sc, Marks({}, {}), tops);
  }

  /** Slots with no child slots and no nested blocks, each named from its
      own element. */
  ghost predicate Leaves(h: Host, r: seq<SlotNode>)
  {
    forall i :: 0 <= i < |r| ==> r[i] == SlotNode(SlotName(h, r[i].element), r[i].element, [], [], None)
  }

  /** Every slot the standalone forEach collects is a leaf. */
  lemma {:induction false} StandaloneLeaves(sc: Scan, m: Marks, cands: seq<nat>)
    requires ScanOk(sc) && forall i :: 0 <= i < |cands| ==> cands[i] < |sc.h.nodes|
    ensures Leaves(sc.h, Standalone(sc, m, cands).0)
    decreases |cands|
  {
    if cands != [] {
      var init, c := cands[..|cands| - 1], cands[|cands| - 1];
      StandaloneLeaves(sc, m, init);
      var (prev, m1) := Standalone(sc, m, init);
      if StandaloneVerdict(sc.h, sc.show, m1.slots, sc.all, c) == Take {
        var s := SlotNode(SlotName(sc.h, c), c, [], [], None);
        assert Standalone(sc, m, cands).0 == prev + [s];
        var rr := prev + [s];
        forall i | 0 <= i < |rr|
          ensures rr[i] == SlotNode(SlotName(sc.h, rr[i].element), rr[i].element, [], [], None)
        {
          if i < |prev| { assert rr[i] == prev[i]; }
        }
      } else {
        assert Standalone(sc, m, cands).0 == prev;
      }
    }
  }

  /** The callback takes a candidate exactly when the standalone filter
      does, once a processed candidate is known to lie inside a block. */
  lemma StandaloneTakeIff(sc: Scan, done: set<nat>, c: nat)
    requires ScanOk(sc) && c < |sc.h.nodes|
    requires c in done ==> AnyContains(sc.h, sc.all, c)
    ensures StandaloneVerdict(sc.h, sc.show, done, sc.all, c) == Take <==> StandaloneCond(sc.h, sc.show, sc.all)(c)
  {
  }

  /** The forEach collecting standalone slots, when every candidate that
      is already processed lies inside a block: it keeps exactly the
      candidates the standalone filter keeps, and marks nothing but them. */
  lemma {:induction false} StandaloneFilter(sc: Scan, m: Marks, cands: seq<nat>)
    requires ScanOk(sc) && StrictlyIncreasing(cands)
    requires forall i :: 0 <= i < |cands| ==> cands[i] < |sc.h.nodes|
    requires forall i :: 0 <= i < |cands| && cands[i] in m.slots ==> AnyContains(sc.h, sc.all, cands[i])
    ensures var (r, m') := Standalone(sc, m, cands);
      && SlotElements(r) == Filter(cands, StandaloneCond(sc.h, sc.show, sc.all))
      && (forall x :: x in m'.slots ==> x in m.slots || x in cands)
    decreases |cands|
  {
    if cands != [] {
      var init, c := cands[..|cands| - 1], cands[|cands| - 1];
      assert forall i :: 0 <= i < |init| ==> init[i] == cands[i];
      StandaloneFilter(sc, m, init);
      var (prev, m1) := Standalone(sc, m, init);
      assert c !in init by {
        forall i | 0 <= i < |init|
          ensures init[i] != c
        {
          assert init[i] == cands[i] < cands[|cands| - 1];
        }
      }
      var p := StandaloneCond(sc.h, sc.show, sc.all);
      assert Filter(cands, p) == Filter(init, p) + (if p(c) then [c] else []);
      StandaloneTakeIff(sc, m1.slots, c);
      if StandaloneVerdict(sc.h, sc.show, m1.slots, sc.all, c) == Take {
        var s := SlotNode(SlotName(sc.h, c), c, [], [], None);
        assert Standalone(sc, m, cands) == (prev + [s], Marks(m1.slots + {c}, m1.blocks));
        SlotElementsSnoc(prev, s);
      } else {
        assert Standalone(sc, m, cands) == (prev, m1);
      }
    }
  }

  /** The standalone slots of scanEds: exactly the visible slots under the
      root that no block under the root contains, in document order, each
      with no child slots and no nested blocks. */
  lemma ScanStandalone(h: Host, root: nat, show: bool)
    requires WellFormed(h)
    ensures var (blocks, standalone) := ScanForest(h, root, show);
      && SlotElements(standalone) == StandaloneSpec(h, root, show)
      && (forall i :: 0 <= i < |standalone| ==>
            standalone[i].childSlots == [] && standalone[i].children == [] &&
            standalone[i].name == SlotName(h, standalone[i].element))
  {
    var sc := Scan(h, root, show, QuerySelectorAll(h, root, BlockSelector));
    RootScanFine(h, root, show);
    TopLevelSpecIff(h, root, show);
    QuerySelectorAllSpec(h, root, BlockSelector);
    var tops := TopLevelSpec(h, root, show);
    forall i | 0 <= i < |tops|
      ensures IsBlock(h, tops[i]) && tops[i] in sc.all && BlockVisible(h, show, tops[i])
    {
      assert tops[i] in tops;
      BlockSelectorMatches(h, tops[i]);
    }
    TopBlocksFrame(sc, Marks({}, {}), tops);
    var (blocks, m1) := TopBlocks(sc, Marks({}, {}), tops);
    var cands := QuerySelectorAll(h, root, SlotSelector);
    SelectedBelow(h, root, SlotSelector);
    QuerySelectorAllSpec(h, root, SlotSelector);
    forall i | 0 <= i < |cands| && cands[i] in m1.slots
      ensures AnyContains(h, sc.all, cands[i])
    {
      assert cands[i] in (m1.slots - {}) + (m1.blocks - {});
      var k :| 0 <= k < |tops| && Contains(h, tops[k], cands[i]);
      var j :| 0 <= j < |sc.all| && sc.all[j] == tops[k];
    }
    StandaloneFilter(sc, m1, cands);
    StandaloneLeaves(sc, m1, cands);
  }

  /** Minting ids keeps each slot's element. */
  lemma {:induction false} MintSlotsElements(ss: seq<SlotNode>, t: Tally)
    ensures SlotElements(MintSlots(ss, t).0) == SlotElements(ss)
    decreases ss
  {
    if ss != [] {
      var (s, t1) := MintSlot(ss[0], t);
      MintSlotsElements(ss[1..], t1);
      var rest := MintSlots(ss[1..], t1).0;
      assert ([s] + rest)[1..] == rest;
    }
  }

  /** The standalone container of scanEds: it is appended after the roots
      exactly when there are standalone slots; it is named "Standalone
      Slots", sits at the document body at depth 0, has no children and
      holds the standalone slots, which the result also lists on their own. */
  lemma ScanContainer(h: Host, root: nat, show: bool)
    requires WellFormed(h)
    ensures var (blocks, standalone) := ScanForest(h, root, show);
      var r := ScanEdsSpec(h, root, show);
      && |r.blocks| == |blocks| + (if |standalone| > 0 then 1 else 0)
      && (|standalone| == 0 ==> r.standaloneSlots == [])
      && (|standalone| > 0 ==>
            var c := r.blocks[|blocks|];
            && c.name == StandaloneName && c.element == h.body && c.depth == 0 && c.children == []
            && SlotElements(c.slots) == SlotElements(standalone) && r.standaloneSlots == c.slots)
  {
    var (blocks, standalone) := ScanForest(h, root, show);
    if |standalone| > 0 {
      var c := BlockNode(StandaloneName, h.body, standalone, [], 0, None);
      MintBlocksSnoc(blocks, c, Tally(0, 0, 0, 0));
      var (a, t1) := MintBlocks(blocks, Tally(0, 0, 0, 0));
      var t0 := Tally(t1.blockIndex + 1, t1.slotIndex, t1.totalBlocks + 1, t1.totalSlots);
      MintSlotsElements(standalone, t0);
    }
  }

  /** A root with nothing below it yields no blocks, no standalone slots
      and zero counts. */
  lemma EmptyRootScan(h: Host, root: nat, show: bool)
    requires WellFormed(h)
    requires forall x: nat :: x < |h.nodes| ==> !ProperAncestor(h, root, x)
    ensures ScanEdsSpec(h, root, show) == ScanResult([], [], Counts(0, 0))
  {
    QuerySelectorAllSpec(h, root, BlockSelector);
    QuerySelectorAllSpec(h, root, SlotSelector);
    NoneSelectedIsEmpty(QuerySelectorAll(h, root, BlockSelector));
    NoneSelectedIsEmpty(QuerySelectorAll(h, root, SlotSelector));
  }

  lemma NoneSelectedIsEmpty(s: seq<nat>)
    ensures (forall x: nat :: x !in s) ==> s == []
  {
    if s != [] {
      assert s[0] in s;
    }
  }
}
