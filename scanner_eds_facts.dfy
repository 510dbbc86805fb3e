/** What the EDS scan guarantees: which elements each builder picks up
    and the shape of the trees it returns. */
module ScannerEdsFacts {
  import opened Common
  import opened Dom
  import opened ScannerEds

  /** What scanEds gives its builders: the blocks under the root, each
      once, in document order. */
  ghost predicate ScanFine(sc: Scan)
  {
    && ScanOk(sc) && StrictlyIncreasing(sc.all)
    && forall i :: 0 <= i < |sc.all| ==> ProperAncestor(sc.h, sc.root, sc.all[i])
  }

  // ---------------------------------------------------------------------
  // The scans over all blocks
  // ---------------------------------------------------------------------

  /** Marking other blocks does not change the verdict on `nb`. */
  lemma NestedVerdictOthers(h: Host, show: bool, done: set<nat>, extra: set<nat>, slotEl: nat, blockEl: nat, nb: nat)
    requires WellFormed(h) && IsBlock(h, nb) && nb !in extra
    ensures NestedVerdict(h, show, done + extra, slotEl, blockEl, nb) == NestedVerdict(h, show, done, slotEl, blockEl, nb)
  {
  }

  lemma ChildBlockVerdictOthers(h: Host, show: bool, done: set<nat>, extra: set<nat>, parentEl: nat, el: nat)
    requires WellFormed(h) && IsBlock(h, el) && el !in extra
    ensures ChildBlockVerdict(h, show, done + extra, parentEl, el) == ChildBlockVerdict(h, show, done, parentEl, el)
  {
  }

  /** The forEach over all blocks in buildSlotTree keeps, in document
      order, the blocks whose verdict against the processed blocks at its
      start is Take, and marks exactly those whose verdict is Hidden. */
  lemma {:induction false} NestedScanSpec(sc: Scan, m: Marks, slotEl: nat, blockEl: nat, ab: seq<nat>)
    requires ScanOk(sc) && StrictlyIncreasing(ab) && forall i :: 0 <= i < |ab| ==> IsBlock(sc.h, ab[i])
    ensures NestedScan(sc, m, slotEl, blockEl, ab) ==
      (Filter(ab, NestedTake(sc.h, sc.show, m.blocks, slotEl, blockEl)),
       Marks(m.slots, m.blocks + Elems(Filter(ab, NestedHidden(sc.h, sc.show, m.blocks, slotEl, blockEl)))))
    decreases |ab|
  {
    var take := NestedTake(sc.h, sc.show, m.blocks, slotEl, blockEl);
    var hidden := NestedHidden(sc.h, sc.show, m.blocks, slotEl, blockEl);
    if ab != [] {
      var init, nb := ab[..|ab| - 1], ab[|ab| - 1];
      assert ab == init + [nb];
      NestedScanSpec(sc, m, slotEl, blockEl, init);
      NestedScanStep(sc, m, slotEl, blockEl, init, nb);
    } else {
      assert Elems<nat>([]) == {};
      assert m.blocks + Elems<nat>([]) == m.blocks;
      assert Filter(ab, take) == [] && Filter(ab, hidden) == [];
    }
  }

  /** One step of the nested-block scan keeps the closed form. */
  lemma NestedScanStep(sc: Scan, m: Marks, slotEl: nat, blockEl: nat, init: seq<nat>, nb: nat)
    requires ScanOk(sc) && nb !in init && IsBlock(sc.h, nb)
    requires forall i :: 0 <= i < |init| ==> IsBlock(sc.h, init[i])
    requires NestedScan(sc, m, slotEl, blockEl, init) ==
      (Filter(init, NestedTake(sc.h, sc.show, m.blocks, slotEl, blockEl)),
       Marks(m.slots, m.blocks + Elems(Filter(init, NestedHidden(sc.h, sc.show, m.blocks, slotEl, blockEl)))))
    ensures NestedScan(sc, m, slotEl, blockEl, init + [nb]) ==
      (Filter(init + [nb], NestedTake(sc.h, sc.show, m.blocks, slotEl, blockEl)),
       Marks(m.slots, m.blocks + Elems(Filter(init + [nb], NestedHidden(sc.h, sc.show, m.blocks, slotEl, blockEl)))))
  {
    match NestedVerdict(sc.h, sc.show, m.blocks, slotEl, blockEl, nb)
    case Pass => NestedScanPass(sc, m, slotEl, blockEl, init, nb);
    case Hidden => NestedScanHidden(sc, m, slotEl, blockEl, init, nb);
    case Take => NestedScanTake(sc, m, slotEl, blockEl, init, nb);
  }

  lemma NestedScanPass(sc: Scan, m: Marks, slotEl: nat, blockEl: nat, init: seq<nat>, nb: nat)
    requires ScanOk(sc) && nb !in init && IsBlock(sc.h, nb)
    requires forall i :: 0 <= i < |init| ==> IsBlock(sc.h, init[i])
    requires NestedScan(sc, m, slotEl, blockEl, init) ==
      (Filter(init, NestedTake(sc.h, sc.show, m.blocks, slotEl, blockEl)),
       Marks(m.slots, m.blocks + Elems(Filter(init, NestedHidden(sc.h, sc.show, m.blocks, slotEl, blockEl)))))
    requires NestedVerdict(sc.h, sc.show, m.blocks, slotEl, blockEl, nb) == Pass
    ensures NestedScan(sc, m, slotEl, blockEl, init + [nb]) ==
      (Filter(init + [nb], NestedTake(sc.h, sc.show, m.blocks, slotEl, blockEl)),
       Marks(m.slots, m.blocks + Elems(Filter(init + [nb], NestedHidden(sc.h, sc.show, m.blocks, slotEl, blockEl)))))
  {
    var take := NestedTake(sc.h, sc.show, m.blocks, slotEl, blockEl);
    var hidden := NestedHidden(sc.h, sc.show, m.blocks, slotEl, blockEl);
    var found, hid := Filter(init, take), Filter(init, hidden);
    var e := m.blocks + Elems(hid);
    assert NestedScan(sc, m, slotEl, blockEl, init + [nb]) == (found, Marks(m.slots, e)) by {
      FilterExcludes(init, hidden, nb);
      NestedVerdictOthers(sc.h, sc.show, m.blocks, Elems(hid), slotEl, blockEl, nb);
      NestedScanUnfold(sc, m, slotEl, blockEl, init, nb);
    }
    assert Filter(init + [nb], take) == found by {
      FilterSnoc(init, nb, take);
      assert found + [] == found;
    }
    assert Filter(init + [nb], hidden) == hid by {
      FilterSnoc(init, nb, hidden);
      assert hid + [] == hid;
    }
  }

  lemma NestedScanHidden(sc: Scan, m: Marks, slotEl: nat, blockEl: nat, init: seq<nat>, nb: nat)
    requires ScanOk(sc) && nb !in init && IsBlock(sc.h, nb)
    requires forall i :: 0 <= i < |init| ==> IsBlock(sc.h, init[i])
    requires NestedScan(sc, m, slotEl, blockEl, init) ==
      (Filter(init, NestedTake(sc.h, sc.show, m.blocks, slotEl, blockEl)),
       Marks(m.slots, m.blocks + Elems(Filter(init, NestedHidden(sc.h, sc.show, m.blocks, slotEl, blockEl)))))
    requires NestedVerdict(sc.h, sc.show, m.blocks, slotEl, blockEl, nb) == Hidden
    ensures NestedScan(sc, m, slotEl, blockEl, init + [nb]) ==
      (Filter(init + [nb], NestedTake(sc.h, sc.show, m.blocks, slotEl, blockEl)),
       Marks(m.slots, m.blocks + Elems(Filter(init + [nb], NestedHidden(sc.h, sc.show, m.blocks, slotEl, blockEl)))))
  {
    var take := NestedTake(sc.h, sc.show, m.blocks, slotEl, blockEl);
    var hidden := NestedHidden(sc.h, sc.show, m.blocks, slotEl, blockEl);
    var found, hid := Filter(init, take), Filter(init, hidden);
    var e := m.blocks + Elems(hid);
    assert NestedScan(sc, m, slotEl, blockEl, init + [nb]) == (found, Marks(m.slots, e + {nb})) by {
      FilterExcludes(init, hidden, nb);
      NestedVerdictOthers(sc.h, sc.show, m.blocks, Elems(hid), slotEl, blockEl, nb);
      NestedScanUnfold(sc, m, slotEl, blockEl, init, nb);
    }
    assert Filter(init + [nb], take) == found by {
      FilterSnoc(init, nb, take);
      assert found + [] == found;
    }
    assert Filter(init + [nb], hidden) == hid + [nb] by {
      FilterSnoc(init, nb, hidden);
    }
    assert e + {nb} == m.blocks + Elems(hid + [nb]) by {
      ElemsSnoc(hid, nb);
    }
  }

  lemma NestedScanTake(sc: Scan, m: Marks, slotEl: nat, blockEl: nat, init: seq<nat>, nb: nat)
    requires ScanOk(sc) && nb !in init && IsBlock(sc.h, nb)
    requires forall i :: 0 <= i < |init| ==> IsBlock(sc.h, init[i])
    requires NestedScan(sc, m, slotEl, blockEl, init) ==
      (Filter(init, NestedTake(sc.h, sc.show, m.blocks, slotEl, blockEl)),
       Marks(m.slots, m.blocks + Elems(Filter(init, NestedHidden(sc.h, sc.show, m.blocks, slotEl, blockEl)))))
    requires NestedVerdict(sc.h, sc.show, m.blocks, slotEl, blockEl, nb) == Take
    ensures NestedScan(sc, m, slotEl, blockEl, init + [nb]) ==
      (Filter(init + [nb], NestedTake(sc.h, sc.show, m.blocks, slotEl, blockEl)),
       Marks(m.slots, m.blocks + Elems(Filter(init + [nb], NestedHidden(sc.h, sc.show, m.blocks, slotEl, blockEl)))))
  {
    var take := NestedTake(sc.h, sc.show, m.blocks, slotEl, blockEl);
    var hidden := NestedHidden(sc.h, sc.show, m.blocks, slotEl, blockEl);
    var found, hid := Filter(init, take), Filter(init, hidden);
    var e := m.blocks + Elems(hid);
    assert NestedScan(sc, m, slotEl, blockEl, init + [nb]) == (found + [nb], Marks(m.slots, e)) by {
      FilterExcludes(init, hidden, nb);
      NestedVerdictOthers(sc.h, sc.show, m.blocks, Elems(hid), slotEl, blockEl, nb);
      NestedScanUnfold(sc, m, slotEl, blockEl, init, nb);
    }
    assert Filter(init + [nb], take) == found + [nb] by {
      FilterSnoc(init, nb, take);
    }
    assert Filter(init + [nb], hidden) == hid by {
      FilterSnoc(init, nb, hidden);
      assert hid + [] == hid;
    }
  }

  /** The same for the forEach over all blocks in getDirectChildBlocks. */
  lemma {:induction false} ChildBlockScanSpec(sc: Scan, m: Marks, parentEl: nat, ab: seq<nat>)
    requires ScanOk(sc) && StrictlyIncreasing(ab) && forall i :: 0 <= i < |ab| ==> IsBlock(sc.h, ab[i])
    ensures ChildBlockScan(sc, m, parentEl, ab) ==
      (Filter(ab, ChildBlockTake(sc.h, sc.show, m.blocks, parentEl)),
       Marks(m.slots, m.blocks + Elems(Filter(ab, ChildBlockHidden(sc.h, sc.show, m.blocks, parentEl)))))
    decreases |ab|
  {
    var take := ChildBlockTake(sc.h, sc.show, m.blocks, parentEl);
    var hidden := ChildBlockHidden(sc.h, sc.show, m.blocks, parentEl);
    if ab != [] {
      var init, el := ab[..|ab| - 1], ab[|ab| - 1];
      assert ab == init + [el];
      ChildBlockScanSpec(sc, m, parentEl, init);
      ChildBlockScanStep(sc, m, parentEl, init, el);
    } else {
      assert Elems<nat>([]) == {};
      assert m.blocks + Elems<nat>([]) == m.blocks;
      assert Filter(ab, take) == [] && Filter(ab, hidden) == [];
    }
  }

  /** One step of the child-block scan keeps the closed form. */
  lemma ChildBlockScanStep(sc: Scan, m: Marks, parentEl: nat, init: seq<nat>, el: nat)
    requires ScanOk(sc) && el !in init && IsBlock(sc.h, el)
    requires forall i :: 0 <= i < |init| ==> IsBlock(sc.h, init[i])
    requires ChildBlockScan(sc, m, parentEl, init) ==
      (Filter(init, ChildBlockTake(sc.h, sc.show, m.blocks, parentEl)),
       Marks(m.slots, m.blocks + Elems(Filter(init, ChildBlockHidden(sc.h, sc.show, m.blocks, parentEl)))))
    ensures ChildBlockScan(sc, m, parentEl, init + [el]) ==
      (Filter(init + [el], ChildBlockTake(sc.h, sc.show, m.blocks, parentEl)),
       Marks(m.slots, m.blocks + Elems(Filter(init + [el], ChildBlockHidden(sc.h, sc.show, m.blocks, parentEl)))))
  {
    match ChildBlockVerdict(sc.h, sc.show, m.blocks, parentEl, el)
    case Pass => ChildBlockScanPass(sc, m, parentEl, init, el);
    case Hidden => ChildBlockScanHidden(sc, m, parentEl, init, el);
    case Take => ChildBlockScanTake(sc, m, parentEl, init, el);
  }

  lemma ChildBlockScanPass(sc: Scan, m: Marks, parentEl: nat, init: seq<nat>, el: nat)
    requires ScanOk(sc) && el !in init && IsBlock(sc.h, el)
    requires forall i :: 0 <= i < |init| ==> IsBlock(sc.h, init[i])
    requires ChildBlockScan(sc, m, parentEl, init) ==
      (Filter(init, ChildBlockTake(sc.h, sc.show, m.blocks, parentEl)),
       Marks(m.slots, m.blocks + Elems(Filter(init, ChildBlockHidden(sc.h, sc.show, m.blocks, parentEl)))))
    requires ChildBlockVerdict(sc.h, sc.show, m.blocks, parentEl, el) == Pass
    ensures ChildBlockScan(sc, m, parentEl, init + [el]) ==
      (Filter(init + [el], ChildBlockTake(sc.h, sc.show, m.blocks, parentEl)),
       Marks(m.slots, m.blocks + Elems(Filter(init + [el], ChildBlockHidden(sc.h, sc.show, m.blocks, parentEl)))))
  {
    var take := ChildBlockTake(sc.h, sc.show, m.blocks, parentEl);
    var hidden := ChildBlockHidden(sc.h, sc.show, m.blocks, parentEl);
    var found, hid := Filter(init, take), Filter(init, hidden);
    var e := m.blocks + Elems(hid);
    assert ChildBlockScan(sc, m, parentEl, init + [el]) == (found, Marks(m.slots, e)) by {
      FilterExcludes(init, hidden, el);
      ChildBlockVerdictOthers(sc.h, sc.show, m.blocks, Elems(hid), parentEl, el);
      ChildBlockScanUnfold(sc, m, parentEl, init, el);
    }
    assert Filter(init + [el], take) == found by {
      FilterSnoc(init, el, take);
      assert found + [] == found;
    }
    assert Filter(init + [el], hidden) == hid by {
      FilterSnoc(init, el, hidden);
      assert hid + [] == hid;
    }
  }

  lemma ChildBlockScanHidden(sc: Scan, m: Marks, parentEl: nat, init: seq<nat>, el: nat)
    requires ScanOk(sc) && el !in init && IsBlock(sc.h, el)
    requires forall i :: 0 <= i < |init| ==> IsBlock(sc.h, init[i])
    requires ChildBlockScan(sc, m, parentEl, init) ==
      (Filter(init, ChildBlockTake(sc.h, sc.show, m.blocks, parentEl)),
       Marks(m.slots, m.blocks + Elems(Filter(init, ChildBlockHidden(sc.h, sc.show, m.blocks, parentEl)))))
    requires ChildBlockVerdict(sc.h, sc.show, m.blocks, parentEl, el) == Hidden
    ensures ChildBlockScan(sc, m, parentEl, init + [el]) ==
      (Filter(init + [el], ChildBlockTake(sc.h, sc.show, m.blocks, parentEl)),
       Marks(m.slots, m.blocks + Elems(Filter(init + [el], ChildBlockHidden(sc.h, sc.show, m.blocks, parentEl)))))
  {
    var take := ChildBlockTake(sc.h, sc.show, m.blocks, parentEl);
    var hidden := ChildBlockHidden(sc.h, sc.show, m.blocks, parentEl);
    var found, hid := Filter(init, take), Filter(init, hidden);
    var e := m.blocks + Elems(hid);
    assert ChildBlockScan(sc, m, parentEl, init + [el]) == (found, Marks(m.slots, e + {el})) by {
      FilterExcludes(init, hidden, el);
      ChildBlockVerdictOthers(sc.h, sc.show, m.blocks, Elems(hid), parentEl, el);
      ChildBlockScanUnfold(sc, m, parentEl, init, el);
    }
    assert Filter(init + [el], take) == found by {
      FilterSnoc(init, el, take);
      assert found + [] == found;
    }
    assert Filter(init + [el], hidden) == hid + [el] by {
      FilterSnoc(init, el, hidden);
    }
    assert e + {el} == m.blocks + Elems(hid + [el]) by {
      ElemsSnoc(hid, el);
    }
  }

  lemma ChildBlockScanTake(sc: Scan, m: Marks, parentEl: nat, init: seq<nat>, el: nat)
    requires ScanOk(sc) && el !in init && IsBlock(sc.h, el)
    requires forall i :: 0 <= i < |init| ==> IsBlock(sc.h, init[i])
    requires ChildBlockScan(sc, m, parentEl, init) ==
      (Filter(init, ChildBlockTake(sc.h, sc.show, m.blocks, parentEl)),
       Marks(m.slots, m.blocks + Elems(Filter(init, ChildBlockHidden(sc.h, sc.show, m.blocks, parentEl)))))
    requires ChildBlockVerdict(sc.h, sc.show, m.blocks, parentEl, el) == Take
    ensures ChildBlockScan(sc, m, parentEl, init + [el]) ==
      (Filter(init + [el], ChildBlockTake(sc.h, sc.show, m.blocks, parentEl)),
       Marks(m.slots, m.blocks + Elems(Filter(init + [el], ChildBlockHidden(sc.h, sc.show, m.blocks, parentEl)))))
  {
    var take := ChildBlockTake(sc.h, sc.show, m.blocks, parentEl);
    var hidden := ChildBlockHidden(sc.h, sc.show, m.blocks, parentEl);
    var found, hid := Filter(init, take), Filter(init, hidden);
    var e := m.blocks + Elems(hid);
    assert ChildBlockScan(sc, m, parentEl, init + [el]) == (found + [el], Marks(m.slots, e)) by {
      FilterExcludes(init, hidden, el);
      ChildBlockVerdictOthers(sc.h, sc.show, m.blocks, Elems(hid), parentEl, el);
      ChildBlockScanUnfold(sc, m, parentEl, init, el);
    }
    assert Filter(init + [el], take) == found + [el] by {
      FilterSnoc(init, el, take);
    }
    assert Filter(init + [el], hidden) == hid by {
      FilterSnoc(init, el, hidden);
      assert hid + [] == hid;
    }
  }

  /** What the nested-block scan of buildSlotTree finds and marks. */
  lemma NestedScanFacts(sc: Scan, m: Marks, slotEl: nat, blockEl: nat)
    requires ScanFine(sc)
    ensures var (found, m') := NestedScan(sc, m, slotEl, blockEl, sc.all);
      && m'.slots == m.slots && m.blocks <= m'.blocks
      && (forall x :: x in m'.blocks - m.blocks ==> x < |sc.h.nodes| && NestedBlockOf(sc.h, x, slotEl, blockEl))
      && StrictlyIncreasing(found)
      && (forall i :: 0 <= i < |found| ==>
            && found[i] in sc.all && found[i] !in m'.blocks
            && NestedBlockOf(sc.h, found[i], slotEl, blockEl) && BlockVisible(sc.h, sc.show, found[i]))
  {
    var h := sc.h;
    var take := NestedTake(h, sc.show, m.blocks, slotEl, blockEl);
    var hidden := NestedHidden(h, sc.show, m.blocks, slotEl, blockEl);
    NestedScanSpec(sc, m, slotEl, blockEl, sc.all);
    FilterMembers(sc.all, take);
    FilterMembers(sc.all, hidden);
    FilterIncreasing(sc.all, take);
    var (found, m') := NestedScan(sc, m, slotEl, blockEl, sc.all);
    forall x | x in m'.blocks - m.blocks
      ensures x < |h.nodes| && NestedBlockOf(h, x, slotEl, blockEl)
    {
      NestedVerdictSpec(h, sc.show, m.blocks, slotEl, blockEl, x);
    }
    forall i | 0 <= i < |found|
      ensures found[i] in sc.all && found[i] !in m'.blocks
      ensures NestedBlockOf(h, found[i], slotEl, blockEl) && BlockVisible(h, sc.show, found[i])
    {
      assert found[i] in found;
      NestedVerdictSpec(h, sc.show, m.blocks, slotEl, blockEl, found[i]);
    }
  }

  /** What the scan of getDirectChildBlocks finds and marks. */
  lemma ChildBlockScanFacts(sc: Scan, m: Marks, parentEl: nat)
    requires ScanFine(sc)
    ensures var (found, m') := ChildBlockScan(sc, m, parentEl, sc.all);
      && m'.slots == m.slots && m.blocks <= m'.blocks
      && (forall x :: x in m'.blocks - m.blocks ==> x < |sc.h.nodes| && ChildBlockOf(sc.h, x, parentEl) && Contains(sc.h, parentEl, x))
      && StrictlyIncreasing(found)
      && (forall i :: 0 <= i < |found| ==>
            && found[i] in sc.all && found[i] !in m'.blocks && Contains(sc.h, parentEl, found[i])
            && ChildBlockOf(sc.h, found[i], parentEl) && BlockVisible(sc.h, sc.show, found[i]))
  {
    var h := sc.h;
    var take := ChildBlockTake(h, sc.show, m.blocks, parentEl);
    var hidden := ChildBlockHidden(h, sc.show, m.blocks, parentEl);
    ChildBlockScanSpec(sc, m, parentEl, sc.all);
    FilterMembers(sc.all, take);
    FilterMembers(sc.all, hidden);
    FilterIncreasing(sc.all, take);
    var (found, m') := ChildBlockScan(sc, m, parentEl, sc.all);
    forall x | x in m'.blocks - m.blocks
      ensures x < |h.nodes| && ChildBlockOf(h, x, parentEl) && Contains(h, parentEl, x)
    {
      ChildBlockVerdictSpec(h, sc.show, m.blocks, parentEl, x);
      ParentBlockSpec(h, x);
    }
    forall i | 0 <= i < |found|
      ensures found[i] in sc.all && found[i] !in m'.blocks && Contains(h, parentEl, found[i])
      ensures ChildBlockOf(h, found[i], parentEl) && BlockVisible(h, sc.show, found[i])
    {
      assert found[i] in found;
      ChildBlockVerdictSpec(h, sc.show, m.blocks, parentEl, found[i]);
      ParentBlockSpec(h, found[i]);
    }
  }

  // ---------------------------------------------------------------------
  // Frames: the processed sets grow, and only inside the element built
  // ---------------------------------------------------------------------

  predicate Grows(m: Marks, m': Marks)
  {
    m.slots <= m'.slots && m.blocks <= m'.blocks
  }

  /** Everything marked between `m` and `m'` lies inside `a`. */
  ghost predicate AddedWithin(h: Host, m: Marks, m': Marks, a: nat)
    requires WellFormed(h)
  {
    forall x :: x in (m'.slots - m.slots) + (m'.blocks - m.blocks) ==> x < |h.nodes| && Contains(h, a, x)
  }

  /** Everything marked between `m` and `m'` lies inside one of `els`. */
  ghost predicate AddedWithinSome(h: Host, m: Marks, m': Marks, els: seq<nat>)
    requires WellFormed(h)
  {
    forall x :: x in (m'.slots - m.slots) + (m'.blocks - m.blocks) ==>
      x < |h.nodes| && exists i :: 0 <= i < |els| && Contains(h, els[i], x)
  }

  lemma WithinChain(h: Host, m: Marks, m1: Marks, m2: Marks, a: nat)
    requires WellFormed(h) && Grows(m, m1) && Grows(m1, m2)
    requires AddedWithin(h, m, m1, a) && AddedWithin(h, m1, m2, a)
    ensures Grows(m, m2) && AddedWithin(h, m, m2, a)
  {
  }

  lemma MarkOneSlot(h: Host, m: Marks, a: nat)
    requires WellFormed(h) && a < |h.nodes|
    ensures Grows(m, Marks(m.slots + {a}, m.blocks)) && AddedWithin(h, m, Marks(m.slots + {a}, m.blocks), a)
  {
  }

  lemma MarkOneBlock(h: Host, m: Marks, a: nat)
    requires WellFormed(h) && a < |h.nodes|
    ensures Grows(m, Marks(m.slots, m.blocks + {a})) && AddedWithin(h, m, Marks(m.slots, m.blocks + {a}), a)
  {
  }

  lemma WithinSomeSnoc(h: Host, m: Marks, m1: Marks, m2: Marks, els: seq<nat>, e: nat)
    requires WellFormed(h) && Grows(m, m1) && Grows(m1, m2)
    requires AddedWithinSome(h, m, m1, els) && AddedWithin(h, m1, m2, e)
    ensures Grows(m, m2) && AddedWithinSome(h, m, m2, els + [e])
  {
    var es := els + [e];
    forall x | x in (m2.slots - m.slots) + (m2.blocks - m.blocks)
      ensures x < |h.nodes| && exists i :: 0 <= i < |es| && Contains(h, es[i], x)
    {
      if x in (m1.slots - m.slots) + (m1.blocks - m.blocks) {
        var i :| 0 <= i < |els| && Contains(h, els[i], x);
        assert es[i] == els[i];
      } else {
        assert x in (m2.slots - m1.slots) + (m2.blocks - m1.blocks);
        assert es[|els|] == e && Contains(h, es[|els|], x);
      }
    }
  }

  lemma WithinSomeThenWithin(h: Host, m: Marks, m': Marks, els: seq<nat>, a: nat)
    requires WellFormed(h) && AddedWithinSome(h, m, m', els)
    requires forall i :: 0 <= i < |els| ==> els[i] < |h.nodes| && Contains(h, a, els[i])
    ensures AddedWithin(h, m, m', a)
  {
    forall x | x in (m'.slots - m.slots) + (m'.blocks - m.blocks)
      ensures Contains(h, a, x)
    {
      var i :| 0 <= i < |els| && Contains(h, els[i], x);
      ContainsTransitive(h, a, els[i], x);
    }
  }

  lemma {:induction false} SlotTreeFrame(sc: Scan, m: Marks, slotEl: nat, blockEl: nat)
    requires ScanFine(sc) && slotEl < |sc.h.nodes|
    ensures var (r, m') := SlotTree(sc, m, slotEl, blockEl);
      && Grows(m, m') && AddedWithin(sc.h, m, m', slotEl)
      && (r.Some? <==> slotEl !in m.slots && IsElementVisible(sc.h, slotEl, None, sc.show))
      && (r.None? ==> m' == m)
      && (r.Some? ==> r.value.element == slotEl && slotEl in m'.slots)
    decreases |sc.h.nodes| - slotEl, 5, 0
  {
    var h := sc.h;
    if slotEl !in m.slots && IsElementVisible(h, slotEl, None, sc.show) {
      var m0 := Marks(m.slots + {slotEl}, m.blocks);
      var els := ChildSlotEls(h, m0.slots, slotEl, blockEl);
      ChildSlotElsBelow(h, m0.slots, slotEl, blockEl);
      var (childSlots, m1) := ChildSlots(sc, m0, slotEl, blockEl, els);
      assert Grows(m0, m1) && AddedWithin(h, m0, m1, slotEl) by {
        ChildSlotsFrame(sc, m0, slotEl, blockEl, els);
        WithinSomeThenWithin(h, m0, m1, els, slotEl);
      }
      var (found, m2) := NestedScan(sc, m1, slotEl, blockEl, sc.all);
      var (nested, m3) := NestedBlocks(sc, m2, slotEl, found);
      assert Grows(m1, m3) && AddedWithin(h, m1, m3, slotEl) by {
        SlotNestedFrame(sc, m1, slotEl, blockEl);
      }
      assert Grows(m, m3) && AddedWithin(h, m, m3, slotEl) by {
        MarkOneSlot(h, m, slotEl);
        WithinChain(h, m, m0, m1, slotEl);
        WithinChain(h, m, m1, m3, slotEl);
      }
    }
  }

  /** The nested-block part of buildSlotTree marks only inside the slot. */
  lemma SlotNestedFrame(sc: Scan, m: Marks, slotEl: nat, blockEl: nat)
    requires ScanFine(sc) && slotEl < |sc.h.nodes|
    ensures var (found, m1) := NestedScan(sc, m, slotEl, blockEl, sc.all);
      var (nested, m2) := NestedBlocks(sc, m1, slotEl, found);
      Grows(m, m2) && AddedWithin(sc.h, m, m2, slotEl)
    decreases |sc.h.nodes| - slotEl, 4, 0
  {
    var h := sc.h;
    var (found, m1) := NestedScan(sc, m, slotEl, blockEl, sc.all);
    NestedScanFacts(sc, m, slotEl, blockEl);
    var (nested, m2) := NestedBlocks(sc, m1, slotEl, found);
    NestedBlocksFrame(sc, m1, slotEl, found);
    WithinSomeThenWithin(h, m1, m2, found, slotEl);
    WithinChain(h, m, m1, m2, slotEl);
  }

  lemma {:induction false} ChildSlotsFrame(sc: Scan, m: Marks, slotEl: nat, blockEl: nat, els: seq<nat>)
    requires ScanFine(sc) && slotEl < |sc.h.nodes|
    requires forall i :: 0 <= i < |els| ==> slotEl < els[i] < |sc.h.nodes|
    ensures var (r, m') := ChildSlots(sc, m, slotEl, blockEl, els);
      Grows(m, m') && AddedWithinSome(sc.h, m, m', els)
    decreases |sc.h.nodes| - slotEl, 3, |els|
  {
    if els != [] {
      var init, e := els[..|els| - 1], els[|els| - 1];
      assert els == init + [e];
      ChildSlotsFrame(sc, m, slotEl, blockEl, init);
      var (prev, m1) := ChildSlots(sc, m, slotEl, blockEl, init);
      SlotTreeFrame(sc, m1, e, blockEl);
      var (t, m2) := SlotTree(sc, m1, e, blockEl);
      WithinSomeSnoc(sc.h, m, m1, m2, init, e);
    }
  }

  lemma {:induction false} NestedBlocksFrame(sc: Scan, m: Marks, slotEl: nat, found: seq<nat>)
    requires ScanFine(sc) && slotEl < |sc.h.nodes|
    requires forall i :: 0 <= i < |found| ==> IsBlock(sc.h, found[i]) && slotEl <= found[i]
    ensures var (r, m') := NestedBlocks(sc, m, slotEl, found);
      Grows(m, m') && AddedWithinSome(sc.h, m, m', found)
    decreases |sc.h.nodes| - slotEl, 3, |found|
  {
    if found != [] {
      var init, e := found[..|found| - 1], found[|found| - 1];
      assert found == init + [e];
      NestedBlocksFrame(sc, m, slotEl, init);
      var (prev, m1) := NestedBlocks(sc, m, slotEl, init);
      BlockTreeFrame(sc, m1, e, 0);
      var (b, m2) := BlockTree(sc, m1, e, 0);
      WithinSomeSnoc(sc.h, m, m1, m2, init, e);
    }
  }

  lemma {:induction false} BlockTreeFrame(sc: Scan, m: Marks, blockEl: nat, depth: nat)
    requires ScanFine(sc) && IsBlock(sc.h, blockEl)
    ensures var (r, m') := BlockTree(sc, m, blockEl, depth);
      && Grows(m, m') && AddedWithin(sc.h, m, m', blockEl)
      && r.element == blockEl && blockEl in m'.blocks
    decreases |sc.h.nodes| - blockEl, 2, 0
  {
    var h := sc.h;
    var m0 := Marks(m.slots, m.blocks + {blockEl});
    var (slots, m1) := DirectSlotsOf(sc, m0, blockEl);
    assert Grows(m0, m1) && AddedWithin(h, m0, m1, blockEl) by {
      DirectSlotsOfFrame(sc, m0, blockEl);
    }
    var (childEls, m2) := ChildBlockScan(sc, m1, blockEl, sc.all);
    assert Grows(m1, m2) && AddedWithin(h, m1, m2, blockEl) by {
      ChildBlockScanFacts(sc, m1, blockEl);
    }
    var (children, m3) := ChildBlocks(sc, m2, blockEl, depth, childEls);
    assert Grows(m2, m3) && AddedWithin(h, m2, m3, blockEl) by {
      ChildBlockScanFacts(sc, m1, blockEl);
      ChildBlocksFrame(sc, m2, blockEl, depth, childEls);
      WithinSomeThenWithin(h, m2, m3, childEls, blockEl);
    }
    assert Grows(m, m3) && AddedWithin(h, m, m3, blockEl) by {
      MarkOneBlock(h, m, blockEl);
      WithinChain(h, m, m0, m1, blockEl);
      WithinChain(h, m, m1, m2, blockEl);
      WithinChain(h, m, m2, m3, blockEl);
    }
  }

  lemma DirectSlotsOfFrame(sc: Scan, m: Marks, blockEl: nat)
    requires ScanFine(sc) && blockEl < |sc.h.nodes|
    ensures var (r, m') := DirectSlotsOf(sc, m, blockEl);
      Grows(m, m') && AddedWithin(sc.h, m, m', blockEl)
    decreases |sc.h.nodes| - blockEl, 1, 0
  {
    var cands := QuerySelectorAll(sc.h, blockEl, SlotSelector);
    SelectedBelow(sc.h, blockEl, SlotSelector);
    DirectSlotsFrame(sc, m, blockEl, cands);
    var (r, m') := DirectSlots(sc, m, blockEl, cands);
    WithinSomeThenWithin(sc.h, m, m', cands, blockEl);
  }

  lemma {:induction false} DirectSlotsFrame(sc: Scan, m: Marks, blockEl: nat, cands: seq<nat>)
    requires ScanFine(sc) && blockEl < |sc.h.nodes|
    requires forall i :: 0 <= i < |cands| ==> blockEl < cands[i] < |sc.h.nodes|
    ensures var (r, m') := DirectSlots(sc, m, blockEl, cands);
      Grows(m, m') && AddedWithinSome(sc.h, m, m', cands)
    decreases |sc.h.nodes| - blockEl, 0, |cands|
  {
    if cands != [] {
      var init, c := cands[..|cands| - 1], cands[|cands| - 1];
      assert cands == init + [c];
      DirectSlotsFrame(sc, m, blockEl, init);
      var (prev, m1) := DirectSlots(sc, m, blockEl, init);
      if KeepDirectSlot(sc.h, m1.slots, blockEl, c) {
        SlotTreeFrame(sc, m1, c, blockEl);
        var (t, m2) := SlotTree(sc, m1, c, blockEl);
        WithinSomeSnoc(sc.h, m, m1, m2, init, c);
      } else {
        WithinSomeSnoc(sc.h, m, m1, m1, init, c);
      }
    }
  }

  lemma {:induction false} ChildBlocksFrame(sc: Scan, m: Marks, parentEl: nat, depth: nat, els: seq<nat>)
    requires ScanFine(sc) && parentEl < |sc.h.nodes|
    requires forall i :: 0 <= i < |els| ==> IsBlock(sc.h, els[i]) && parentEl < els[i]
    ensures var (r, m') := ChildBlocks(sc, m, parentEl, depth, els);
      Grows(m, m') && AddedWithinSome(sc.h, m, m', els)
    decreases |sc.h.nodes| - parentEl, 0, |els|
  {
    if els != [] {
      var init, e := els[..|els| - 1], els[|els| - 1];
      assert els == init + [e];
      ChildBlocksFrame(sc, m, parentEl, depth, init);
      var (prev, m1) := ChildBlocks(sc, m, parentEl, depth, init);
      BlockTreeFrame(sc, m1, e, depth + 1);
      var (b, m2) := BlockTree(sc, m1, e, depth + 1);
      WithinSomeSnoc(sc.h, m, m1, m2, init, e);
    }
  }

  // ---------------------------------------------------------------------
  // Shape: what every node of the returned trees satisfies
  // ---------------------------------------------------------------------

  lemma InAll(sc: Scan, b: nat)
    requires ScanFine(sc) && b in sc.all
    ensures ProperAncestor(sc.h, sc.root, b)
  {
    var i :| 0 <= i < |sc.all| && sc.all[i] == b;
  }

  /** Appending one element after smaller ones keeps a list increasing. */
  lemma IncreasingSnoc(s: seq<nat>, e: nat)
    requires StrictlyIncreasing(s) && forall i :: 0 <= i < |s| ==> s[i] < e
    ensures StrictlyIncreasing(s + [e])
  {
  }

  /** The element of every node of `r` is one of `els`, and every element
      of `els` is below `e`. */
  ghost predicate SlotsAmong(r: seq<SlotNode>, els: seq<nat>)
  {
    forall i :: 0 <= i < |r| ==> r[i].element in els
  }

  lemma SlotsAmongSnoc(r: seq<SlotNode>, t: SlotNode, init: seq<nat>, e: nat)
    requires SlotsAmong(r, init) && StrictlyIncreasing(SlotElements(r)) && StrictlyIncreasing(init + [e])
    requires t.element == e
    ensures SlotsAmong(r + [t], init + [e]) && StrictlyIncreasing(SlotElements(r + [t]))
  {
    SlotElementsSnoc(r, t);
    var es := init + [e];
    forall i | 0 <= i < |r|
      ensures r[i].element < e
    {
      var j :| 0 <= j < |init| && init[j] == r[i].element;
      assert es[j] == init[j] && es[|init|] == e;
    }
    IncreasingSnoc(SlotElements(r), e);
  }

  lemma SlotsAmongGrow(r: seq<SlotNode>, init: seq<nat>, e: nat)
    requires SlotsAmong(r, init)
    ensures SlotsAmong(r, init + [e])
  {
  }

  lemma ChildSlotsShapedSnoc(h: Host, root: nat, show: bool, r: seq<SlotNode>, t: SlotNode, slotEl: nat, blockEl: nat)
    requires WellFormed(h) && ChildSlotsShaped(h, root, show, r, slotEl, blockEl)
    requires ChildSlotOf(h, t.element, slotEl, blockEl) && SlotShaped(h, root, show, t, blockEl)
    ensures ChildSlotsShaped(h, root, show, r + [t], slotEl, blockEl)
  {
    var rt := r + [t];
    forall i | 0 <= i < |rt|
      ensures ChildSlotOf(h, rt[i].element, slotEl, blockEl) && SlotShaped(h, root, show, rt[i], blockEl)
    {
      if i < |r| { assert rt[i] == r[i]; }
    }
  }

  lemma DirectSlotsShapedSnoc(h: Host, root: nat, show: bool, r: seq<SlotNode>, t: SlotNode, blockEl: nat)
    requires WellFormed(h) && DirectSlotsShaped(h, root, show, r, blockEl)
    requires DirectSlotOf(h, t.element, blockEl) && SlotShaped(h, root, show, t, blockEl)
    ensures DirectSlotsShaped(h, root, show, r + [t], blockEl)
  {
    var rt := r + [t];
    forall i | 0 <= i < |rt|
      ensures DirectSlotOf(h, rt[i].element, blockEl) && SlotShaped(h, root, show, rt[i], blockEl)
    {
      if i < |r| { assert rt[i] == r[i]; }
    }
  }

  /** Blocks at `depth`, all shaped. */
  ghost predicate AllBlocksShaped(h: Host, root: nat, show: bool, bs: seq<BlockNode>, depth: nat)
    requires WellFormed(h)
  {
    forall i :: 0 <= i < |bs| ==> BlockShaped(h, root, show, bs[i], depth)
  }

  lemma AllBlocksShapedSnoc(h: Host, root: nat, show: bool, r: seq<BlockNode>, b: BlockNode, depth: nat)
    requires WellFormed(h) && AllBlocksShaped(h, root, show, r, depth) && BlockShaped(h, root, show, b, depth)
    ensures AllBlocksShaped(h, root, show, r + [b], depth)
  {
    var rb := r + [b];
    forall i | 0 <= i < |rb|
      ensures BlockShaped(h, root, show, rb[i], depth)
    {
      if i < |r| { assert rb[i] == r[i]; }
    }
  }

  /** Shaped blocks whose elements are nested blocks of the slot. */
  lemma NestedShapedFrom(h: Host, root: nat, show: bool, bs: seq<BlockNode>, found: seq<nat>, slotEl: nat, blockEl: nat)
    requires WellFormed(h) && AllBlocksShaped(h, root, show, bs, 0) && BlockElements(bs) == found
    requires forall i :: 0 <= i < |found| ==> NestedBlockOf(h, found[i], slotEl, blockEl)
    ensures NestedShaped(h, root, show, bs, slotEl, blockEl)
  {
  }

  /** Shaped blocks whose elements are child blocks of the parent. */
  lemma ChildBlocksShapedFrom(h: Host, root: nat, show: bool, bs: seq<BlockNode>, els: seq<nat>, parentEl: nat, depth: nat)
    requires WellFormed(h) && AllBlocksShaped(h, root, show, bs, depth) && BlockElements(bs) == els
    requires forall i :: 0 <= i < |els| ==> ChildBlockOf(h, els[i], parentEl)
    ensures ChildBlocksShaped(h, root, show, bs, parentEl, depth)
  {
  }

  /** The child-slot candidates in the form the builders need. */
  lemma ChildSlotElsFacts(h: Host, done: set<nat>, slotEl: nat, blockEl: nat)
    requires WellFormed(h)
    ensures StrictlyIncreasing(ChildSlotEls(h, done, slotEl, blockEl))
    ensures forall i :: 0 <= i < |ChildSlotEls(h, done, slotEl, blockEl)| ==>
      && slotEl < ChildSlotEls(h, done, slotEl, blockEl)[i] < |h.nodes|
      && ChildSlotEls(h, done, slotEl, blockEl)[i] !in done
      && ChildSlotOf(h, ChildSlotEls(h, done, slotEl, blockEl)[i], slotEl, blockEl)
  {
    var els := ChildSlotEls(h, done, slotEl, blockEl);
    ChildSlotElsBelow(h, done, slotEl, blockEl);
    ChildSlotElsSpec(h, done, slotEl, blockEl);
    forall i | 0 <= i < |els|
      ensures els[i] !in done && ChildSlotOf(h, els[i], slotEl, blockEl)
    {
      assert els[i] in els;
    }
  }

  /** A slot tree buildSlotTree returns is shaped. */
  lemma {:induction false} SlotTreeShape(sc: Scan, m: Marks, slotEl: nat, blockEl: nat)
    requires ScanFine(sc) && slotEl < |sc.h.nodes| && IsSlot(sc.h, slotEl)
    requires IsBlock(sc.h, blockEl) && ProperAncestor(sc.h, blockEl, slotEl)
    ensures var (r, m') := SlotTree(sc, m, slotEl, blockEl);
      r.Some? ==> SlotShaped(sc.h, sc.root, sc.show, r.value, blockEl)
    decreases |sc.h.nodes| - slotEl, 5, 0
  {
    var h := sc.h;
    if slotEl !in m.slots && IsElementVisible(h, slotEl, None, sc.show) {
      var m0 := Marks(m.slots + {slotEl}, m.blocks);
      var els := ChildSlotEls(h, m0.slots, slotEl, blockEl);
      ChildSlotElsFacts(h, m0.slots, slotEl, blockEl);
      var (childSlots, m1) := ChildSlots(sc, m0, slotEl, blockEl, els);
      ChildSlotsShape(sc, m0, slotEl, blockEl, els);
      SlotNestedShape(sc, m1, slotEl, blockEl);
    }
  }

  /** The blocks buildSlotTree nests in a slot are shaped. */
  lemma SlotNestedShape(sc: Scan, m: Marks, slotEl: nat, blockEl: nat)
    requires ScanFine(sc) && slotEl < |sc.h.nodes|
    ensures var (found, m1) := NestedScan(sc, m, slotEl, blockEl, sc.all);
      var (nested, m2) := NestedBlocks(sc, m1, slotEl, found);
      StrictlyIncreasing(BlockElements(nested)) && NestedShaped(sc.h, sc.root, sc.show, nested, slotEl, blockEl)
    decreases |sc.h.nodes| - slotEl, 4, 0
  {
    var (found, m1) := NestedScan(sc, m, slotEl, blockEl, sc.all);
    NestedScanFacts(sc, m, slotEl, blockEl);
    var (nested, m2) := NestedBlocks(sc, m1, slotEl, found);
    NestedBlocksShape(sc, m1, slotEl, found);
    NestedShapedFrom(sc.h, sc.root, sc.show, nested, found, slotEl, blockEl);
  }

  lemma {:induction false} ChildSlotsShape(sc: Scan, m: Marks, slotEl: nat, blockEl: nat, els: seq<nat>)
    requires ScanFine(sc) && slotEl < |sc.h.nodes|
    requires IsBlock(sc.h, blockEl) && ProperAncestor(sc.h, blockEl, slotEl)
    requires StrictlyIncreasing(els)
    requires forall i :: 0 <= i < |els| ==> slotEl < els[i] < |sc.h.nodes| && ChildSlotOf(sc.h, els[i], slotEl, blockEl)
    ensures var (r, m') := ChildSlots(sc, m, slotEl, blockEl, els);
      && StrictlyIncreasing(SlotElements(r)) && SlotsAmong(r, els)
      && ChildSlotsShaped(sc.h, sc.root, sc.show, r, slotEl, blockEl)
    decreases |sc.h.nodes| - slotEl, 3, |els|
  {
    if els != [] {
      var h := sc.h;
      var init, e := els[..|els| - 1], els[|els| - 1];
      assert els == init + [e];
      ChildSlotsShape(sc, m, slotEl, blockEl, init);
      var (prev, m1) := ChildSlots(sc, m, slotEl, blockEl, init);
      ContainsThenProperAncestor(h, blockEl, slotEl, e);
      SlotTreeShape(sc, m1, e, blockEl);
      SlotTreeFrame(sc, m1, e, blockEl);
      var (t, m2) := SlotTree(sc, m1, e, blockEl);
      if t.Some? {
        SlotsAmongSnoc(prev, t.value, init, e);
        ChildSlotsShapedSnoc(h, sc.root, sc.show, prev, t.value, slotEl, blockEl);
      } else {
        SlotsAmongGrow(prev, init, e);
        assert prev + [] == prev;
      }
    }
  }

  lemma {:induction false} NestedBlocksShape(sc: Scan, m: Marks, slotEl: nat, found: seq<nat>)
    requires ScanFine(sc) && slotEl < |sc.h.nodes|
    requires forall i :: 0 <= i < |found| ==>
      IsBlock(sc.h, found[i]) && slotEl <= found[i] && found[i] in sc.all && BlockVisible(sc.h, sc.show, found[i])
    ensures var (r, m') := NestedBlocks(sc, m, slotEl, found);
      BlockElements(r) == found && AllBlocksShaped(sc.h, sc.root, sc.show, r, 0)
    decreases |sc.h.nodes| - slotEl, 3, |found|
  {
    if found != [] {
      var init, e := found[..|found| - 1], found[|found| - 1];
      assert found == init + [e];
      NestedBlocksShape(sc, m, slotEl, init);
      var (prev, m1) := NestedBlocks(sc, m, slotEl, init);
      BlockTreeShape(sc, m1, e, 0);
      BlockTreeFrame(sc, m1, e, 0);
      var (b, m2) := BlockTree(sc, m1, e, 0);
      BlockElementsSnoc(prev, b);
      AllBlocksShapedSnoc(sc.h, sc.root, sc.show, prev, b, 0);
    }
  }

  /** A block tree buildBlockTree returns for a visible block under the
      root is shaped. */
  lemma {:induction false} BlockTreeShape(sc: Scan, m: Marks, blockEl: nat, depth: nat)
    requires ScanFine(sc) && IsBlock(sc.h, blockEl) && blockEl in sc.all && BlockVisible(sc.h, sc.show, blockEl)
    ensures var (r, m') := BlockTree(sc, m, blockEl, depth);
      BlockShaped(sc.h, sc.root, sc.show, r, depth)
    decreases |sc.h.nodes| - blockEl, 2, 0
  {
    var h := sc.h;
    InAll(sc, blockEl);
    var m0 := Marks(m.slots, m.blocks + {blockEl});
    var (slots, m1) := DirectSlotsOf(sc, m0, blockEl);
    DirectSlotsOfShape(sc, m0, blockEl);
    var (childEls, m2) := ChildBlockScan(sc, m1, blockEl, sc.all);
    ChildBlockScanFacts(sc, m1, blockEl);
    var (children, m3) := ChildBlocks(sc, m2, blockEl, depth, childEls);
    ChildBlocksShape(sc, m2, blockEl, depth, childEls);
    ChildBlocksShapedFrom(h, sc.root, sc.show, children, childEls, blockEl, depth + 1);
  }

  lemma DirectSlotsOfShape(sc: Scan, m: Marks, blockEl: nat)
    requires ScanFine(sc) && IsBlock(sc.h, blockEl)
    ensures var (r, m') := DirectSlotsOf(sc, m, blockEl);
      StrictlyIncreasing(SlotElements(r)) && DirectSlotsShaped(sc.h, sc.root, sc.show, r, blockEl)
    decreases |sc.h.nodes| - blockEl, 1, 0
  {
    var h := sc.h;
    var cands := QuerySelectorAll(h, blockEl, SlotSelector);
    SelectedBelow(h, blockEl, SlotSelector);
    QuerySelectorAllSpec(h, blockEl, SlotSelector);
    forall i | 0 <= i < |cands|
      ensures IsSlot(h, cands[i])
    {
      assert cands[i] in cands;
      SlotSelectorMatches(h, cands[i]);
    }
    DirectSlotsShape(sc, m, blockEl, cands);
  }

  lemma {:induction false} DirectSlotsShape(sc: Scan, m: Marks, blockEl: nat, cands: seq<nat>)
    requires ScanFine(sc) && IsBlock(sc.h, blockEl) && StrictlyIncreasing(cands)
    requires forall i :: 0 <= i < |cands| ==>
      blockEl < cands[i] < |sc.h.nodes| && IsSlot(sc.h, cands[i]) && ProperAncestor(sc.h, blockEl, cands[i])
    ensures var (r, m') := DirectSlots(sc, m, blockEl, cands);
      && StrictlyIncreasing(SlotElements(r)) && SlotsAmong(r, cands)
      && DirectSlotsShaped(sc.h, sc.root, sc.show, r, blockEl)
    decreases |sc.h.nodes| - blockEl, 0, |cands|
  {
    if cands != [] {
      var h := sc.h;
      var init, c := cands[..|cands| - 1], cands[|cands| - 1];
      assert cands == init + [c];
      DirectSlotsShape(sc, m, blockEl, init);
      var (prev, m1) := DirectSlots(sc, m, blockEl, init);
      if KeepDirectSlot(h, m1.slots, blockEl, c) {
        KeepDirectSlotSpec(h, m1.slots, blockEl, c);
        SlotTreeShape(sc, m1, c, blockEl);
        SlotTreeFrame(sc, m1, c, blockEl);
        var (t, m2) := SlotTree(sc, m1, c, blockEl);
        if t.Some? {
          SlotsAmongSnoc(prev, t.value, init, c);
          DirectSlotsShapedSnoc(h, sc.root, sc.show, prev, t.value, blockEl);
        } else {
          SlotsAmongGrow(prev, init, c);
          assert prev + [] == prev;
        }
      } else {
        SlotsAmongGrow(prev, init, c);
      }
    }
  }

  lemma {:induction false} ChildBlocksShape(sc: Scan, m: Marks, parentEl: nat, depth: nat, els: seq<nat>)
    requires ScanFine(sc) && parentEl < |sc.h.nodes|
    requires forall i :: 0 <= i < |els| ==>
      IsBlock(sc.h, els[i]) && parentEl < els[i] && els[i] in sc.all && BlockVisible(sc.h, sc.show, els[i])
    ensures var (r, m') := ChildBlocks(sc, m, parentEl, depth, els);
      BlockElements(r) == els && AllBlocksShaped(sc.h, sc.root, sc.show, r, depth + 1)
    decreases |sc.h.nodes| - parentEl, 0, |els|
  {
    if els != [] {
      var init, e := els[..|els| - 1], els[|els| - 1];
      assert els == init + [e];
      ChildBlocksShape(sc, m, parentEl, depth, init);
      var (prev, m1) := ChildBlocks(sc, m, parentEl, depth, init);
      BlockTreeShape(sc, m1, e, depth + 1);
      BlockTreeFrame(sc, m1, e, depth + 1);
      var (b, m2) := BlockTree(sc, m1, e, depth + 1);
      BlockElementsSnoc(prev, b);
      AllBlocksShapedSnoc(sc.h, sc.root, sc.show, prev, b, depth + 1);
    }
  }
}
