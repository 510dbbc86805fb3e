/** The block/slot structure scanner: visibility policy, containment
    resolution by ancestor walks, and the tree of blocks and slots built
    from the attributed elements of the host document. */
module ScannerEds {
  import opened Common
  import opened Dom

  const BlockAttr := "data-block-name"
  const SlotAttr := "data-slot"
  const SlotKeyAttr := "data-slot-key"
  const BlockSelector := AnyAttr({BlockAttr})
  const SlotSelector := AnyAttr({SlotAttr, SlotKeyAttr})
  const MediaSelector := TagIn({"img", "svg", "video", "canvas", "iframe"})
  const FormSelector := TagIn({"input", "button", "select", "textarea"})

  predicate IsBlock(h: Host, i: nat)
  {
    HasAttr(h, i, BlockAttr)
  }

  predicate IsSlot(h: Host, i: nat)
  {
    HasAttr(h, i, SlotAttr) || HasAttr(h, i, SlotKeyAttr)
  }

  lemma BlockSelectorMatches(h: Host, i: nat)
    ensures Matches(h, i, BlockSelector) <==> IsBlock(h, i)
  {
    if IsBlock(h, i) {
      assert BlockAttr in BlockSelector.names;
    }
  }

  lemma SlotSelectorMatches(h: Host, i: nat)
    ensures Matches(h, i, SlotSelector) <==> IsSlot(h, i)
  {
    if HasAttr(h, i, SlotAttr) {
      assert SlotAttr in SlotSelector.names;
    } else if HasAttr(h, i, SlotKeyAttr) {
      assert SlotKeyAttr in SlotSelector.names;
    }
  }

  // ---------------------------------------------------------------------
  // Visibility policy
  // ---------------------------------------------------------------------

  /** A style that hides the element outright. */
  predicate StyleHides(s: ComputedStyle)
  {
    s.display == "none" || s.visibility == "hidden" || s.opacity == "0"
  }

  /** A direct child that occupies area and is not hidden. */
  predicate ChildShows(h: Host, c: nat)
  {
    c < |h.nodes| && h.nodes[c].rect.width > 0.0 && h.nodes[c].rect.height > 0.0
    && !StyleHides(h.nodes[c].computed)
  }

  /** The loop over `children` in hasVisibleContent. */
  function AnyChildShows(h: Host, cs: seq<nat>): (r: bool)
    ensures r <==> exists k :: 0 <= k < |cs| && ChildShows(h, cs[k])
  {
    if cs == [] then false
    else if ChildShows(h, cs[0]) then true
    else
      assert forall k :: 1 <= k < |cs| ==> cs[k] == cs[1..][k - 1];
      AnyChildShows(h, cs[1..])
  }

  /** hasVisibleContent: text, a media or form descendant, a background
      image, or a child with area that is not hidden. */
  function HasVisibleContent(h: Host, el: nat): bool
    requires WellFormed(h) && el < |h.nodes|
  {
    var n := h.nodes[el];
    || Trim(n.textContent) != []
    || QuerySelector(h, el, MediaSelector).Some?
    || QuerySelector(h, el, FormSelector).Some?
    || (n.computed.backgroundImage != "" && n.computed.backgroundImage != "none")
    || AnyChildShows(h, Children(h, el))
  }

  /** Some child of `el` occupies area and is not hidden. */
  lemma AnyChildShowsSpec(h: Host, el: nat)
    requires WellFormed(h) && el < |h.nodes|
    ensures AnyChildShows(h, Children(h, el)) <==>
      exists c: nat :: c < |h.nodes| && h.nodes[c].parent == Some(el) && ChildShows(h, c)
  {
    if exists c: nat :: c < |h.nodes| && h.nodes[c].parent == Some(el) && ChildShows(h, c) {
      var c: nat :| c < |h.nodes| && h.nodes[c].parent == Some(el) && ChildShows(h, c);
      ChildrenFromComplete(h, el, 0, c);
      var cs := Children(h, el);
      var k :| 0 <= k < |cs| && cs[k] == c;
      assert ChildShows(h, cs[k]);
    }
  }

  /** hasVisibleContent in terms of the document itself rather than the
      queries that implement it. */
  lemma HasVisibleContentSpec(h: Host, el: nat)
    requires WellFormed(h) && el < |h.nodes|
    ensures HasVisibleContent(h, el) <==>
      || (exists i :: 0 <= i < |h.nodes[el].textContent| && !IsJsWhitespace(h.nodes[el].textContent[i]))
      || (exists d: nat :: d < |h.nodes| && ProperAncestor(h, el, d) && Matches(h, d, MediaSelector))
      || (exists d: nat :: d < |h.nodes| && ProperAncestor(h, el, d) && Matches(h, d, FormSelector))
      || (h.nodes[el].computed.backgroundImage != "" && h.nodes[el].computed.backgroundImage != "none")
      || (exists c: nat :: c < |h.nodes| && h.nodes[c].parent == Some(el) && ChildShows(h, c))
  {
    TrimNonEmptyIff(h.nodes[el].textContent);
    QuerySelectorSpec(h, el, MediaSelector);
    QuerySelectorSpec(h, el, FormSelector);
    AnyChildShowsSpec(h, el);
  }

  /** A block name that marks a header or footer region. */
  predicate IsChromeName(name: string)
  {
    var lower := ToLower(name);
    lower == "header" || lower == "footer" || StrContains(lower, "header") || StrContains(lower, "footer")
  }

  /** isElementVisible(el, blockName, showEmptySlots).  `blockName` is
      None for slots; an empty name is falsy and gets no exception. */
  function IsElementVisible(h: Host, el: nat, blockName: Option<string>, showEmptySlots: bool): bool
    requires WellFormed(h) && el < |h.nodes|
  {
    var n := h.nodes[el];
    if showEmptySlots then true
    else if StyleHides(n.computed) then false
    else if blockName.Some? && blockName.value != "" && IsChromeName(blockName.value) then
      n.rect.height > 0.0 || n.rect.width > 0.0
    else if n.rect.height == 0.0 || n.rect.width == 0.0 then false
    else HasVisibleContent(h, el)
  }

  /** The header/footer test is a substring test on the lower-cased name. */
  lemma ChromeNameIsSubstring(name: string)
    ensures IsChromeName(name) <==> Includes(ToLower(name), "header") || Includes(ToLower(name), "footer")
  {
    var lower := ToLower(name);
    if lower == "header" {
      assert OccursAt(lower, "header", 0);
    }
    if lower == "footer" {
      assert OccursAt(lower, "footer", 0);
    }
  }

  /** The four cases of the visibility policy. */
  lemma VisibilityPolicy(h: Host, el: nat, blockName: Option<string>, show: bool)
    requires WellFormed(h) && el < |h.nodes|
    ensures show ==> IsElementVisible(h, el, blockName, show)
    ensures !show && StyleHides(h.nodes[el].computed) ==> !IsElementVisible(h, el, blockName, show)
    ensures !show && !StyleHides(h.nodes[el].computed) && blockName.Some? && IsChromeName(blockName.value) ==>
      (IsElementVisible(h, el, blockName, show) <==> h.nodes[el].rect.width > 0.0 || h.nodes[el].rect.height > 0.0)
    ensures !show && !StyleHides(h.nodes[el].computed) && (blockName.None? || !IsChromeName(blockName.value)) ==>
      (IsElementVisible(h, el, blockName, show) <==>
        h.nodes[el].rect.width != 0.0 && h.nodes[el].rect.height != 0.0 && HasVisibleContent(h, el))
  {
    if blockName.Some? && blockName.value == "" {
      assert ToLower("") == "";
      assert !Includes("", "header") && !Includes("", "footer");
      ChromeNameIsSubstring("");
    }
  }

  // ---------------------------------------------------------------------
  // DOM helpers
  // ---------------------------------------------------------------------

  /** compareDomOrder: negative when `a` comes first in document order. */
  function CompareDomOrder(a: nat, b: nat): (r: int)
    ensures r == 0 <==> a == b
    ensures r < 0 <==> a < b
    ensures r > 0 <==> b < a
    ensures -1 <= r <= 1
  {
    if a == b then 0 else if a < b then -1 else 1
  }

  /** compareDomOrder is antisymmetric and transitive: a valid comparator. */
  lemma CompareDomOrderIsTotalOrder(a: nat, b: nat, c: nat)
    ensures CompareDomOrder(a, b) == -CompareDomOrder(b, a)
    ensures CompareDomOrder(a, b) <= 0 && CompareDomOrder(b, c) <= 0 ==> CompareDomOrder(a, c) <= 0
  {
  }

  /** The nearest block among `p` and its ancestors. */
  function NearestBlockFrom(h: Host, p: Option<nat>): (r: Option<nat>)
    requires WellFormed(h) && (p.Some? ==> p.value < |h.nodes|)
    ensures r.Some? ==> r.value < |h.nodes| && IsBlock(h, r.value)
    decreases if p.Some? then p.value + 1 else 0
  {
    match p
    case None => None
    case Some(q) => if IsBlock(h, q) then Some(q) else NearestBlockFrom(h, h.nodes[q].parent)
  }

  /** getDirectParentBlock: the nearest strict ancestor carrying a block name. */
  function ParentBlockOf(h: Host, el: nat): Option<nat>
    requires WellFormed(h) && el < |h.nodes|
  {
    NearestBlockFrom(h, h.nodes[el].parent)
  }

  lemma {:induction false} NearestBlockFromSpec(h: Host, p: nat, el: nat)
    requires WellFormed(h) && el < |h.nodes| && p < |h.nodes| && Contains(h, p, el)
    ensures NearestBlockFrom(h, Some(p)).Some? ==> Contains(h, NearestBlockFrom(h, Some(p)).value, p)
    ensures forall a: nat :: a < |h.nodes| && Contains(h, a, p) && IsBlock(h, a) ==>
      NearestBlockFrom(h, Some(p)).Some? && Contains(h, a, NearestBlockFrom(h, Some(p)).value)
    decreases p
  {
    if !IsBlock(h, p) && h.nodes[p].parent.Some? {
      var q := h.nodes[p].parent.value;
      ContainsTransitive(h, q, p, el);
      NearestBlockFromSpec(h, q, el);
      var r := NearestBlockFrom(h, Some(q));
      if r.Some? {
        ContainsTransitive(h, r.value, q, p);
      }
    }
  }

  /** What the upward walk finds: a block strictly above `el`, below every
      other block strictly above `el`; none exactly when no strict
      ancestor is a block. */
  lemma ParentBlockSpec(h: Host, el: nat)
    requires WellFormed(h) && el < |h.nodes|
    ensures ParentBlockOf(h, el).Some? ==>
      IsBlock(h, ParentBlockOf(h, el).value) && ProperAncestor(h, ParentBlockOf(h, el).value, el)
    ensures forall a: nat :: a < |h.nodes| && ProperAncestor(h, a, el) && IsBlock(h, a) ==>
      ParentBlockOf(h, el).Some? && Contains(h, a, ParentBlockOf(h, el).value)
  {
    if h.nodes[el].parent.Some? {
      NearestBlockFromSpec(h, h.nodes[el].parent.value, el);
    }
  }

  /** getDirectParentBlock as the source writes it: a loop up the parents. */
  method GetDirectParentBlock(h: Host, el: nat) returns (r: Option<nat>)
    requires WellFormed(h) && el < |h.nodes|
    ensures r == ParentBlockOf(h, el)
  {
    var parent: Option<nat> := h.nodes[el].parent;
    while parent.Some?
      invariant parent.Some? ==> parent.value < |h.nodes|
      invariant NearestBlockFrom(h, parent) == ParentBlockOf(h, el)
      decreases if parent.Some? then parent.value + 1 else 0
    {
      if IsBlock(h, parent.value) {
        return parent;
      }
      parent := h.nodes[parent.value].parent;
    }
    return None;
  }

  /** The nearest slot among `p` and its ancestors, stopping (exclusive)
      at `within`. */
  function NearestSlotFrom(h: Host, p: Option<nat>, within: nat): (r: Option<nat>)
    requires WellFormed(h) && (p.Some? ==> p.value < |h.nodes|)
    ensures r.Some? ==> r.value < |h.nodes| && IsSlot(h, r.value) && r.value != within
    decreases if p.Some? then p.value + 1 else 0
  {
    match p
    case None => None
    case Some(q) =>
      if q == within then None
      else if IsSlot(h, q) then Some(q)
      else NearestSlotFrom(h, h.nodes[q].parent, within)
  }

  /** getDirectParentSlot(el, withinBlock) */
  function ParentSlotWithin(h: Host, el: nat, within: nat): Option<nat>
    requires WellFormed(h) && el < |h.nodes|
  {
    NearestSlotFrom(h, h.nodes[el].parent, within)
  }

  /** `a` lies strictly between `within` and `el` on the ancestor path. */
  predicate Between(h: Host, within: nat, a: nat, el: nat)
    requires WellFormed(h) && el < |h.nodes|
  {
    ProperAncestor(h, a, el) && a < |h.nodes| && ProperAncestor(h, within, a)
  }

  lemma {:induction false} NearestSlotFromSpec(h: Host, p: nat, el: nat, within: nat)
    requires WellFormed(h) && el < |h.nodes| && h.nodes[el].parent.Some?
    requires p < |h.nodes| && Contains(h, p, h.nodes[el].parent.value) && Contains(h, within, p)
    requires forall a: nat :: a < |h.nodes| && ProperAncestor(h, a, el) && !Contains(h, a, p) ==> !IsSlot(h, a)
    ensures var r := NearestSlotFrom(h, Some(p), within);
      && (r.Some? ==> Between(h, within, r.value, el))
      && (forall a: nat :: Between(h, within, a, el) && IsSlot(h, a) ==> r.Some? && Contains(h, a, r.value))
    decreases p
  {
    var parentEl := h.nodes[el].parent.value;
    if p == within {
      forall a: nat | Between(h, within, a, el) && IsSlot(h, a)
        ensures false
      {
        if Contains(h, a, p) {
          ContainsOrdered(h, a, p);
          ProperAncestorOrdered(h, within, a);
        }
      }
    } else {
      var q := h.nodes[p].parent.value;
      if IsSlot(h, p) {
        forall a: nat | Between(h, within, a, el) && IsSlot(h, a)
          ensures Contains(h, a, p)
        {
          AncestorChain(h, a, p, parentEl);
        }
      } else {
        forall a: nat | a < |h.nodes| && ProperAncestor(h, a, el) && !Contains(h, a, q)
          ensures !IsSlot(h, a)
        {
        }
        ContainsTransitive(h, q, p, parentEl);
        NearestSlotFromSpec(h, q, el, within);
        forall a: nat | Between(h, within, a, el) && IsSlot(h, a)
          ensures Contains(h, a, q)
        {
          AncestorChain(h, a, p, parentEl);
        }
      }
    }
  }

  /** What the bounded upward walk finds when `within` is above `el`: the
      nearest slot strictly between the two; none exactly when there is no
      slot between them. */
  lemma ParentSlotSpec(h: Host, el: nat, within: nat)
    requires WellFormed(h) && el < |h.nodes| && ProperAncestor(h, within, el)
    ensures ParentSlotWithin(h, el, within).Some? ==>
      IsSlot(h, ParentSlotWithin(h, el, within).value) && Between(h, within, ParentSlotWithin(h, el, within).value, el)
    ensures forall a: nat :: Between(h, within, a, el) && IsSlot(h, a) ==>
      ParentSlotWithin(h, el, within).Some? && Contains(h, a, ParentSlotWithin(h, el, within).value)
  {
    var p := h.nodes[el].parent.value;
    NearestSlotFromSpec(h, p, el, within);
  }

  /** getDirectParentSlot as the source writes it. */
  method GetDirectParentSlot(h: Host, el: nat, within: nat) returns (r: Option<nat>)
    requires WellFormed(h) && el < |h.nodes|
    ensures r == ParentSlotWithin(h, el, within)
  {
    var parent: Option<nat> := h.nodes[el].parent;
    while parent.Some? && parent.value != within
      invariant parent.Some? ==> parent.value < |h.nodes|
      invariant NearestSlotFrom(h, parent, within) == ParentSlotWithin(h, el, within)
      decreases if parent.Some? then parent.value + 1 else 0
    {
      if IsSlot(h, parent.value) {
        return parent;
      }
      parent := h.nodes[parent.value].parent;
    }
    return None;
  }

  // ---------------------------------------------------------------------
  // The block/slot tree
  // ---------------------------------------------------------------------

  /** A slot: its child slots and the blocks nested inside it.  `id` is
      None until ids are minted. */
  datatype SlotNode = SlotNode(
    name: string, element: nat, childSlots: seq<SlotNode>, children: seq<BlockNode>, id: Option<string>)

  /** A block: its direct slots and its direct child blocks. */
  datatype BlockNode = BlockNode(
    name: string, element: nat, slots: seq<SlotNode>, children: seq<BlockNode>, depth: nat, id: Option<string>)

  datatype Counts = Counts(blocks: nat, slots: nat)

  datatype ScanResult = ScanResult(blocks: seq<BlockNode>, standaloneSlots: seq<SlotNode>, counts: Counts)

  /** `data-slot`, else `data-slot-key`, else a placeholder; an empty
      attribute value is falsy and falls through. */
  function SlotName(h: Host, s: nat): string
  {
    var slot := GetAttr(h, s, SlotAttr);
    var key := GetAttr(h, s, SlotKeyAttr);
    if slot.Some? && slot.value != "" then slot.value
    else if key.Some? && key.value != "" then key.value
    else "Unnamed Slot"
  }

  function BlockName(h: Host, b: nat): string
    requires IsBlock(h, b)
  {
    h.nodes[b].attrs[BlockAttr]
  }

  function SlotElements(ss: seq<SlotNode>): (r: seq<nat>)
    ensures |r| == |ss| && forall i :: 0 <= i < |ss| ==> r[i] == ss[i].element
  {
    if ss == [] then [] else [ss[0].element] + SlotElements(ss[1..])
  }

  function BlockElements(bs: seq<BlockNode>): (r: seq<nat>)
    ensures |r| == |bs| && forall i :: 0 <= i < |bs| ==> r[i] == bs[i].element
  {
    if bs == [] then [] else [bs[0].element] + BlockElements(bs[1..])
  }

  /** The conditions under which getDirectSlots keeps slot `s` of block `b`. */
  predicate DirectSlotOf(h: Host, s: nat, b: nat)
    requires WellFormed(h)
  {
    && s < |h.nodes| && IsSlot(h, s) && ProperAncestor(h, b, s)
    && (ParentBlockOf(h, s).None? || ParentBlockOf(h, s) == Some(b))
    && ParentSlotWithin(h, s, b).None?
  }

  /** The conditions under which buildSlotTree(s, b) keeps `c` as a child slot. */
  predicate ChildSlotOf(h: Host, c: nat, s: nat, b: nat)
    requires WellFormed(h)
  {
    && c < |h.nodes| && IsSlot(h, c) && ProperAncestor(h, s, c)
    && ParentSlotWithin(h, c, b) == Some(s)
    && (ParentBlockOf(h, c).None? || ParentBlockOf(h, c) == Some(b))
  }

  /** The conditions under which buildSlotTree(s, b) nests block `nb`. */
  predicate NestedBlockOf(h: Host, nb: nat, s: nat, b: nat)
    requires WellFormed(h)
  {
    && nb < |h.nodes| && IsBlock(h, nb) && Contains(h, s, nb)
    && (ParentBlockOf(h, nb).None? || ParentBlockOf(h, nb) == Some(b))
    && (ParentSlotWithin(h, nb, b).None? || ParentSlotWithin(h, nb, b) == Some(s))
  }

  /** `c` is a block whose nearest block ancestor is `p`. */
  predicate ChildBlockOf(h: Host, c: nat, p: nat)
    requires WellFormed(h)
  {
    c < |h.nodes| && IsBlock(h, c) && ParentBlockOf(h, c) == Some(p)
  }

  /** The shape of a slot tree built inside block `blockEl`: every node is
      a visible slot, children are in document order, child slots have
      this slot as their nearest slot inside the block, nested blocks lie
      inside this slot and are built from depth 0. */
  ghost predicate SlotShaped(h: Host, root: nat, show: bool, s: SlotNode, blockEl: nat)
    requires WellFormed(h)
    decreases s
  {
    && s.element < |h.nodes| && IsSlot(h, s.element)
    && s.name == SlotName(h, s.element)
    && IsElementVisible(h, s.element, None, show)
    && StrictlyIncreasing(SlotElements(s.childSlots))
    && StrictlyIncreasing(BlockElements(s.children))
    && ChildSlotsShaped(h, root, show, s.childSlots, s.element, blockEl)
    && NestedShaped(h, root, show, s.children, s.element, blockEl)
  }

  ghost predicate ChildSlotsShaped(h: Host, root: nat, show: bool, ss: seq<SlotNode>, slotEl: nat, blockEl: nat)
    requires WellFormed(h)
    decreases ss
  {
    forall i :: 0 <= i < |ss| ==>
      ChildSlotOf(h, ss[i].element, slotEl, blockEl) && SlotShaped(h, root, show, ss[i], blockEl)
  }

  ghost predicate NestedShaped(h: Host, root: nat, show: bool, bs: seq<BlockNode>, slotEl: nat, blockEl: nat)
    requires WellFormed(h)
    decreases bs
  {
    forall i :: 0 <= i < |bs| ==>
      NestedBlockOf(h, bs[i].element, slotEl, blockEl) && BlockShaped(h, root, show, bs[i], 0)
  }

  /** The shape of a block tree: every node is a visible block under the
      root, at the given depth, with its direct slots and direct child
      blocks in document order, child blocks one level deeper. */
  ghost predicate BlockShaped(h: Host, root: nat, show: bool, b: BlockNode, depth: nat)
    requires WellFormed(h)
    decreases b
  {
    && b.element < |h.nodes| && ProperAncestor(h, root, b.element) && IsBlock(h, b.element)
    && b.name == BlockName(h, b.element) && b.depth == depth
    && IsElementVisible(h, b.element, Some(b.name), show)
    && StrictlyIncreasing(SlotElements(b.slots))
    && StrictlyIncreasing(BlockElements(b.children))
    && DirectSlotsShaped(h, root, show, b.slots, b.element)
    && ChildBlocksShaped(h, root, show, b.children, b.element, depth + 1)
  }

  ghost predicate DirectSlotsShaped(h: Host, root: nat, show: bool, ss: seq<SlotNode>, blockEl: nat)
    requires WellFormed(h)
    decreases ss
  {
    forall i :: 0 <= i < |ss| ==>
      DirectSlotOf(h, ss[i].element, blockEl) && SlotShaped(h, root, show, ss[i], blockEl)
  }

  ghost predicate ChildBlocksShaped(h: Host, root: nat, show: bool, bs: seq<BlockNode>, parentEl: nat, depth: nat)
    requires WellFormed(h)
    decreases bs
  {
    forall i :: 0 <= i < |bs| ==>
      ChildBlockOf(h, bs[i].element, parentEl) && BlockShaped(h, root, show, bs[i], depth)
  }

  // ---------------------------------------------------------------------
  // Pre-order traversal
  // ---------------------------------------------------------------------

  datatype Kind = BlockKind | SlotKind

  /** One node of the tree as the pre-order traversal meets it. */
  datatype Entry = Entry(kind: Kind, element: nat, name: string, id: Option<string>)

  /** The traversal the id pass makes: a block, then its slot subtrees
      (each slot, its child slots, then the blocks nested in it), then its
      child blocks. */
  function FlatBlocks(bs: seq<BlockNode>): seq<Entry>
    decreases bs
  {
    if bs == [] then [] else FlatBlock(bs[0]) + FlatBlocks(bs[1..])
  }

  function FlatBlock(b: BlockNode): seq<Entry>
    decreases b
  {
    [Entry(BlockKind, b.element, b.name, b.id)] + FlatSlots(b.slots) + FlatBlocks(b.children)
  }

  function FlatSlots(ss: seq<SlotNode>): seq<Entry>
    decreases ss
  {
    if ss == [] then [] else FlatSlot(ss[0]) + FlatSlots(ss[1..])
  }

  function FlatSlot(s: SlotNode): seq<Entry>
    decreases s
  {
    [Entry(SlotKind, s.element, s.name, s.id)] + FlatSlots(s.childSlots) + FlatBlocks(s.children)
  }

  lemma {:induction false} FlatBlocksAppend(a: seq<BlockNode>, b: seq<BlockNode>)
    ensures FlatBlocks(a + b) == FlatBlocks(a) + FlatBlocks(b)
    decreases |a|
  {
    if a != [] {
      assert (a + b)[1..] == a[1..] + b;
      FlatBlocksAppend(a[1..], b);
    } else {
      assert a + b == b;
    }
  }

  lemma {:induction false} FlatSlotsAppend(a: seq<SlotNode>, b: seq<SlotNode>)
    ensures FlatSlots(a + b) == FlatSlots(a) + FlatSlots(b)
    decreases |a|
  {
    if a != [] {
      assert (a + b)[1..] == a[1..] + b;
      FlatSlotsAppend(a[1..], b);
    } else {
      assert a + b == b;
    }
  }

  lemma FlatBlocksSnoc(a: seq<BlockNode>, b: BlockNode)
    ensures FlatBlocks(a + [b]) == FlatBlocks(a) + FlatBlock(b)
  {
    FlatBlocksAppend(a, [b]);
    assert FlatBlocks([b]) == FlatBlock(b) + FlatBlocks([]);
  }

  lemma FlatSlotsSnoc(a: seq<SlotNode>, s: SlotNode)
    ensures FlatSlots(a + [s]) == FlatSlots(a) + FlatSlot(s)
  {
    FlatSlotsAppend(a, [s]);
    assert FlatSlots([s]) == FlatSlot(s) + FlatSlots([]);
  }

  // ---------------------------------------------------------------------
  // Facts about blocks and slots used by the scanner's proofs
  // ---------------------------------------------------------------------

  /** Two different blocks with the same nearest block ancestor are never
      nested one in the other. */
  lemma SiblingBlocksNotNested(h: Host, a: nat, b: nat)
    requires WellFormed(h) && a < |h.nodes| && b < |h.nodes| && IsBlock(h, a) && a != b
    requires ParentBlockOf(h, a) == ParentBlockOf(h, b)
    ensures !Contains(h, a, b)
  {
    if Contains(h, a, b) {
      ParentBlockSpec(h, b);
      ParentBlockSpec(h, a);
      var p := ParentBlockOf(h, b).value;
      ProperAncestorOrdered(h, p, a);
      ContainsOrdered(h, a, p);
    }
  }

  /** Two different slots that both have no slot between them and block
      `b` (or both have the same nearest slot) are never nested. */
  lemma SiblingSlotsNotNested(h: Host, a: nat, c: nat, b: nat)
    requires WellFormed(h) && a < |h.nodes| && c < |h.nodes| && IsSlot(h, a) && a != c
    requires ProperAncestor(h, b, a) && ProperAncestor(h, b, c)
    requires ParentSlotWithin(h, c, b).None? || ParentSlotWithin(h, c, b) == ParentSlotWithin(h, a, b)
    ensures !Contains(h, a, c)
  {
    if Contains(h, a, c) {
      assert Between(h, b, a, c);
      ParentSlotSpec(h, c, b);
      ParentSlotSpec(h, a, b);
      var p := ParentSlotWithin(h, c, b).value;
      ProperAncestorOrdered(h, p, a);
      ContainsOrdered(h, a, p);
    }
  }

  lemma ContainsAll(h: Host, a: nat, b: nat, xs: set<nat>)
    requires WellFormed(h) && b < |h.nodes| && Contains(h, a, b)
    requires forall x :: x in xs ==> x < |h.nodes| && Contains(h, b, x)
    ensures forall x :: x in xs ==> Contains(h, a, x)
  {
    forall x | x in xs
      ensures Contains(h, a, x)
    {
      ContainsTransitive(h, a, b, x);
    }
  }

  lemma IncreasingPrefix(s: seq<nat>, k: nat)
    requires StrictlyIncreasing(s) && k < |s|
    ensures forall x :: x in s[..k] ==> x < s[k]
    ensures s[k] !in s[..k]
    ensures s[..k + 1] == s[..k] + [s[k]]
  {
  }

  /** A block that passes the visibility policy under its own name. */
  predicate BlockVisible(h: Host, show: bool, b: nat)
    requires WellFormed(h) && IsBlock(h, b)
  {
    IsElementVisible(h, b, Some(BlockName(h, b)), show)
  }

  /** A nested block has the slot's block as its nearest block. */
  lemma NestedParentIsBlock(h: Host, x: nat, s: nat, b: nat)
    requires WellFormed(h) && s < |h.nodes| && NestedBlockOf(h, x, s, b)
    requires IsBlock(h, b) && ProperAncestor(h, b, s)
    ensures ProperAncestor(h, b, x) && ParentBlockOf(h, x) == Some(b)
  {
    ProperAncestorThenContains(h, b, s, x);
    ParentBlockSpec(h, x);
  }

  // ---------------------------------------------------------------------
  // The callbacks the scan passes to filter and forEach
  // ---------------------------------------------------------------------

  /** What a forEach callback over candidate elements decides: leave the
      element alone, mark it processed because it is hidden, or take it. */
  datatype Verdict = Pass | Hidden | Take

  /** The top-level filter: no block ancestor, and visible. */
  function TopCond(h: Host, show: bool): nat -> bool
  {
    (x: nat) => WellFormed(h) && IsBlock(h, x) && ParentBlockOf(h, x).None? && BlockVisible(h, show, x)
  }

  /** The filter buildSlotTree applies to the slots under `slotEl`. */
  predicate KeepChildSlot(h: Host, done: set<nat>, slotEl: nat, blockEl: nat, childEl: nat)
    requires WellFormed(h) && childEl < |h.nodes|
  {
    if childEl in done then false
    else if childEl == slotEl then false
    else if ParentSlotWithin(h, childEl, blockEl) != Some(slotEl) then false
    else if ParentBlockOf(h, childEl).Some? && ParentBlockOf(h, childEl) != Some(blockEl) then false
    else true
  }

  function ChildSlotCond(h: Host, done: set<nat>, slotEl: nat, blockEl: nat): nat -> bool
  {
    (x: nat) => WellFormed(h) && x < |h.nodes| && KeepChildSlot(h, done, slotEl, blockEl, x)
  }

  /** childSlotEls in buildSlotTree. */
  function ChildSlotEls(h: Host, done: set<nat>, slotEl: nat, blockEl: nat): seq<nat>
    requires WellFormed(h)
  {
    Filter(QuerySelectorAll(h, slotEl, SlotSelector), ChildSlotCond(h, done, slotEl, blockEl))
  }

  /** The child-slot candidates are exactly the unprocessed slots that
      have `slotEl` as their nearest slot inside the block and no other
      block in between, in document order. */
  lemma ChildSlotElsSpec(h: Host, done: set<nat>, slotEl: nat, blockEl: nat)
    requires WellFormed(h)
    ensures StrictlyIncreasing(ChildSlotEls(h, done, slotEl, blockEl))
    ensures forall x: nat :: x in ChildSlotEls(h, done, slotEl, blockEl) <==>
      x !in done && ChildSlotOf(h, x, slotEl, blockEl)
  {
    var below := QuerySelectorAll(h, slotEl, SlotSelector);
    QuerySelectorAllSpec(h, slotEl, SlotSelector);
    FilterIncreasing(below, ChildSlotCond(h, done, slotEl, blockEl));
    FilterMembers(below, ChildSlotCond(h, done, slotEl, blockEl));
    forall x: nat
      ensures x in ChildSlotEls(h, done, slotEl, blockEl) <==> x !in done && ChildSlotOf(h, x, slotEl, blockEl)
    {
      SlotSelectorMatches(h, x);
      if x < |h.nodes| && ProperAncestor(h, slotEl, x) {
        ProperAncestorOrdered(h, slotEl, x);
      }
    }
  }

  /** The forEach callback in buildSlotTree over all blocks. */
  function NestedVerdict(h: Host, show: bool, done: set<nat>, slotEl: nat, blockEl: nat, nb: nat): Verdict
    requires WellFormed(h) && IsBlock(h, nb)
  {
    if nb in done then Pass
    else if !Contains(h, slotEl, nb) then Pass
    else if ParentBlockOf(h, nb).Some? && ParentBlockOf(h, nb) != Some(blockEl) then Pass
    else if ParentSlotWithin(h, nb, blockEl).Some? && ParentSlotWithin(h, nb, blockEl) != Some(slotEl) then Pass
    else if !BlockVisible(h, show, nb) then Hidden
    else Take
  }

  lemma NestedVerdictSpec(h: Host, show: bool, done: set<nat>, slotEl: nat, blockEl: nat, nb: nat)
    requires WellFormed(h) && IsBlock(h, nb)
    ensures NestedVerdict(h, show, done, slotEl, blockEl, nb) == Take <==>
      nb !in done && NestedBlockOf(h, nb, slotEl, blockEl) && BlockVisible(h, show, nb)
    ensures NestedVerdict(h, show, done, slotEl, blockEl, nb) == Hidden <==>
      nb !in done && NestedBlockOf(h, nb, slotEl, blockEl) && !BlockVisible(h, show, nb)
  {
  }

  function NestedTake(h: Host, show: bool, done: set<nat>, slotEl: nat, blockEl: nat): nat -> bool
  {
    (x: nat) => WellFormed(h) && IsBlock(h, x) && NestedVerdict(h, show, done, slotEl, blockEl, x) == Take
  }

  function NestedHidden(h: Host, show: bool, done: set<nat>, slotEl: nat, blockEl: nat): nat -> bool
  {
    (x: nat) => WellFormed(h) && IsBlock(h, x) && NestedVerdict(h, show, done, slotEl, blockEl, x) == Hidden
  }

  /** The guard of the forEach callback in getDirectSlots. */
  predicate KeepDirectSlot(h: Host, done: set<nat>, blockEl: nat, slotEl: nat)
    requires WellFormed(h) && slotEl < |h.nodes|
  {
    if slotEl in done then false
    else if ParentBlockOf(h, slotEl).Some? && ParentBlockOf(h, slotEl) != Some(blockEl) then false
    else if ParentSlotWithin(h, slotEl, blockEl).Some? then false
    else true
  }

  lemma KeepDirectSlotSpec(h: Host, done: set<nat>, blockEl: nat, slotEl: nat)
    requires WellFormed(h) && slotEl < |h.nodes| && IsSlot(h, slotEl) && ProperAncestor(h, blockEl, slotEl)
    ensures KeepDirectSlot(h, done, blockEl, slotEl) <==> slotEl !in done && DirectSlotOf(h, slotEl, blockEl)
  {
  }

  /** The slots getDirectSlots returns: the guard holds and the slot tree
      is built, which needs the slot to be visible. */
  function DirectSlotCond(h: Host, show: bool, done: set<nat>, blockEl: nat): nat -> bool
  {
    (x: nat) => WellFormed(h) && x < |h.nodes| && KeepDirectSlot(h, done, blockEl, x) && IsElementVisible(h, x, None, show)
  }

  /** The child slots whose buildSlotTree call returns a node. */
  function BuiltSlotCond(h: Host, show: bool, done: set<nat>): nat -> bool
  {
    (x: nat) => WellFormed(h) && x < |h.nodes| && x !in done && IsElementVisible(h, x, None, show)
  }

  /** The forEach callback in getDirectChildBlocks. */
  function ChildBlockVerdict(h: Host, show: bool, done: set<nat>, parentEl: nat, el: nat): Verdict
    requires WellFormed(h) && IsBlock(h, el)
  {
    if el in done then Pass
    else if ParentBlockOf(h, el) != Some(parentEl) then Pass
    else if !BlockVisible(h, show, el) then Hidden
    else Take
  }

  lemma ChildBlockVerdictSpec(h: Host, show: bool, done: set<nat>, parentEl: nat, el: nat)
    requires WellFormed(h) && IsBlock(h, el)
    ensures ChildBlockVerdict(h, show, done, parentEl, el) == Take <==>
      el !in done && ChildBlockOf(h, el, parentEl) && BlockVisible(h, show, el)
    ensures ChildBlockVerdict(h, show, done, parentEl, el) == Hidden <==>
      el !in done && ChildBlockOf(h, el, parentEl) && !BlockVisible(h, show, el)
  {
  }

  function ChildBlockTake(h: Host, show: bool, done: set<nat>, parentEl: nat): nat -> bool
  {
    (x: nat) => WellFormed(h) && IsBlock(h, x) && ChildBlockVerdict(h, show, done, parentEl, x) == Take
  }

  function ChildBlockHidden(h: Host, show: bool, done: set<nat>, parentEl: nat): nat -> bool
  {
    (x: nat) => WellFormed(h) && IsBlock(h, x) && ChildBlockVerdict(h, show, done, parentEl, x) == Hidden
  }

  /** allBlockElements.some(block => block.contains(el)) */
  function AnyContains(h: Host, bs: seq<nat>, x: nat): (r: bool)
    requires WellFormed(h) && x < |h.nodes|
    ensures r <==> exists k :: 0 <= k < |bs| && Contains(h, bs[k], x)
  {
    if bs == [] then false
    else if Contains(h, bs[0], x) then true
    else
      assert forall k :: 1 <= k < |bs| ==> bs[k] == bs[1..][k - 1];
      AnyContains(h, bs[1..], x)
  }

  /** The forEach callback collecting standalone slots. */
  function StandaloneVerdict(h: Host, show: bool, done: set<nat>, blocks: seq<nat>, el: nat): Verdict
    requires WellFormed(h) && el < |h.nodes|
  {
    if el in done then Pass
    else if AnyContains(h, blocks, el) then Pass
    else if !IsElementVisible(h, el, None, show) then Pass
    else Take
  }

  /** The standalone filter: visible slots inside none of `blocks`. */
  function StandaloneCond(h: Host, show: bool, blocks: seq<nat>): nat -> bool
  {
    (x: nat) => WellFormed(h) && x < |h.nodes| && !AnyContains(h, blocks, x) && IsElementVisible(h, x, None, show)
  }

  /** The roots of the scan: the top-level filter over the blocks under `root`. */
  function TopLevelSpec(h: Host, root: nat, show: bool): seq<nat>
    requires WellFormed(h)
  {
    Filter(QuerySelectorAll(h, root, BlockSelector), TopCond(h, show))
  }

  /** Roots are exactly the visible blocks under the root with no block
      ancestor at all, in document order. */
  lemma TopLevelSpecIff(h: Host, root: nat, show: bool)
    requires WellFormed(h)
    ensures StrictlyIncreasing(TopLevelSpec(h, root, show))
    ensures forall x: nat :: x in TopLevelSpec(h, root, show) <==>
      && x < |h.nodes| && ProperAncestor(h, root, x) && IsBlock(h, x)
      && ParentBlockOf(h, x).None? && BlockVisible(h, show, x)
  {
    QuerySelectorAllSpec(h, root, BlockSelector);
    FilterIncreasing(QuerySelectorAll(h, root, BlockSelector), TopCond(h, show));
    FilterMembers(QuerySelectorAll(h, root, BlockSelector), TopCond(h, show));
    forall x: nat
      ensures Matches(h, x, BlockSelector) <==> IsBlock(h, x)
    {
      BlockSelectorMatches(h, x);
    }
  }

  /** The standalone slots: the standalone filter over the slots under `root`. */
  function StandaloneSpec(h: Host, root: nat, show: bool): seq<nat>
    requires WellFormed(h)
  {
    Filter(QuerySelectorAll(h, root, SlotSelector), StandaloneCond(h, show, QuerySelectorAll(h, root, BlockSelector)))
  }

  /** Standalone slots are exactly the visible slots under the root that
      no block under the root contains, in document order. */
  lemma StandaloneSpecIff(h: Host, root: nat, show: bool)
    requires WellFormed(h)
    ensures StrictlyIncreasing(StandaloneSpec(h, root, show))
    ensures forall x: nat :: x in StandaloneSpec(h, root, show) <==>
      && x < |h.nodes| && ProperAncestor(h, root, x) && IsSlot(h, x)
      && (forall b: nat :: b < |h.nodes| && ProperAncestor(h, root, b) && IsBlock(h, b) ==> !Contains(h, b, x))
      && IsElementVisible(h, x, None, show)
  {
    var blocks := QuerySelectorAll(h, root, BlockSelector);
    var slots := QuerySelectorAll(h, root, SlotSelector);
    QuerySelectorAllSpec(h, root, BlockSelector);
    QuerySelectorAllSpec(h, root, SlotSelector);
    FilterIncreasing(slots, StandaloneCond(h, show, blocks));
    FilterMembers(slots, StandaloneCond(h, show, blocks));
    forall x: nat
      ensures Matches(h, x, BlockSelector) <==> IsBlock(h, x)
      ensures Matches(h, x, SlotSelector) <==> IsSlot(h, x)
    {
      BlockSelectorMatches(h, x);
      SlotSelectorMatches(h, x);
    }
    forall x: nat | x < |h.nodes|
      ensures AnyContains(h, blocks, x) <==>
        exists b: nat :: b < |h.nodes| && ProperAncestor(h, root, b) && IsBlock(h, b) && Contains(h, b, x)
    {
      if exists b: nat :: b < |h.nodes| && ProperAncestor(h, root, b) && IsBlock(h, b) && Contains(h, b, x) {
        var b: nat :| b < |h.nodes| && ProperAncestor(h, root, b) && IsBlock(h, b) && Contains(h, b, x);
        assert b in blocks;
        var k :| 0 <= k < |blocks| && blocks[k] == b;
      }
    }
  }

  lemma SlotElementsSnoc(ss: seq<SlotNode>, t: SlotNode)
    ensures SlotElements(ss + [t]) == SlotElements(ss) + [t.element]
  {
  }

  lemma BlockElementsSnoc(bs: seq<BlockNode>, t: BlockNode)
    ensures BlockElements(bs + [t]) == BlockElements(bs) + [t.element]
  {
  }

  /** One step of a loop over `s` that filters with `p`. */
  lemma FilterStep(s: seq<nat>, k: nat, p: nat -> bool)
    requires k < |s|
    ensures Filter(s[..k + 1], p) == Filter(s[..k], p) + (if p(s[k]) then [s[k]] else [])
  {
    assert s[..k + 1] == s[..k] + [s[k]];
    FilterSnoc(s[..k], s[k], p);
  }

  /** Everything the block selector returns is a block. */
  lemma SelectedAreBlocks(h: Host, root: nat)
    requires WellFormed(h)
    ensures forall i :: 0 <= i < |QuerySelectorAll(h, root, BlockSelector)| ==>
      IsBlock(h, QuerySelectorAll(h, root, BlockSelector)[i]) &&
      ProperAncestor(h, root, QuerySelectorAll(h, root, BlockSelector)[i])
  {
    var all := QuerySelectorAll(h, root, BlockSelector);
    QuerySelectorAllSpec(h, root, BlockSelector);
    forall i | 0 <= i < |all|
      ensures IsBlock(h, all[i]) && ProperAncestor(h, root, all[i])
    {
      assert all[i] in all;
      BlockSelectorMatches(h, all[i]);
    }
  }

  /** The elements querySelectorAll returns all lie after the root. */
  lemma SelectedBelow(h: Host, root: nat, sel: Selector)
    requires WellFormed(h)
    ensures forall i :: 0 <= i < |QuerySelectorAll(h, root, sel)| ==>
      root < QuerySelectorAll(h, root, sel)[i] < |h.nodes| && ProperAncestor(h, root, QuerySelectorAll(h, root, sel)[i])
  {
    var all := QuerySelectorAll(h, root, sel);
    QuerySelectorAllSpec(h, root, sel);
    forall i | 0 <= i < |all|
      ensures root < all[i] < |h.nodes| && ProperAncestor(h, root, all[i])
    {
      assert all[i] in all;
      ProperAncestorOrdered(h, root, all[i]);
    }
  }

  lemma ChildSlotElsBelow(h: Host, done: set<nat>, slotEl: nat, blockEl: nat)
    requires WellFormed(h)
    ensures forall i :: 0 <= i < |ChildSlotEls(h, done, slotEl, blockEl)| ==>
      slotEl < ChildSlotEls(h, done, slotEl, blockEl)[i] < |h.nodes| &&
      ProperAncestor(h, slotEl, ChildSlotEls(h, done, slotEl, blockEl)[i])
  {
    var below := QuerySelectorAll(h, slotEl, SlotSelector);
    var els := ChildSlotEls(h, done, slotEl, blockEl);
    SelectedBelow(h, slotEl, SlotSelector);
    FilterMembers(below, ChildSlotCond(h, done, slotEl, blockEl));
    forall i | 0 <= i < |els|
      ensures slotEl < els[i] < |h.nodes| && ProperAncestor(h, slotEl, els[i])
    {
      assert els[i] in els;
      var j :| 0 <= j < |below| && below[j] == els[i];
    }
  }

  // ---------------------------------------------------------------------
  // The scan as functions of the processed sets
  // ---------------------------------------------------------------------

  /** The fixed inputs of one scan: the document, the root, the
      showEmptySlots option and the blocks under the root in document order. */
  datatype Scan = Scan(h: Host, root: nat, show: bool, all: seq<nat>)

  /** processedSlots and processedBlocks. */
  datatype Marks = Marks(slots: set<nat>, blocks: set<nat>)

  predicate ScanOk(sc: Scan)
  {
    WellFormed(sc.h) && forall i :: 0 <= i < |sc.all| ==> IsBlock(sc.h, sc.all[i])
  }

  /** buildSlotTree(slotEl, blockEl) started with marks `m`: the node it
      returns, if any, and the marks it leaves. */
  function SlotTree(sc: Scan, m: Marks, slotEl: nat, blockEl: nat): (Option<SlotNode>, Marks)
    requires ScanOk(sc) && slotEl < |sc.h.nodes|
    decreases |sc.h.nodes| - slotEl, 4, 0
  {
    if slotEl in m.slots then (None, m)
    else if !IsElementVisible(sc.h, slotEl, None, sc.show) then (None, m)
    else
      var m0 := Marks(m.slots + {slotEl}, m.blocks);
      var els := ChildSlotEls(sc.h, m0.slots, slotEl, blockEl);
      ChildSlotElsBelow(sc.h, m0.slots, slotEl, blockEl);
      var (childSlots, m1) := ChildSlots(sc, m0, slotEl, blockEl, els);
      var (found, m2) := NestedScan(sc, m1, slotEl, blockEl, sc.all);
      var (nested, m3) := NestedBlocks(sc, m2, slotEl, found);
      (Some(SlotNode(SlotName(sc.h, slotEl), slotEl, childSlots, nested, None)), m3)
  }

  /** childSlotEls.map(el => buildSlotTree(el, blockEl)).filter(s => s !== null) */
  function ChildSlots(sc: Scan, m: Marks, slotEl: nat, blockEl: nat, els: seq<nat>): (seq<SlotNode>, Marks)
    requires ScanOk(sc) && slotEl < |sc.h.nodes|
    requires forall i :: 0 <= i < |els| ==> slotEl < els[i] < |sc.h.nodes|
    decreases |sc.h.nodes| - slotEl, 3, |els|
  {
    if els == [] then ([], m)
    else
      var (prev, m1) := ChildSlots(sc, m, slotEl, blockEl, els[..|els| - 1]);
      var (t, m2) := SlotTree(sc, m1, els[|els| - 1], blockEl);
      (prev + (if t.Some? then [t.value] else []), m2)
  }

  /** The callback of the forEach over allBlockElements in buildSlotTree:
      one block judged against the marks so far. */
  function NestedStep(sc: Scan, found: seq<nat>, m: Marks, slotEl: nat, blockEl: nat, nb: nat): (r: (seq<nat>, Marks))
    requires ScanOk(sc) && IsBlock(sc.h, nb)
    ensures r.0 == found || (r.0 == found + [nb] && slotEl <= nb)
  {
    match NestedVerdict(sc.h, sc.show, m.blocks, slotEl, blockEl, nb)
    case Pass => (found, m)
    case Hidden => (found, Marks(m.slots, m.blocks + {nb}))
    case Take => ContainsOrdered(sc.h, slotEl, nb); (found + [nb], m)
  }

  /** That forEach, over the prefix `ab`. */
  function NestedScan(sc: Scan, m: Marks, slotEl: nat, blockEl: nat, ab: seq<nat>): (r: (seq<nat>, Marks))
    requires ScanOk(sc) && forall i :: 0 <= i < |ab| ==> IsBlock(sc.h, ab[i])
    ensures forall i :: 0 <= i < |r.0| ==> IsBlock(sc.h, r.0[i]) && slotEl <= r.0[i]
    decreases |ab|
  {
    if ab == [] then ([], m)
    else
      var (found, m1) := NestedScan(sc, m, slotEl, blockEl, ab[..|ab| - 1]);
      NestedStep(sc, found, m1, slotEl, blockEl, ab[|ab| - 1])
  }

  /** The scan of a longer prefix is one more callback. */
  lemma NestedScanUnfold(sc: Scan, m: Marks, slotEl: nat, blockEl: nat, init: seq<nat>, nb: nat)
    requires ScanOk(sc) && IsBlock(sc.h, nb)
    requires forall i :: 0 <= i < |init| ==> IsBlock(sc.h, init[i])
    ensures NestedScan(sc, m, slotEl, blockEl, init + [nb]) ==
      var (found, m1) := NestedScan(sc, m, slotEl, blockEl, init);
      NestedStep(sc, found, m1, slotEl, blockEl, nb)
  {
    assert (init + [nb])[..|init|] == init;
  }

  /** blocksInSlot.map(el => buildBlockTree(el, 0)) */
  function NestedBlocks(sc: Scan, m: Marks, slotEl: nat, found: seq<nat>): (seq<BlockNode>, Marks)
    requires ScanOk(sc) && slotEl < |sc.h.nodes|
    requires forall i :: 0 <= i < |found| ==> IsBlock(sc.h, found[i]) && slotEl <= found[i]
    decreases |sc.h.nodes| - slotEl, 3, |found|
  {
    if found == [] then ([], m)
    else
      var (prev, m1) := NestedBlocks(sc, m, slotEl, found[..|found| - 1]);
      var (b, m2) := BlockTree(sc, m1, found[|found| - 1], 0);
      (prev + [b], m2)
  }

  /** The callback of the forEach over slotsInBlock in getDirectSlots. */
  function DirectSlotStep(sc: Scan, slots: seq<SlotNode>, m: Marks, blockEl: nat, c: nat): (seq<SlotNode>, Marks)
    requires ScanOk(sc) && blockEl < c < |sc.h.nodes|
    decreases |sc.h.nodes| - blockEl, 0, 0
  {
    if KeepDirectSlot(sc.h, m.slots, blockEl, c) then
      var (t, m1) := SlotTree(sc, m, c, blockEl);
      (slots + (if t.Some? then [t.value] else []), m1)
    else (slots, m)
  }

  /** That forEach, over the prefix `cands`. */
  function DirectSlots(sc: Scan, m: Marks, blockEl: nat, cands: seq<nat>): (seq<SlotNode>, Marks)
    requires ScanOk(sc) && blockEl < |sc.h.nodes|
    requires forall i :: 0 <= i < |cands| ==> blockEl < cands[i] < |sc.h.nodes|
    decreases |sc.h.nodes| - blockEl, 0, |cands|
  {
    if cands == [] then ([], m)
    else
      var (prev, m1) := DirectSlots(sc, m, blockEl, cands[..|cands| - 1]);
      DirectSlotStep(sc, prev, m1, blockEl, cands[|cands| - 1])
  }

  /** The scan of a longer prefix is one more callback. */
  lemma DirectSlotsUnfold(sc: Scan, m: Marks, blockEl: nat, init: seq<nat>, c: nat)
    requires ScanOk(sc) && blockEl < c < |sc.h.nodes|
    requires forall i :: 0 <= i < |init| ==> blockEl < init[i] < |sc.h.nodes|
    ensures DirectSlots(sc, m, blockEl, init + [c]) ==
      var (prev, m1) := DirectSlots(sc, m, blockEl, init);
      DirectSlotStep(sc, prev, m1, blockEl, c)
  {
    assert (init + [c])[..|init|] == init;
  }

  /** getDirectSlots(blockEl) started with marks `m`. */
  function DirectSlotsOf(sc: Scan, m: Marks, blockEl: nat): (seq<SlotNode>, Marks)
    requires ScanOk(sc) && blockEl < |sc.h.nodes|
    decreases |sc.h.nodes| - blockEl, 1, 0
  {
    var cands := QuerySelectorAll(sc.h, blockEl, SlotSelector);
    SelectedBelow(sc.h, blockEl, SlotSelector);
    DirectSlots(sc, m, blockEl, cands)
  }

  /** The callback of the forEach over allBlockElements in
      getDirectChildBlocks. */
  function ChildBlockStep(sc: Scan, children: seq<nat>, m: Marks, parentEl: nat, el: nat): (r: (seq<nat>, Marks))
    requires ScanOk(sc) && IsBlock(sc.h, el)
    ensures r.0 == children || (r.0 == children + [el] && parentEl < el)
  {
    match ChildBlockVerdict(sc.h, sc.show, m.blocks, parentEl, el)
    case Pass => (children, m)
    case Hidden => (children, Marks(m.slots, m.blocks + {el}))
    case Take => ParentBlockSpec(sc.h, el); ProperAncestorOrdered(sc.h, parentEl, el); (children + [el], m)
  }

  /** That forEach, over the prefix `ab`. */
  function ChildBlockScan(sc: Scan, m: Marks, parentEl: nat, ab: seq<nat>): (r: (seq<nat>, Marks))
    requires ScanOk(sc) && forall i :: 0 <= i < |ab| ==> IsBlock(sc.h, ab[i])
    ensures forall i :: 0 <= i < |r.0| ==> IsBlock(sc.h, r.0[i]) && parentEl < r.0[i]
    decreases |ab|
  {
    if ab == [] then ([], m)
    else
      var (children, m1) := ChildBlockScan(sc, m, parentEl, ab[..|ab| - 1]);
      ChildBlockStep(sc, children, m1, parentEl, ab[|ab| - 1])
  }

  /** The scan of a longer prefix is one more callback. */
  lemma ChildBlockScanUnfold(sc: Scan, m: Marks, parentEl: nat, init: seq<nat>, el: nat)
    requires ScanOk(sc) && IsBlock(sc.h, el)
    requires forall i :: 0 <= i < |init| ==> IsBlock(sc.h, init[i])
    ensures ChildBlockScan(sc, m, parentEl, init + [el]) ==
      var (found, m1) := ChildBlockScan(sc, m, parentEl, init);
      ChildBlockStep(sc, found, m1, parentEl, el)
  {
    assert (init + [el])[..|init|] == init;
  }

  /** buildBlockTree(blockEl, depth) started with marks `m`. */
  function BlockTree(sc: Scan, m: Marks, blockEl: nat, depth: nat): (BlockNode, Marks)
    requires ScanOk(sc) && IsBlock(sc.h, blockEl)
    decreases |sc.h.nodes| - blockEl, 2, 0
  {
    var m0 := Marks(m.slots, m.blocks + {blockEl});
    var (slots, m1) := DirectSlotsOf(sc, m0, blockEl);
    var (childEls, m2) := ChildBlockScan(sc, m1, blockEl, sc.all);
    var (children, m3) := ChildBlocks(sc, m2, blockEl, depth, childEls);
    (BlockNode(BlockName(sc.h, blockEl), blockEl, slots, children, depth, None), m3)
  }

  /** childBlockEls.forEach(childEl => block.children.push(buildBlockTree(childEl, depth + 1))) */
  function ChildBlocks(sc: Scan, m: Marks, parentEl: nat, depth: nat, els: seq<nat>): (seq<BlockNode>, Marks)
    requires ScanOk(sc) && parentEl < |sc.h.nodes|
    requires forall i :: 0 <= i < |els| ==> IsBlock(sc.h, els[i]) && parentEl < els[i]
    decreases |sc.h.nodes| - parentEl, 0, |els|
  {
    if els == [] then ([], m)
    else
      var (prev, m1) := ChildBlocks(sc, m, parentEl, depth, els[..|els| - 1]);
      var (b, m2) := BlockTree(sc, m1, els[|els| - 1], depth + 1);
      (prev + [b], m2)
  }

  /** topLevelBlocks.map(el => buildBlockTree(el)) */
  function TopBlocks(sc: Scan, m: Marks, tops: seq<nat>): (seq<BlockNode>, Marks)
    requires ScanOk(sc) && forall i :: 0 <= i < |tops| ==> IsBlock(sc.h, tops[i])
    decreases |tops|
  {
    if tops == [] then ([], m)
    else
      var (prev, m1) := TopBlocks(sc, m, tops[..|tops| - 1]);
      var (b, m2) := BlockTree(sc, m1, tops[|tops| - 1], 0);
      (prev + [b], m2)
  }

  /** The callback of the forEach over allSlots. */
  function StandaloneStep(sc: Scan, prev: seq<SlotNode>, m: Marks, c: nat): (seq<SlotNode>, Marks)
    requires ScanOk(sc) && c < |sc.h.nodes|
  {
    match StandaloneVerdict(sc.h, sc.show, m.slots, sc.all, c)
    case Take => (prev + [SlotNode(SlotName(sc.h, c), c, [], [], None)], Marks(m.slots + {c}, m.blocks))
    case _ => (prev, m)
  }

  /** That forEach, over the prefix `cands`. */
  function Standalone(sc: Scan, m: Marks, cands: seq<nat>): (seq<SlotNode>, Marks)
    requires ScanOk(sc) && forall i :: 0 <= i < |cands| ==> cands[i] < |sc.h.nodes|
    decreases |cands|
  {
    if cands == [] then ([], m)
    else
      var (prev, m1) := Standalone(sc, m, cands[..|cands| - 1]);
      StandaloneStep(sc, prev, m1, cands[|cands| - 1])
  }

  /** The scan of a longer prefix is one more callback. */
  lemma StandaloneUnfold(sc: Scan, m: Marks, init: seq<nat>, c: nat)
    requires ScanOk(sc) && c < |sc.h.nodes|
    requires forall i :: 0 <= i < |init| ==> init[i] < |sc.h.nodes|
    ensures Standalone(sc, m, init + [c]) ==
      var (prev, m1) := Standalone(sc, m, init);
      StandaloneStep(sc, prev, m1, c)
  {
    assert (init + [c])[..|init|] == init;
  }

  // ---------------------------------------------------------------------
  // One scan
  // ---------------------------------------------------------------------

  /** The state of one scanEds run: the document, the root, the option,
      the blocks under the root, and the two processed sets that the
      nested builders share. */
  class EdsScanner {
    const host: Host
    const root: nat
    const show: bool
    const allBlocks: seq<nat>
    var processedSlots: set<nat>
    var processedBlocks: set<nat>

    function Sc(): Scan
    {
      Scan(host, root, show, allBlocks)
    }

    function MarksNow(): Marks
      reads this
    {
      Marks(processedSlots, processedBlocks)
    }

    predicate Valid()
    {
      ScanOk(Sc())
    }

    constructor (host: Host, root: nat, show: bool)
      requires WellFormed(host) && root < |host.nodes|
      ensures Valid()
      ensures Sc() == Scan(host, root, show, QuerySelectorAll(host, root, BlockSelector))
      ensures MarksNow() == Marks({}, {})
    {
      this.host := host;
      this.root := root;
      this.show := show;
      allBlocks := QuerySelectorAll(host, root, BlockSelector);
      processedSlots := {};
      processedBlocks := {};
      new;
      SelectedAreBlocks(host, root);
    }

    /** buildSlotTree */
    method BuildSlotTree(slotEl: nat, blockEl: nat) returns (r: Option<SlotNode>)
      requires Valid() && slotEl < |host.nodes|
      modifies this
      decreases |host.nodes| - slotEl, 5
      ensures (r, MarksNow()) == SlotTree(Sc(), old(MarksNow()), slotEl, blockEl)
    {
      if slotEl in processedSlots {
        return None;
      }
      if !IsElementVisible(host, slotEl, None, show) {
        return None;
      }
      processedSlots := processedSlots + {slotEl};
      var childSlotEls := ChildSlotEls(host, processedSlots, slotEl, blockEl);
      ChildSlotElsBelow(host, processedSlots, slotEl, blockEl);
      var childSlots := BuildChildSlots(slotEl, blockEl, childSlotEls);
      var blocksInSlot := FindBlocksInSlot(slotEl, blockEl);
      var nestedBlocks := BuildNestedBlocks(slotEl, blocksInSlot);
      r := Some(SlotNode(SlotName(host, slotEl), slotEl, childSlots, nestedBlocks, None));
    }

    /** childSlotEls.map(el => buildSlotTree(el, blockEl)).filter(s => s !== null) */
    method BuildChildSlots(slotEl: nat, blockEl: nat, els: seq<nat>) returns (childSlots: seq<SlotNode>)
      requires Valid() && slotEl < |host.nodes|
      requires forall i :: 0 <= i < |els| ==> slotEl < els[i] < |host.nodes|
      modifies this
      decreases |host.nodes| - slotEl, 4
      ensures (childSlots, MarksNow()) == ChildSlots(Sc(), old(MarksNow()), slotEl, blockEl, els)
    {
      childSlots := [];
      var k := 0;
      while k < |els|
        invariant 0 <= k <= |els|
        invariant (childSlots, MarksNow()) == ChildSlots(Sc(), old(MarksNow()), slotEl, blockEl, els[..k])
      {
        assert els[..k + 1][..k] == els[..k];
        var t := BuildSlotTree(els[k], blockEl);
        if t.Some? {
          childSlots := childSlots + [t.value];
        } else {
          assert childSlots + [] == childSlots;
        }
        k := k + 1;
      }
      assert els[..k] == els;
    }

    /** The forEach over allBlockElements in buildSlotTree. */
    method FindBlocksInSlot(slotEl: nat, blockEl: nat) returns (blocksInSlot: seq<nat>)
      requires Valid()
      modifies this
      ensures (blocksInSlot, MarksNow()) == NestedScan(Sc(), old(MarksNow()), slotEl, blockEl, allBlocks)
    {
      blocksInSlot := [];
      var k := 0;
      while k < |allBlocks|
        invariant 0 <= k <= |allBlocks|
        invariant (blocksInSlot, MarksNow()) == NestedScan(Sc(), old(MarksNow()), slotEl, blockEl, allBlocks[..k])
      {
        PrefixSnoc(allBlocks, k);
        NestedScanUnfold(Sc(), old(MarksNow()), slotEl, blockEl, allBlocks[..k], allBlocks[k]);
        blocksInSlot := VisitNestedBlock(slotEl, blockEl, allBlocks[k], blocksInSlot);
        k := k + 1;
      }
      assert allBlocks[..k] == allBlocks;
    }

    /** Its callback on one block. */
    method VisitNestedBlock(slotEl: nat, blockEl: nat, nestedBlockEl: nat, blocksInSlot: seq<nat>) returns (r: seq<nat>)
      requires Valid() && IsBlock(host, nestedBlockEl)
      modifies this
      ensures (r, MarksNow()) == NestedStep(Sc(), blocksInSlot, old(MarksNow()), slotEl, blockEl, nestedBlockEl)
    {
      r := blocksInSlot;
      if nestedBlockEl in processedBlocks { return; }
      if !Contains(host, slotEl, nestedBlockEl) { return; }
      var nestedParentBlock := GetDirectParentBlock(host, nestedBlockEl);
      if nestedParentBlock.Some? && nestedParentBlock != Some(blockEl) { return; }
      var nestedParentSlot := GetDirectParentSlot(host, nestedBlockEl, blockEl);
      if nestedParentSlot.Some? && nestedParentSlot != Some(slotEl) { return; }
      if !BlockVisible(host, show, nestedBlockEl) {
        processedBlocks := processedBlocks + {nestedBlockEl};
        return;
      }
      r := blocksInSlot + [nestedBlockEl];
    }

    /** blocksInSlot.map(el => buildBlockTree(el, 0)) */
    method BuildNestedBlocks(slotEl: nat, found: seq<nat>) returns (nestedBlocks: seq<BlockNode>)
      requires Valid() && slotEl < |host.nodes|
      requires forall i :: 0 <= i < |found| ==> IsBlock(host, found[i]) && slotEl <= found[i]
      modifies this
      decreases |host.nodes| - slotEl, 4
      ensures (nestedBlocks, MarksNow()) == NestedBlocks(Sc(), old(MarksNow()), slotEl, found)
    {
      nestedBlocks := [];
      var k := 0;
      while k < |found|
        invariant 0 <= k <= |found|
        invariant (nestedBlocks, MarksNow()) == NestedBlocks(Sc(), old(MarksNow()), slotEl, found[..k])
      {
        assert found[..k + 1][..k] == found[..k];
        var b := BuildBlockTree(found[k], 0);
        nestedBlocks := nestedBlocks + [b];
        k := k + 1;
      }
      assert found[..k] == found;
    }

    /** getDirectSlots */
    method GetDirectSlots(blockEl: nat) returns (slots: seq<SlotNode>)
      requires Valid() && blockEl < |host.nodes|
      modifies this
      decreases |host.nodes| - blockEl, 2
      ensures (slots, MarksNow()) == DirectSlotsOf(Sc(), old(MarksNow()), blockEl)
    {
      ghost var m0 := MarksNow();
      var slotsInBlock := QuerySelectorAll(host, blockEl, SlotSelector);
      SelectedBelow(host, blockEl, SlotSelector);
      slots := [];
      var k := 0;
      while k < |slotsInBlock|
        invariant 0 <= k <= |slotsInBlock|
        invariant (slots, MarksNow()) == DirectSlots(Sc(), m0, blockEl, slotsInBlock[..k])
      {
        PrefixSnoc(slotsInBlock, k);
        DirectSlotsUnfold(Sc(), m0, blockEl, slotsInBlock[..k], slotsInBlock[k]);
        slots := VisitDirectSlot(blockEl, slotsInBlock[k], slots);
        k := k + 1;
      }
      assert slotsInBlock[..k] == slotsInBlock;
    }

    /** Its callback on one slot. */
    method VisitDirectSlot(blockEl: nat, slotEl: nat, slots: seq<SlotNode>) returns (r: seq<SlotNode>)
      requires Valid() && blockEl < slotEl < |host.nodes|
      modifies this
      decreases |host.nodes| - blockEl, 1
      ensures (r, MarksNow()) == DirectSlotStep(Sc(), slots, old(MarksNow()), blockEl, slotEl)
    {
      r := slots;
      if slotEl in processedSlots { return; }
      var slotParentBlock := GetDirectParentBlock(host, slotEl);
      if slotParentBlock.Some? && slotParentBlock != Some(blockEl) { return; }
      var slotParentSlot := GetDirectParentSlot(host, slotEl, blockEl);
      if slotParentSlot.Some? { return; }
      var slotTree := BuildSlotTree(slotEl, blockEl);
      if slotTree.Some? {
        r := slots + [slotTree.value];
      } else {
        assert slots + [] == slots;
      }
    }

    /** getDirectChildBlocks */
    method GetDirectChildBlocks(parentEl: nat) returns (children: seq<nat>)
      requires Valid()
      modifies this
      ensures (children, MarksNow()) == ChildBlockScan(Sc(), old(MarksNow()), parentEl, allBlocks)
    {
      children := [];
      var k := 0;
      while k < |allBlocks|
        invariant 0 <= k <= |allBlocks|
        invariant (children, MarksNow()) == ChildBlockScan(Sc(), old(MarksNow()), parentEl, allBlocks[..k])
      {
        PrefixSnoc(allBlocks, k);
        ChildBlockScanUnfold(Sc(), old(MarksNow()), parentEl, allBlocks[..k], allBlocks[k]);
        children := VisitChildBlock(parentEl, allBlocks[k], children);
        k := k + 1;
      }
      assert allBlocks[..k] == allBlocks;
    }

    /** Its callback on one block. */
    method VisitChildBlock(parentEl: nat, blockEl: nat, children: seq<nat>) returns (r: seq<nat>)
      requires Valid() && IsBlock(host, blockEl)
      modifies this
      ensures (r, MarksNow()) == ChildBlockStep(Sc(), children, old(MarksNow()), parentEl, blockEl)
    {
      r := children;
      if blockEl in processedBlocks { return; }
      var directParent := GetDirectParentBlock(host, blockEl);
      if directParent == Some(parentEl) {
        if !BlockVisible(host, show, blockEl) {
          processedBlocks := processedBlocks + {blockEl};
          return;
        }
        r := children + [blockEl];
      }
    }

    /** buildBlockTree */
    method BuildBlockTree(blockEl: nat, depth: nat) returns (block: BlockNode)
      requires Valid() && IsBlock(host, blockEl)
      modifies this
      decreases |host.nodes| - blockEl, 3
      ensures (block, MarksNow()) == BlockTree(Sc(), old(MarksNow()), blockEl, depth)
    {
      processedBlocks := processedBlocks + {blockEl};
      var slots := GetDirectSlots(blockEl);
      var childBlockEls := GetDirectChildBlocks(blockEl);
      var children := BuildChildBlocks(blockEl, depth, childBlockEls);
      block := BlockNode(BlockName(host, blockEl), blockEl, slots, children, depth, None);
    }

    /** childBlockEls.forEach(childEl => block.children.push(buildBlockTree(childEl, depth + 1))) */
    method BuildChildBlocks(parentEl: nat, depth: nat, childEls: seq<nat>) returns (children: seq<BlockNode>)
      requires Valid() && parentEl < |host.nodes|
      requires forall i :: 0 <= i < |childEls| ==> IsBlock(host, childEls[i]) && parentEl < childEls[i]
      modifies this
      decreases |host.nodes| - parentEl, 0
      ensures (children, MarksNow()) == ChildBlocks(Sc(), old(MarksNow()), parentEl, depth, childEls)
    {
      children := [];
      var k := 0;
      while k < |childEls|
        invariant 0 <= k <= |childEls|
        invariant (children, MarksNow()) == ChildBlocks(Sc(), old(MarksNow()), parentEl, depth, childEls[..k])
      {
        assert childEls[..k + 1][..k] == childEls[..k];
        var child := BuildBlockTree(childEls[k], depth + 1);
        children := children + [child];
        k := k + 1;
      }
      assert childEls[..k] == childEls;
    }

    /** topLevelBlocks.map(el => buildBlockTree(el)) */
    method BuildTopBlocks(tops: seq<nat>) returns (blocks: seq<BlockNode>)
      requires Valid() && forall i :: 0 <= i < |tops| ==> IsBlock(host, tops[i])
      modifies this
      ensures (blocks, MarksNow()) == TopBlocks(Sc(), old(MarksNow()), tops)
    {
      blocks := [];
      var k := 0;
      while k < |tops|
        invariant 0 <= k <= |tops|
        invariant (blocks, MarksNow()) == TopBlocks(Sc(), old(MarksNow()), tops[..k])
      {
        assert tops[..k + 1][..k] == tops[..k];
        var b := BuildBlockTree(tops[k], 0);
        blocks := blocks + [b];
        k := k + 1;
      }
      assert tops[..k] == tops;
    }

    /** The forEach over allSlots collecting the standalone slots. */
    method CollectStandalone(allSlots: seq<nat>) returns (standaloneSlots: seq<SlotNode>)
      requires Valid() && forall i :: 0 <= i < |allSlots| ==> allSlots[i] < |host.nodes|
      modifies this
      ensures (standaloneSlots, MarksNow()) == Standalone(Sc(), old(MarksNow()), allSlots)
    {
      standaloneSlots := [];
      var k := 0;
      while k < |allSlots|
        invariant 0 <= k <= |allSlots|
        invariant (standaloneSlots, MarksNow()) == Standalone(Sc(), old(MarksNow()), allSlots[..k])
      {
        PrefixSnoc(allSlots, k);
        StandaloneUnfold(Sc(), old(MarksNow()), allSlots[..k], allSlots[k]);
        standaloneSlots := VisitStandaloneSlot(allSlots[k], standaloneSlots);
        k := k + 1;
      }
      assert allSlots[..k] == allSlots;
    }

    /** Its callback on one slot. */
    method VisitStandaloneSlot(slotEl: nat, standaloneSlots: seq<SlotNode>) returns (r: seq<SlotNode>)
      requires Valid() && slotEl < |host.nodes|
      modifies this
      ensures (r, MarksNow()) == StandaloneStep(Sc(), standaloneSlots, old(MarksNow()), slotEl)
    {
      r := standaloneSlots;
      if slotEl in processedSlots { return; }
      var isInsideBlock := AnyContains(host, allBlocks, slotEl);
      if isInsideBlock { return; }
      if !IsElementVisible(host, slotEl, None, show) { return; }
      processedSlots := processedSlots + {slotEl};
      r := standaloneSlots + [SlotNode(SlotName(host, slotEl), slotEl, [], [], None)];
    }
  }

  // ---------------------------------------------------------------------
  // Sequential ids
  // ---------------------------------------------------------------------

  /** blockIndex, slotIndex, totalBlocks and totalSlots of the id pass. */
  datatype Tally = Tally(blockIndex: nat, slotIndex: nat, totalBlocks: nat, totalSlots: nat)

  const BlockIdPrefix := "block-"
  const SlotIdPrefix := "slot-"

  /** assignIds(blockList) started with counters `t`: the blocks with ids
      and the counters it leaves. */
  function MintBlocks(bs: seq<BlockNode>, t: Tally): (r: (seq<BlockNode>, Tally))
    ensures |r.0| == |bs|
    decreases bs
  {
    if bs == [] then ([], t)
    else
      var (b, t1) := MintBlock(bs[0], t);
      var (rest, t2) := MintBlocks(bs[1..], t1);
      ([b] + rest, t2)
  }

  /** The forEach callback of assignIds for one block. */
  function MintBlock(b: BlockNode, t: Tally): (BlockNode, Tally)
    decreases b
  {
    var t0 := Tally(t.blockIndex + 1, t.slotIndex, t.totalBlocks + 1, t.totalSlots);
    var (slots, t1) := MintSlots(b.slots, t0);
    var (children, t2) := MintBlocks(b.children, t1);
    (b.(id := Some(BlockIdPrefix + Decimal(t.blockIndex)), slots := slots, children := children), t2)
  }

  /** The slots of a list, each through assignSlotIds, in order. */
  function MintSlots(ss: seq<SlotNode>, t: Tally): (r: (seq<SlotNode>, Tally))
    ensures |r.0| == |ss|
    decreases ss
  {
    if ss == [] then ([], t)
    else
      var (s, t1) := MintSlot(ss[0], t);
      var (rest, t2) := MintSlots(ss[1..], t1);
      ([s] + rest, t2)
  }

  /** assignSlotIds(slot) */
  function MintSlot(s: SlotNode, t: Tally): (SlotNode, Tally)
    decreases s
  {
    var t0 := Tally(t.blockIndex, t.slotIndex + 1, t.totalBlocks, t.totalSlots + 1);
    var (childSlots, t1) := MintSlots(s.childSlots, t0);
    var (children, t2) := MintBlocks(s.children, t1);
    (s.(id := Some(SlotIdPrefix + Decimal(t.slotIndex)), childSlots := childSlots, children := children), t2)
  }

  lemma {:induction false} MintSlotsSnoc(ss: seq<SlotNode>, s: SlotNode, t: Tally)
    ensures var (a, t1) := MintSlots(ss, t);
            var (b, t2) := MintSlot(s, t1);
            MintSlots(ss + [s], t) == (a + [b], t2)
    decreases |ss|
  {
    if ss == [] {
      assert ss + [s] == [s] && ([s])[1..] == [];
      var (s0, t1) := MintSlot(s, t);
      assert [s0] + [] == [] + [s0];
    } else {
      var (s0, t1) := MintSlot(ss[0], t);
      assert (ss + [s])[0] == ss[0];
      assert (ss + [s])[1..] == ss[1..] + [s];
      MintSlotsSnoc(ss[1..], s, t1);
      var (a, t2) := MintSlots(ss[1..], t1);
      var (b, t3) := MintSlot(s, t2);
      assert [s0] + (a + [b]) == ([s0] + a) + [b];
    }
  }

  lemma {:induction false} MintBlocksSnoc(bs: seq<BlockNode>, b: BlockNode, t: Tally)
    ensures var (a, t1) := MintBlocks(bs, t);
            var (c, t2) := MintBlock(b, t1);
            MintBlocks(bs + [b], t) == (a + [c], t2)
    decreases |bs|
  {
    if bs == [] {
      assert bs + [b] == [b] && ([b])[1..] == [];
      var (b0, t1) := MintBlock(b, t);
      assert [b0] + [] == [] + [b0];
    } else {
      var (b0, t1) := MintBlock(bs[0], t);
      assert (bs + [b])[0] == bs[0];
      assert (bs + [b])[1..] == bs[1..] + [b];
      MintBlocksSnoc(bs[1..], b, t1);
      var (a, t2) := MintBlocks(bs[1..], t1);
      var (c, t3) := MintBlock(b, t2);
      assert [b0] + (a + [c]) == ([b0] + a) + [c];
    }
  }

  /** The counters of the id pass, which stamps ids on the tree. */
  class IdMinter {
    var blockIndex: nat
    var slotIndex: nat
    var totalBlocks: nat
    var totalSlots: nat

    function TallyNow(): Tally
      reads this
    {
      Tally(blockIndex, slotIndex, totalBlocks, totalSlots)
    }

    constructor ()
      ensures TallyNow() == Tally(0, 0, 0, 0)
    {
      blockIndex, slotIndex, totalBlocks, totalSlots := 0, 0, 0, 0;
    }

    /** assignSlotIds */
    method AssignSlotIds(slot: SlotNode) returns (r: SlotNode)
      modifies this
      decreases slot
      ensures (r, TallyNow()) == MintSlot(slot, old(TallyNow()))
    {
      var id := SlotIdPrefix + Decimal(slotIndex);
      slotIndex := slotIndex + 1;
      totalSlots := totalSlots + 1;
      ghost var t0 := TallyNow();
      var childSlots := [];
      var k := 0;
      while k < |slot.childSlots|
        invariant 0 <= k <= |slot.childSlots|
        invariant (childSlots, TallyNow()) == MintSlots(slot.childSlots[..k], t0)
      {
        MintSlotsSnoc(slot.childSlots[..k], slot.childSlots[k], t0);
        assert slot.childSlots[..k + 1] == slot.childSlots[..k] + [slot.childSlots[k]];
        var c := AssignSlotIds(slot.childSlots[k]);
        childSlots := childSlots + [c];
        k := k + 1;
      }
      assert slot.childSlots[..k] == slot.childSlots;
      var children := slot.children;
      if |slot.children| > 0 {
        children := AssignIds(slot.children);
      }
      r := slot.(id := Some(id), childSlots := childSlots, children := children);
    }

    /** assignIds */
    method AssignIds(blockList: seq<BlockNode>) returns (r: seq<BlockNode>)
      modifies this
      decreases blockList
      ensures (r, TallyNow()) == MintBlocks(blockList, old(TallyNow()))
    {
      r := [];
      var k := 0;
      while k < |blockList|
        invariant 0 <= k <= |blockList|
        invariant (r, TallyNow()) == MintBlocks(blockList[..k], old(TallyNow()))
      {
        var block := blockList[k];
        MintBlocksSnoc(blockList[..k], block, old(TallyNow()));
        assert blockList[..k + 1] == blockList[..k] + [block];
        var id := BlockIdPrefix + Decimal(blockIndex);
        blockIndex := blockIndex + 1;
        totalBlocks := totalBlocks + 1;
        ghost var t0 := TallyNow();
        var slots := [];
        var j := 0;
        while j < |block.slots|
          invariant 0 <= j <= |block.slots|
          invariant (slots, TallyNow()) == MintSlots(block.slots[..j], t0)
        {
          MintSlotsSnoc(block.slots[..j], block.slots[j], t0);
          assert block.slots[..j + 1] == block.slots[..j] + [block.slots[j]];
          var s := AssignSlotIds(block.slots[j]);
          slots := slots + [s];
          j := j + 1;
        }
        assert block.slots[..j] == block.slots;
        var children := block.children;
        if |block.children| > 0 {
          children := AssignIds(block.children);
        }
        r := r + [block.(id := Some(id), slots := slots, children := children)];
        k := k + 1;
      }
      assert blockList[..k] == blockList;
    }
  }

  // ---------------------------------------------------------------------
  // scanEds
  // ---------------------------------------------------------------------

  const StandaloneName := "Standalone Slots"

  /** The top-level filter only keeps blocks. */
  lemma TopsAreBlocks(h: Host, root: nat, show: bool)
    requires WellFormed(h)
    ensures forall i :: 0 <= i < |TopLevelSpec(h, root, show)| ==> IsBlock(h, TopLevelSpec(h, root, show)[i])
  {
    TopLevelSpecIff(h, root, show);
    var tops := TopLevelSpec(h, root, show);
    forall i | 0 <= i < |tops|
      ensures IsBlock(h, tops[i])
    {
      assert tops[i] in tops;
    }
  }

  /** The scan of the document under `root` before ids are stamped: the
      block trees of the top-level blocks, then the standalone slots. */
  function ScanForest(h: Host, root: nat, show: bool): (seq<BlockNode>, seq<SlotNode>)
    requires WellFormed(h)
  {
    var sc := Scan(h, root, show, QuerySelectorAll(h, root, BlockSelector));
    SelectedAreBlocks(h, root);
    TopsAreBlocks(h, root, show);
    var (blocks, m1) := TopBlocks(sc, Marks({}, {}), TopLevelSpec(h, root, show));
    SelectedBelow(h, root, SlotSelector);
    var (standalone, m2) := Standalone(sc, m1, QuerySelectorAll(h, root, SlotSelector));
    (blocks, standalone)
  }

  /** The blocks handed to the id pass: the synthetic container at the
      document body holds the standalone slots, when there are any. */
  function WithContainer(h: Host, blocks: seq<BlockNode>, standalone: seq<SlotNode>): seq<BlockNode>
  {
    if |standalone| > 0 then blocks + [BlockNode(StandaloneName, h.body, standalone, [], 0, None)] else blocks
  }

  /** scanEds(rootElement, { showEmptySlots }) */
  function ScanEdsSpec(h: Host, root: nat, show: bool): ScanResult
    requires WellFormed(h)
  {
    var (blocks, standalone) := ScanForest(h, root, show);
    var (minted, t) := MintBlocks(WithContainer(h, blocks, standalone), Tally(0, 0, 0, 0));
    ScanResult(minted, if |standalone| > 0 then minted[|minted| - 1].slots else [], Counts(t.totalBlocks, t.totalSlots))
  }

  method ScanEds(host: Host, rootElement: nat, showEmptySlots: bool) returns (r: ScanResult)
    requires WellFormed(host) && rootElement < |host.nodes|
    ensures r == ScanEdsSpec(host, rootElement, showEmptySlots)
  {
    var scanner := new EdsScanner(host, rootElement, showEmptySlots);
    var topLevelBlocks := TopLevelSpec(host, rootElement, showEmptySlots);
    TopsAreBlocks(host, rootElement, showEmptySlots);
    var blocks := scanner.BuildTopBlocks(topLevelBlocks);
    var allSlots := QuerySelectorAll(host, rootElement, SlotSelector);
    SelectedBelow(host, rootElement, SlotSelector);
    var standaloneSlots := scanner.CollectStandalone(allSlots);
    if |standaloneSlots| > 0 {
      blocks := blocks + [BlockNode(StandaloneName, host.body, standaloneSlots, [], 0, None)];
    }
    var minter := new IdMinter();
    var minted := minter.AssignIds(blocks);
    r := ScanResult(minted, if |standaloneSlots| > 0 then minted[|minted| - 1].slots else [],
                    Counts(minter.totalBlocks, minter.totalSlots));
  }
}
