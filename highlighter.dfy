/** The overlay's highlighter: it writes inline styles on page elements
    to outline mesh sources and EDS blocks and slots, remembers what it
    overwrote so it can put it back, and places floating labels where
    they do not collide with the labels already shown. */
module Highlight {
  import opened Common
  import opened Dom
  import ScannerMesh
  import ScannerEds

  // ---------------------------------------------------------------------
  // Rectangles and label placement
  // ---------------------------------------------------------------------

  /** A rectangle by its four edges, in page coordinates. */
  datatype Box = Box(top: real, left: real, right: real, bottom: real)

  /** What labelPositions records for a label. */
  datatype LabelBox = LabelBox(top: real, left: real, width: real, height: real)

  datatype Pos = Pos(top: real, left: real)

  /** The window readings label placement uses. */
  datatype Viewport = Viewport(
    pageYOffset: real, docScrollTop: real, pageXOffset: real, docScrollLeft: real, innerWidth: real)

  const Buffer: real := 4.0
  const LabelBuffer: real := 6.0
  const DefaultLabelWidth: real := 60.0
  const DefaultLabelHeight: real := 20.0

  /** rectsOverlap(rect1, rect2) */
  predicate RectsOverlap(a: Box, b: Box)
  {
    !(a.right < b.left || a.left > b.right || a.bottom < b.top || a.top > b.bottom)
  }

  predicate ProperBox(a: Box)
  {
    a.left <= a.right && a.top <= a.bottom
  }

  predicate InBox(a: Box, x: real, y: real)
  {
    a.left <= x <= a.right && a.top <= y <= a.bottom
  }

  /** The overlap test is symmetric. */
  lemma RectsOverlapSymmetric(a: Box, b: Box)
    ensures RectsOverlap(a, b) == RectsOverlap(b, a)
  {
  }

  /** For proper rectangles the test holds exactly when they share a
      point, boundary included: rectangles that only touch overlap. */
  lemma RectsOverlapIffCommonPoint(a: Box, b: Box)
    requires ProperBox(a) && ProperBox(b)
    ensures RectsOverlap(a, b) <==> exists x, y :: InBox(a, x, y) && InBox(b, x, y)
  {
    if RectsOverlap(a, b) {
      var x := if a.left >= b.left then a.left else b.left;
      var y := if a.top >= b.top then a.top else b.top;
      assert InBox(a, x, y) && InBox(b, x, y);
    }
  }

  /** `x || fallback` for a number: zero is falsy. */
  function OrElse(x: real, fallback: real): real
  {
    if x != 0.0 then x else fallback
  }

  function ScrollTop(v: Viewport): real
  {
    OrElse(v.pageYOffset, v.docScrollTop)
  }

  function ScrollLeft(v: Viewport): real
  {
    OrElse(v.pageXOffset, v.docScrollLeft)
  }

  /** A stored label rectangle grown by LABEL_BUFFER on every side. */
  function Obstacle(b: LabelBox): Box
  {
    Box(b.top - LabelBuffer, b.left - LabelBuffer, b.left + b.width + LabelBuffer, b.top + b.height + LabelBuffer)
  }

  /** hasCollision(rect) against the labels already placed. */
  predicate HasCollision(r: Box, placed: set<LabelBox>)
  {
    exists b :: b in placed && RectsOverlap(r, Obstacle(b))
  }

  /** The four candidate rectangles around the element. */
  datatype Candidates = Candidates(above: Box, below: Box, right: Box, left: Box)

  function CandidatesFor(w: real, ht: real, rect: Rect, v: Viewport): Candidates
  {
    var top := rect.top + ScrollTop(v);
    var left := rect.left + ScrollLeft(v);
    var right := rect.right + ScrollLeft(v);
    var bottom := rect.bottom + ScrollTop(v);
    Candidates(
      Box(top - ht - Buffer, left, left + w, top - Buffer),
      Box(bottom + Buffer, left, left + w, bottom + Buffer + ht),
      Box(top, right + Buffer, right + Buffer + w, top + ht),
      Box(top, left - w - Buffer, left - Buffer, top + ht))
  }

  /** The fallback order: right first when there is room on the right,
      else left after below when there is room on the left. */
  function Fallbacks(c: Candidates, w: real, rect: Rect, v: Viewport): seq<Box>
  {
    var minSpace := w + 20.0;
    if v.innerWidth - rect.right >= minSpace then [c.right, c.below, c.left]
    else if rect.left >= minSpace then [c.below, c.left, c.right]
    else [c.below, c.right, c.left]
  }

  /** The first candidate that collides with nothing. */
  function FirstFree(cands: seq<Box>, placed: set<LabelBox>): (r: Option<Box>)
    ensures r.Some? ==> r.value in cands && !HasCollision(r.value, placed)
    ensures r.None? <==> forall i :: 0 <= i < |cands| ==> HasCollision(cands[i], placed)
  {
    if cands == [] then None
    else if !HasCollision(cands[0], placed) then Some(cands[0])
    else FirstFree(cands[1..], placed)
  }

  /** The rectangle findBestLabelPosition settles on for a label measured
      `measuredW` by `measuredH`. */
  function ChosenBox(measuredW: real, measuredH: real, rect: Rect, v: Viewport, placed: set<LabelBox>): Box
  {
    var w := OrElse(measuredW, DefaultLabelWidth);
    var ht := OrElse(measuredH, DefaultLabelHeight);
    var c := CandidatesFor(w, ht, rect, v);
    if !HasCollision(c.above, placed) then c.above
    else match FirstFree(Fallbacks(c, w, rect, v), placed)
      case Some(b) => b
      case None => c.below
  }

  /** findBestLabelPosition(label, elementRect) */
  function FindBestLabelPosition(measuredW: real, measuredH: real, rect: Rect, v: Viewport, placed: set<LabelBox>): Pos
  {
    var b := ChosenBox(measuredW, measuredH, rect, v, placed);
    Pos(b.top, b.left)
  }

  /** The choice among the candidates: "above" whenever it is free; else
      the first free fallback, each earlier one colliding; "below" when
      all of them collide.  The label is 60 by 20 when it measures 0. */
  lemma {:induction false} LabelPlacement(measuredW: real, measuredH: real, rect: Rect, v: Viewport, placed: set<LabelBox>)
    ensures var w := OrElse(measuredW, DefaultLabelWidth);
      var ht := OrElse(measuredH, DefaultLabelHeight);
      var c := CandidatesFor(w, ht, rect, v);
      var fb := Fallbacks(c, w, rect, v);
      var r := ChosenBox(measuredW, measuredH, rect, v, placed);
      && (measuredW == 0.0 ==> r.right - r.left == DefaultLabelWidth)
      && (measuredH == 0.0 ==> r.bottom - r.top == DefaultLabelHeight)
      && (!HasCollision(c.above, placed) ==> r == c.above)
      && (HasCollision(c.above, placed) && (exists i :: 0 <= i < |fb| && !HasCollision(fb[i], placed)) ==>
            exists i :: 0 <= i < |fb| && r == fb[i] && !HasCollision(r, placed)
              && forall j :: 0 <= j < i ==> HasCollision(fb[j], placed))
      && (HasCollision(c.above, placed) && (forall i :: 0 <= i < |fb| ==> HasCollision(fb[i], placed)) ==>
            r == c.below)
  {
    var w := OrElse(measuredW, DefaultLabelWidth);
    var ht := OrElse(measuredH, DefaultLabelHeight);
    var c := CandidatesFor(w, ht, rect, v);
    var fb := Fallbacks(c, w, rect, v);
    if HasCollision(c.above, placed) && exists i :: 0 <= i < |fb| && !HasCollision(fb[i], placed) {
      FirstFreeIsFirst(fb, placed);
    }
  }

  lemma {:induction false} FirstFreeIsFirst(cands: seq<Box>, placed: set<LabelBox>)
    requires FirstFree(cands, placed).Some?
    ensures exists i ::
      (0 <= i < |cands| && FirstFree(cands, placed).value == cands[i] &&
       forall j :: 0 <= j < i ==> HasCollision(cands[j], placed))
    decreases |cands|
  {
    if HasCollision(cands[0], placed) {
      FirstFreeIsFirst(cands[1..], placed);
      var i :| 0 <= i < |cands[1..]| && FirstFree(cands[1..], placed).value == cands[1..][i]
        && forall j :: 0 <= j < i ==> HasCollision(cands[1..][j], placed);
      assert FirstFree(cands, placed).value == cands[i + 1];
      assert forall j :: 0 <= j < i + 1 ==> HasCollision(cands[j], placed) by {
        forall j | 0 <= j < i + 1
          ensures HasCollision(cands[j], placed)
        {
          if j > 0 {
            assert cands[j] == cands[1..][j - 1];
          }
        }
      }
    } else {
      assert FirstFree(cands, placed).value == cands[0];
    }
  }

  /** The chosen rectangle is free whenever any of the four candidates
      is. */
  lemma FreeWhenPossible(measuredW: real, measuredH: real, rect: Rect, v: Viewport, placed: set<LabelBox>)
    ensures var c := CandidatesFor(OrElse(measuredW, DefaultLabelWidth), OrElse(measuredH, DefaultLabelHeight), rect, v);
      (!HasCollision(c.above, placed) || !HasCollision(c.below, placed)
        || !HasCollision(c.right, placed) || !HasCollision(c.left, placed)) ==>
      !HasCollision(ChosenBox(measuredW, measuredH, rect, v, placed), placed)
  {
    var w := OrElse(measuredW, DefaultLabelWidth);
    var c := CandidatesFor(w, OrElse(measuredH, DefaultLabelHeight), rect, v);
    var fb := Fallbacks(c, w, rect, v);
    assert c.below in fb && c.right in fb && c.left in fb;
  }

  // ---------------------------------------------------------------------
  // filterNestedSameSource
  // ---------------------------------------------------------------------

  /** Some ancestor from `p` upwards has the attribute value `source`
      (a missing attribute on both sides compares equal, as
      getAttribute's null does). */
  function SameSourceFrom(h: Host, p: Option<nat>, source: Option<string>): bool
    requires WellFormed(h) && (p.Some? ==> p.value < |h.nodes|)
    decreases if p.Some? then p.value + 1 else 0
  {
    if p.None? then false
    else if GetAttr(h, p.value, ScannerMesh.SourceAttr) == source then true
    else SameSourceFrom(h, h.nodes[p.value].parent, source)
  }

  /** The filter callback keeps `el`: no ancestor shares its source. */
  predicate KeepOutermost(h: Host, el: nat)
    requires WellFormed(h) && el < |h.nodes|
  {
    !SameSourceFrom(h, h.nodes[el].parent, GetAttr(h, el, ScannerMesh.SourceAttr))
  }

  /** The ancestor walk finds a match exactly when some ancestor carries
      the same attribute value. */
  lemma {:induction false} SameSourceFromSpec(h: Host, p: nat, source: Option<string>, el: nat)
    requires WellFormed(h) && el < |h.nodes| && h.nodes[el].parent == Some(p)
    ensures SameSourceFrom(h, Some(p), source) <==>
      exists a :: ProperAncestor(h, a, el) && GetAttr(h, a, ScannerMesh.SourceAttr) == source
    decreases p
  {
    var q := h.nodes[p].parent;
    if GetAttr(h, p, ScannerMesh.SourceAttr) == source {
      assert ProperAncestor(h, p, el);
    } else if q.None? {
      forall a | ProperAncestor(h, a, el)
        ensures a == p
      {
      }
    } else {
      SameSourceFromSpec(h, q.value, source, p);
      forall a | ProperAncestor(h, a, el)
        ensures a == p || ProperAncestor(h, a, p)
      {
      }
      forall a | ProperAncestor(h, a, p)
        ensures ProperAncestor(h, a, el)
      {
        ContainsTransitive(h, a, p, el);
      }
    }
  }

  /** What the filter keeps: exactly the elements no ancestor of which
      carries the same data-inspector-source value. */
  lemma KeepOutermostSpec(h: Host, el: nat)
    requires WellFormed(h) && el < |h.nodes|
    ensures KeepOutermost(h, el) <==>
      !exists a :: ProperAncestor(h, a, el) && GetAttr(h, a, ScannerMesh.SourceAttr) == GetAttr(h, el, ScannerMesh.SourceAttr)
  {
    if h.nodes[el].parent.Some? {
      SameSourceFromSpec(h, h.nodes[el].parent.value, GetAttr(h, el, ScannerMesh.SourceAttr), el);
    }
  }

  /** The while loop of the filter callback. */
  method HasSameSourceAncestor(h: Host, el: nat) returns (r: bool)
    requires WellFormed(h) && el < |h.nodes|
    ensures r == !KeepOutermost(h, el)
  {
    var source := GetAttr(h, el, ScannerMesh.SourceAttr);
    var parent: Option<nat> := h.nodes[el].parent;
    while parent.Some?
      invariant parent.Some? ==> parent.value < |h.nodes|
      invariant SameSourceFrom(h, parent, source) == SameSourceFrom(h, h.nodes[el].parent, source)
      decreases if parent.Some? then parent.value + 1 else 0
    {
      if GetAttr(h, parent.value, ScannerMesh.SourceAttr) == source {
        return true;
      }
      parent := h.nodes[parent.value].parent;
    }
    return false;
  }

  function Outermost(h: Host): nat -> bool
    requires WellFormed(h)
  {
    (el: nat) => el < |h.nodes| && KeepOutermost(h, el)
  }

  /** filterNestedSameSource(elements) */
  method FilterNestedSameSource(h: Host, elements: seq<nat>) returns (r: seq<nat>)
    requires WellFormed(h) && forall i :: 0 <= i < |elements| ==> elements[i] < |h.nodes|
    ensures r == Filter(elements, Outermost(h))
  {
    r := [];
    for k := 0 to |elements|
      invariant r == Filter(elements[..k], Outermost(h))
    {
      var nested := HasSameSourceAncestor(h, elements[k]);
      FilterSnoc(elements[..k], elements[k], Outermost(h));
      PrefixSnoc(elements, k);
      if !nested {
        r := r + [elements[k]];
      }
    }
    assert elements[..|elements|] == elements;
  }

  /** The filter keeps a subsequence: what it returns came from the
      input, in the input's order, and is exactly the outermost ones. */
  lemma FilterNestedMembers(h: Host, elements: seq<nat>, x: nat)
    requires WellFormed(h) && x < |h.nodes|
    ensures x in Filter(elements, Outermost(h)) <==>
      x in elements &&
      !exists a :: ProperAncestor(h, a, x) && GetAttr(h, a, ScannerMesh.SourceAttr) == GetAttr(h, x, ScannerMesh.SourceAttr)
  {
    FilterMembers(elements, Outermost(h));
    KeepOutermostSpec(h, x);
  }

  // ---------------------------------------------------------------------
  // Inline styles and the page
  // ---------------------------------------------------------------------

  /** The inline style properties the highlighter reads and writes. */
  datatype InlineStyle = InlineStyle(
    backgroundColor: string, boxShadow: string, position: string, zIndex: string,
    borderRadius: string, border: string, outline: string)

  /** The page as the highlighter changes it: every element's inline
      style, every element's `data-original-box-shadow` (None while the
      attribute is absent), and the labels attached to the body. */
  datatype Page = Page(styles: seq<InlineStyle>, originalBoxShadow: seq<Option<string>>, attached: set<nat>)

  predicate Fits(h: Host, p: Page)
  {
    WellFormed(h) && |p.styles| == |h.nodes| && |p.originalBoxShadow| == |h.nodes|
  }

  predicate SameShape(p: Page, q: Page)
  {
    |p.styles| == |q.styles| && |p.originalBoxShadow| == |q.originalBoxShadow|
  }

  function SetStyle(p: Page, el: nat, s: InlineStyle): Page
    requires el < |p.styles|
  {
    p.(styles := p.styles[el := s])
  }

  const SwatchField := "data-inspector-field"
  const SwatchMarker := "color-swatch"
  const SwatchValue := "data-inspector-value"
  const TypeAttr := "data-inspector-type"

  /** isColorSwatch(el) */
  predicate IsColorSwatch(h: Host, el: nat)
  {
    GetAttr(h, el, SwatchField) == Some(SwatchMarker)
  }

  /** The style after restoreSwatchColor: the background becomes the
      swatch's own colour when that is a non-empty `#`-prefixed value. */
  function ShowSwatch(h: Host, el: nat, s: InlineStyle): InlineStyle
  {
    var color := GetAttr(h, el, SwatchValue);
    if color.Some? && color.value != "" && StartsWith(color.value, "#") then s.(backgroundColor := color.value) else s
  }

  /** restoreSwatchColor(el) */
  function RestoreSwatchColor(h: Host, p: Page, el: nat): Page
    requires el < |p.styles|
  {
    SetStyle(p, el, ShowSwatch(h, el, p.styles[el]))
  }

  /** `els.forEach(restoreSwatchColor)` */
  function RestoreSwatches(h: Host, p: Page, els: seq<nat>): (r: Page)
    requires forall i :: 0 <= i < |els| ==> els[i] < |p.styles|
    ensures SameShape(p, r) && r.originalBoxShadow == p.originalBoxShadow && r.attached == p.attached
    decreases |els|
  {
    if els == [] then p
    else RestoreSwatchColor(h, RestoreSwatches(h, p, els[..|els| - 1]), els[|els| - 1])
  }

  lemma ShowSwatchIdempotent(h: Host, el: nat, s: InlineStyle)
    ensures ShowSwatch(h, el, ShowSwatch(h, el, s)) == ShowSwatch(h, el, s)
  {
  }

  /** Restoring a list of swatches shows each listed swatch's colour and
      touches no other element. */
  lemma {:induction false} RestoreSwatchesAt(h: Host, p: Page, els: seq<nat>, x: nat)
    requires forall i :: 0 <= i < |els| ==> els[i] < |p.styles|
    requires x < |p.styles|
    ensures RestoreSwatches(h, p, els).styles[x] == if x in els then ShowSwatch(h, x, p.styles[x]) else p.styles[x]
    decreases |els|
  {
    if els != [] {
      var init := els[..|els| - 1];
      RestoreSwatchesAt(h, p, init, x);
      assert x in els <==> x in init || x == els[|els| - 1] by {
        assert els == init + [els[|els| - 1]];
      }
    }
  }

  /** The nested text or search input a highlight also tints. */
  function NestedInput(h: Host, el: nat): (r: Option<nat>)
    requires WellFormed(h)
    ensures r.Some? ==> r.value < |h.nodes|
  {
    QuerySelector(h, el, TextInput)
  }

  function NestedSwatches(h: Host, el: nat): (r: seq<nat>)
    requires WellFormed(h)
    ensures forall i :: 0 <= i < |r| ==> r[i] < |h.nodes|
  {
    QuerySelectorAll(h, el, AttrIs(SwatchField, SwatchMarker))
  }

  /** `getComputedStyle(i).borderRadius || fallback` */
  function RadiusOr(h: Host, i: nat, fallback: string): string
    requires i < |h.nodes|
  {
    if h.nodes[i].computed.borderRadius != "" then h.nodes[i].computed.borderRadius else fallback
  }

  /** The border radius a mesh highlight applies: the element's own, or
      that of the input of a search bar or the select of a sort dropdown. */
  function BorderRadiusFor(h: Host, el: nat): string
    requires WellFormed(h) && el < |h.nodes|
  {
    var base := RadiusOr(h, el, "0px");
    var t := GetAttr(h, el, TypeAttr);
    if t == Some("search-bar") then
      match QuerySelector(h, el, TagIn({"input"}))
      case Some(i) => RadiusOr(h, i, base)
      case None => base
    else if t == Some("sort-dropdown") then
      match QuerySelector(h, el, TagIn({"select"}))
      case Some(i) => RadiusOr(h, i, base)
      case None => base
    else base
  }

  /** needsInsetShadow(el) */
  function NeedsInsetShadow(h: Host, p: Page, el: nat): bool
    requires Fits(h, p) && el < |h.nodes|
  {
    var e := h.nodes[el];
    if e.tag == "input" then e.typeProp != "checkbox" && e.typeProp != "radio"
    else if e.tag == "button" || e.tag == "select" then true
    else if QuerySelector(h, el, TagIn({"img"})).Some? || QuerySelector(h, el, TagIn({"input"})).Some? then true
    else if "card" in e.classes || "product" in e.classes then true
    else
      var bg := p.styles[el].backgroundColor;
      bg != "" && bg != "transparent" && bg != "rgba(0, 0, 0, 0)"
  }

  /** The decision reads nothing of the page but the element's own inline
      background. */
  lemma NeedsInsetShadowReadsBackground(h: Host, p: Page, q: Page, el: nat)
    requires Fits(h, p) && Fits(h, q) && el < |h.nodes|
    requires p.styles[el].backgroundColor == q.styles[el].backgroundColor
    ensures NeedsInsetShadow(h, p, el) == NeedsInsetShadow(h, q, el)
  {
  }

  function OuterBorder(color: string): string
  {
    "0 0 0 3px " + color
  }

  function InsetTint(color: string): string
  {
    "inset 0 0 0 1000px " + color + "20"
  }

  // ---------------------------------------------------------------------
  // The highlighter's state as a value
  // ---------------------------------------------------------------------

  datatype MeshSnapshot = MeshSnapshot(
    backgroundColor: string, boxShadow: string, position: string, zIndex: string, borderRadius: string)

  datatype EdsSnapshot = EdsSnapshot(
    element: nat, border: string, outline: string, backgroundColor: string, position: string, zIndex: string)

  /** The page together with the four maps.  A JavaScript Map iterates in
      insertion order, so each map that is iterated carries the order of
      its keys beside it; labels are numbered by the order they were
      created in. */
  datatype State = State(
    page: Page,
    meshOrder: seq<nat>, meshSaved: map<nat, MeshSnapshot>,
    edsOrder: seq<string>, edsSaved: map<string, EdsSnapshot>,
    labelElements: map<string, nat>, labelPositions: map<string, LabelBox>,
    nextLabel: nat)

  ghost predicate KeyOrder<K(!new)>(order: seq<K>, keys: set<K>)
  {
    NoDuplicates(order) && forall k :: k in order <==> k in keys
  }

  /** `map.set(k, v)` keeps an existing key where it is and appends a new one. */
  function OrderAfterSet<K>(order: seq<K>, keys: set<K>, k: K): seq<K>
  {
    if k in keys then order else order + [k]
  }

  /** `map.delete(k)` */
  function OrderAfterDelete<K(==)>(order: seq<K>, k: K): seq<K>
  {
    Filter(order, (x: K) => x != k)
  }

  /** What stays true of the highlighter between calls: the page has one
      style per element; the iterated maps' orders list their keys once
      each; every highlighted EDS item has a label and a recorded label
      rectangle and nothing else does; exactly the items' labels are
      attached, one per item. */
  ghost predicate Inv(h: Host, s: State)
  {
    Fits(h, s.page) && MeshKeys(s) && EdsKeys(s) && LabelKeys(s) && LabelsAttached(s)
  }

  ghost predicate MeshKeys(s: State)
  {
    KeyOrder(s.meshOrder, s.meshSaved.Keys) && forall e :: e in s.meshSaved ==> e < |s.page.styles|
  }

  ghost predicate EdsKeys(s: State)
  {
    KeyOrder(s.edsOrder, s.edsSaved.Keys) && SnapshotsFit(s)
  }

  ghost predicate LabelKeys(s: State)
  {
    s.labelElements.Keys == s.edsSaved.Keys && s.labelPositions.Keys == s.edsSaved.Keys
  }

  /** Labels are numbered below the counter, one per id, and the attached
      ones are exactly those of the ids. */
  ghost predicate LabelsAttached(s: State)
  {
    && (forall id :: id in s.labelElements ==> s.labelElements[id] < s.nextLabel)
    && (forall a, b :: a in s.labelElements && b in s.labelElements && s.labelElements[a] == s.labelElements[b] ==> a == b)
    && s.page.attached == s.labelElements.Values
  }

  lemma KeyOrderSet<K(!new)>(order: seq<K>, keys: set<K>, k: K)
    requires KeyOrder(order, keys)
    ensures KeyOrder(OrderAfterSet(order, keys, k), keys + {k})
  {
  }

  lemma KeyOrderDelete<K(!new)>(order: seq<K>, keys: set<K>, k: K)
    requires KeyOrder(order, keys)
    ensures KeyOrder(OrderAfterDelete(order, k), keys - {k})
  {
    FilterOutKey(order, k);
  }

  /** A fresh label for `id` replacing its old one keeps the labels one
      per id. */
  lemma LabelsAfterCreate(s: State, a: State, id: string)
    requires LabelsAttached(s)
    requires a.labelElements == s.labelElements[id := s.nextLabel] && a.nextLabel == s.nextLabel + 1
    requires a.page.attached == (s.page.attached - (if id in s.labelElements then {s.labelElements[id]} else {})) + {s.nextLabel}
    ensures LabelsAttached(a)
  {
    assert s.nextLabel !in s.page.attached;
    forall n | n in a.page.attached
      ensures n in a.labelElements.Values
    {
      if n != s.nextLabel {
        var k :| k in s.labelElements && s.labelElements[k] == n;
        assert k != id;
        assert a.labelElements[k] == n;
      } else {
        assert a.labelElements[id] == n;
      }
    }
  }

  /** Removing `id` and detaching its label keeps the labels one per id. */
  lemma LabelsAfterDrop(a: State, r: State, id: string)
    requires LabelsAttached(a)
    requires r.labelElements == a.labelElements - {id} && r.nextLabel == a.nextLabel
    requires r.page.attached == a.page.attached - (if id in a.labelElements then {a.labelElements[id]} else {})
    ensures LabelsAttached(r)
  {
    forall n | n in r.page.attached
      ensures n in r.labelElements.Values
    {
      var k :| k in a.labelElements && a.labelElements[k] == n;
      assert k != id;
      assert r.labelElements[k] == n;
    }
  }

  // ---------------------------------------------------------------------
  // Mesh highlights
  // ---------------------------------------------------------------------

  function SnapshotOf(s: InlineStyle): MeshSnapshot
  {
    MeshSnapshot(s.backgroundColor, s.boxShadow, s.position, s.zIndex, s.borderRadius)
  }

  /** The nested input keeps its first saved box shadow and gets the tint. */
  function MarkNestedInput(h: Host, p: Page, el: nat, color: string): (r: Page)
    requires Fits(h, p)
    ensures SameShape(p, r) && r.attached == p.attached
  {
    match NestedInput(h, el)
    case None => p
    case Some(ni) =>
      var q := if p.originalBoxShadow[ni].None? then p.(originalBoxShadow := p.originalBoxShadow[ni := Some(p.styles[ni].boxShadow)]) else p;
      SetStyle(q, ni, q.styles[ni].(boxShadow := InsetTint(color)))
  }

  /** The styles one element of highlightMeshSource gets, once its
      snapshot is taken. */
  function HighlightMeshOne(h: Host, p: Page, el: nat, color: string): (r: Page)
    requires Fits(h, p) && el < |h.nodes|
    ensures SameShape(p, r) && r.attached == p.attached
  {
    var p1 := SetStyle(p, el, p.styles[el].(borderRadius := BorderRadiusFor(h, el)));
    if IsColorSwatch(h, el) then
      RestoreSwatchColor(h, SetStyle(p1, el, p1.styles[el].(boxShadow := OuterBorder(color), position := "relative", zIndex := "10")), el)
    else
      var p2 :=
        if NeedsInsetShadow(h, p1, el) then
          MarkNestedInput(h, SetStyle(p1, el, p1.styles[el].(boxShadow := OuterBorder(color) + ", inset 0 0 0 1000px " + color + "20")), el, color)
        else
          SetStyle(p1, el, p1.styles[el].(boxShadow := OuterBorder(color), backgroundColor := color + "10"));
      var p3 := SetStyle(p2, el, p2.styles[el].(position := "relative", zIndex := "10"));
      RestoreSwatches(h, p3, NestedSwatches(h, el))
  }

  /** What clearMeshHighlights needs: every key in the mesh order has a
      snapshot and names an element of the page. */
  ghost predicate MeshFits(h: Host, s: State)
  {
    Fits(h, s.page) && forall i :: 0 <= i < |s.meshOrder| ==> s.meshOrder[i] in s.meshSaved && s.meshOrder[i] < |h.nodes|
  }

  /** One iteration of highlightMeshSource's loop. */
  function HighlightMeshStep(h: Host, s: State, el: nat, color: string): (r: State)
    requires Fits(h, s.page) && el < |h.nodes|
    ensures Fits(h, r.page) && r.page.attached == s.page.attached
    ensures MeshFits(h, s) ==> MeshFits(h, r)
  {
    s.(meshOrder := OrderAfterSet(s.meshOrder, s.meshSaved.Keys, el),
       meshSaved := s.meshSaved[el := SnapshotOf(s.page.styles[el])],
       page := HighlightMeshOne(h, s.page, el, color))
  }

  function HighlightMeshAll(h: Host, s: State, els: seq<nat>, color: string): (r: State)
    requires Fits(h, s.page) && forall i :: 0 <= i < |els| ==> els[i] < |h.nodes|
    ensures Fits(h, r.page) && r.page.attached == s.page.attached
    ensures MeshFits(h, s) ==> MeshFits(h, r)
    decreases |els|
  {
    if els == [] then s
    else HighlightMeshStep(h, HighlightMeshAll(h, s, els[..|els| - 1], color), els[|els| - 1], color)
  }

  /** highlightMeshSource(elements, sourceColor) */
  function HighlightMesh(h: Host, s: State, elements: seq<nat>, color: string): State
    requires Fits(h, s.page) && forall i :: 0 <= i < |elements| ==> elements[i] < |h.nodes|
  {
    var filtered: seq<nat> := Filter<nat>(elements, Outermost(h));
    assert forall i :: 0 <= i < |filtered| ==> filtered[i] < |h.nodes| by {
      FilterMembers(elements, Outermost(h));
      assert forall i :: 0 <= i < |filtered| ==> filtered[i] in filtered;
    }
    HighlightMeshAll(h, s, filtered, color)
  }

  /** The nested input gets back the box shadow saved on it. */
  function RestoreNestedInput(h: Host, p: Page, el: nat): (r: Page)
    requires Fits(h, p)
    ensures SameShape(p, r) && r.attached == p.attached
  {
    match NestedInput(h, el)
    case Some(ni) =>
      if p.originalBoxShadow[ni].Some? then
        SetStyle(p.(originalBoxShadow := p.originalBoxShadow[ni := None]), ni,
                 p.styles[ni].(boxShadow := p.originalBoxShadow[ni].value))
      else p
    case None => p
  }

  /** One iteration of clearMeshHighlights's loop. */
  function ClearMeshOne(h: Host, p: Page, el: nat, saved: MeshSnapshot): (r: Page)
    requires Fits(h, p) && el < |h.nodes|
    ensures SameShape(p, r) && r.attached == p.attached
  {
    var p1 := if IsColorSwatch(h, el) then RestoreSwatchColor(h, p, el)
              else SetStyle(p, el, p.styles[el].(backgroundColor := saved.backgroundColor));
    var p2 := SetStyle(p1, el, p1.styles[el].(boxShadow := saved.boxShadow, position := saved.position,
                                              zIndex := saved.zIndex, borderRadius := saved.borderRadius));
    RestoreSwatches(h, RestoreNestedInput(h, p2, el), NestedSwatches(h, el))
  }

  function ClearMeshAll(h: Host, p: Page, order: seq<nat>, saved: map<nat, MeshSnapshot>): (r: Page)
    requires Fits(h, p) && forall i :: 0 <= i < |order| ==> order[i] in saved && order[i] < |h.nodes|
    ensures SameShape(p, r) && r.attached == p.attached
    decreases |order|
  {
    if order == [] then p
    else
      var el := order[|order| - 1];
      ClearMeshOne(h, ClearMeshAll(h, p, order[..|order| - 1], saved), el, saved[el])
  }

  /** clearMeshHighlights() */
  function ClearMesh(h: Host, s: State): (r: State)
    requires MeshFits(h, s)
    ensures Fits(h, r.page)
  {
    s.(page := ClearMeshAll(h, s.page, s.meshOrder, s.meshSaved), meshOrder := [], meshSaved := map[])
  }

  // ---------------------------------------------------------------------
  // EDS highlights and labels
  // ---------------------------------------------------------------------

  /** The preset styles of EDS_STYLES, kept opaque. */
  datatype EdsStyle = EdsStyle(border: string, outline: string, backgroundColor: string)

  function EdsStyleFor(kind: ScannerEds.Kind): EdsStyle
  {
    match kind
    case BlockKind => EdsStyle("2px solid #6366f1", "2px solid rgba(99, 102, 241, 0.3)", "rgba(99, 102, 241, 0.08)")
    case SlotKind => EdsStyle("2px dashed #22c55e", "2px dashed rgba(34, 197, 94, 0.4)", "rgba(34, 197, 94, 0.08)")
  }

  function MaxReal(a: real, b: real): real
  {
    if a >= b then a else b
  }

  /** createLabel(itemId, element, text, type) for a label that measures
      `measuredW` by `measuredH` once attached. */
  function CreateLabel(h: Host, s: State, id: string, el: nat, measuredW: real, measuredH: real, v: Viewport): (r: State)
    requires WellFormed(h) && el < |h.nodes|
  {
    var p1 := if id in s.labelElements then s.page.(attached := s.page.attached - {s.labelElements[id]}) else s.page;
    var newLabel := s.nextLabel;
    s.(page := p1.(attached := p1.attached + {newLabel}),
       labelPositions := s.labelPositions[id := PlacedLabel(h.nodes[el].rect, measuredW, measuredH, v, s.labelPositions.Values)],
       labelElements := s.labelElements[id := newLabel],
       nextLabel := newLabel + 1)
  }

  /** The rectangle createLabel records: the chosen position clamped to
      the top and left margins, and the label's size. */
  function PlacedLabel(rect: Rect, measuredW: real, measuredH: real, v: Viewport, placed: set<LabelBox>): LabelBox
  {
    var pos := FindBestLabelPosition(measuredW, measuredH, rect, v, placed);
    var top := MaxReal(ScrollTop(v) + 4.0, pos.top);
    var left := MaxReal(4.0, pos.left);
    LabelBox(top, left, OrElse(measuredW, DefaultLabelWidth), OrElse(measuredH, DefaultLabelHeight))
  }

  /** The first half of highlightEdsItem: the snapshot is saved under
      the id and the preset style applied. */
  function SaveEds(h: Host, s: State, el: nat, id: string, kind: ScannerEds.Kind): (r: State)
    requires Fits(h, s.page) && el < |h.nodes|
    ensures Fits(h, r.page)
    ensures SnapshotsFit(s) ==> SnapshotsFit(r)
  {
    var st := s.page.styles[el];
    var look := EdsStyleFor(kind);
    s.(edsOrder := OrderAfterSet(s.edsOrder, s.edsSaved.Keys, id),
       edsSaved := s.edsSaved[id := EdsSnapshot(el, st.border, st.outline, st.backgroundColor, st.position, st.zIndex)],
       page := SetStyle(s.page, el, st.(border := look.border, outline := look.outline,
                                        backgroundColor := look.backgroundColor, position := "relative", zIndex := "10000")))
  }

  /** highlightEdsItem(element, itemId, name, type) */
  function HighlightEds(h: Host, s: State, el: nat, id: string, kind: ScannerEds.Kind,
                        measuredW: real, measuredH: real, v: Viewport): (r: State)
    requires Fits(h, s.page) && el < |h.nodes|
    ensures Fits(h, r.page)
    ensures SnapshotsFit(s) ==> SnapshotsFit(r)
  {
    CreateLabel(h, SaveEds(h, s, el, id, kind), id, el, measuredW, measuredH, v)
  }

  ghost predicate SnapshotsFit(s: State)
  {
    forall id :: id in s.edsSaved ==> s.edsSaved[id].element < |s.page.styles|
  }

  /** clearEdsHighlight(itemId) */
  function ClearEds(s: State, id: string): (r: State)
    requires SnapshotsFit(s)
    ensures SnapshotsFit(r) && SameShape(s.page, r.page)
  {
    var s1 :=
      if id in s.edsSaved then
        var saved := s.edsSaved[id];
        var st := s.page.styles[saved.element];
        s.(page := SetStyle(s.page, saved.element, st.(border := saved.border, outline := saved.outline,
                            backgroundColor := saved.backgroundColor, position := saved.position, zIndex := saved.zIndex)),
           edsSaved := s.edsSaved - {id},
           edsOrder := OrderAfterDelete(s.edsOrder, id))
      else s;
    if id in s1.labelElements then
      s1.(page := s1.page.(attached := s1.page.attached - {s1.labelElements[id]}),
          labelElements := s1.labelElements - {id},
          labelPositions := s1.labelPositions - {id})
    else s1
  }

  /** clearEdsHighlight over a list of ids, first to last. */
  function ClearEdsAll(s: State, ids: seq<string>): (r: State)
    requires SnapshotsFit(s)
    ensures SnapshotsFit(r) && SameShape(s.page, r.page)
    decreases |ids|
  {
    if ids == [] then s else ClearEds(ClearEdsAll(s, ids[..|ids| - 1]), ids[|ids| - 1])
  }

  /** clearAll() */
  function ClearAll(h: Host, s: State): (r: State)
    requires MeshFits(h, s) && SnapshotsFit(s)
    ensures Fits(h, r.page)
  {
    var s1 := ClearMesh(h, s);
    var s2 := ClearEdsAll(s1, s1.edsOrder);
    s2.(page := s2.page.(attached := s2.page.attached - s2.labelElements.Values),
        labelElements := map[], labelPositions := map[])
  }

  // ---------------------------------------------------------------------
  // Properties of the EDS highlights and the labels
  // ---------------------------------------------------------------------

  lemma OrderSetThenDelete<K>(order: seq<K>, keys: set<K>, k: K)
    requires k in keys <==> k in order
    ensures OrderAfterDelete(OrderAfterSet(order, keys, k), k) == OrderAfterDelete(order, k)
  {
    if k !in keys {
      FilterSnoc(order, k, (x: K) => x != k);
    }
  }

  /** highlightEdsItem followed by clearEdsHighlight on the same id puts
      every inline style back, takes the id out of the three EDS maps, and
      leaves attached the labels attached before, less the id's own. */
  lemma EdsRoundTrip(h: Host, s: State, el: nat, id: string, kind: ScannerEds.Kind,
                     measuredW: real, measuredH: real, v: Viewport)
    requires Inv(h, s) && el < |h.nodes|
    ensures var r := ClearEds(HighlightEds(h, s, el, id, kind, measuredW, measuredH, v), id);
      && r.page.styles == s.page.styles
      && r.page.originalBoxShadow == s.page.originalBoxShadow
      && r.edsSaved == s.edsSaved - {id}
      && r.edsOrder == OrderAfterDelete(s.edsOrder, id)
      && r.labelElements == s.labelElements - {id}
      && r.labelPositions == s.labelPositions - {id}
      && r.page.attached == s.page.attached - (if id in s.labelElements then {s.labelElements[id]} else {})
      && r.meshSaved == s.meshSaved && r.meshOrder == s.meshOrder && r.nextLabel == s.nextLabel + 1
  {
    assert s.nextLabel !in s.page.attached;
    assert id in s.edsSaved <==> id in s.edsOrder;
    EdsRoundTripCore(h, s, el, id, kind, measuredW, measuredH, v);
  }

  lemma EdsRoundTripCore(h: Host, s: State, el: nat, id: string, kind: ScannerEds.Kind,
                         measuredW: real, measuredH: real, v: Viewport)
    requires Fits(h, s.page) && SnapshotsFit(s) && el < |h.nodes|
    requires s.nextLabel !in s.page.attached
    requires id in s.edsSaved <==> id in s.edsOrder
    ensures var r := ClearEds(HighlightEds(h, s, el, id, kind, measuredW, measuredH, v), id);
      && r.page.styles == s.page.styles
      && r.page.originalBoxShadow == s.page.originalBoxShadow
      && r.edsSaved == s.edsSaved - {id}
      && r.edsOrder == OrderAfterDelete(s.edsOrder, id)
      && r.labelElements == s.labelElements - {id}
      && r.labelPositions == s.labelPositions - {id}
      && r.page.attached == s.page.attached - (if id in s.labelElements then {s.labelElements[id]} else {})
      && r.meshSaved == s.meshSaved && r.meshOrder == s.meshOrder && r.nextLabel == s.nextLabel + 1
  {
    var a := HighlightEds(h, s, el, id, kind, measuredW, measuredH, v);
    HighlightEdsFields(h, s, el, id, kind, measuredW, measuredH, v);
    ClearEdsFields(a, id);
    OrderSetThenDelete(s.edsOrder, s.edsSaved.Keys, id);
    var st := s.page.styles[el];
    MapSetRemove(s.edsSaved, id, EdsSnapshot(el, st.border, st.outline, st.backgroundColor, st.position, st.zIndex));
    MapSetRemove(s.labelElements, id, s.nextLabel);
    MapSetRemove(s.labelPositions, id, PlacedLabel(h.nodes[el].rect, measuredW, measuredH, v, s.labelPositions.Values));
    var r := ClearEds(a, id);
    assert r.page.styles == s.page.styles[el := st];
  }

  lemma OrderDeleteAbsent<K>(order: seq<K>, k: K)
    requires k !in order
    ensures OrderAfterDelete(order, k) == order
  {
    FilterAll(order, (x: K) => x != k);
  }

  lemma MapRemoveAbsent<K, V>(m: map<K, V>, k: K)
    requires k !in m
    ensures m - {k} == m
  {
  }

  lemma MapSetRemove<K, V>(m: map<K, V>, k: K, x: V)
    ensures m[k := x] - {k} == m - {k}
  {
  }

  /** Field by field, what highlightEdsItem changes. */
  lemma HighlightEdsFields(h: Host, s: State, el: nat, id: string, kind: ScannerEds.Kind,
                           measuredW: real, measuredH: real, v: Viewport)
    requires Fits(h, s.page) && el < |h.nodes|
    ensures var a := HighlightEds(h, s, el, id, kind, measuredW, measuredH, v);
      var st := s.page.styles[el];
      var look := EdsStyleFor(kind);
      && a.page.styles == s.page.styles[el := st.(border := look.border, outline := look.outline,
                                       backgroundColor := look.backgroundColor, position := "relative", zIndex := "10000")]
      && a.page.originalBoxShadow == s.page.originalBoxShadow
      && a.edsSaved == s.edsSaved[id := EdsSnapshot(el, st.border, st.outline, st.backgroundColor, st.position, st.zIndex)]
      && a.edsOrder == OrderAfterSet(s.edsOrder, s.edsSaved.Keys, id)
      && a.labelElements == s.labelElements[id := s.nextLabel]
      && a.labelPositions == s.labelPositions[id := PlacedLabel(h.nodes[el].rect, measuredW, measuredH, v, s.labelPositions.Values)]
      && a.page.attached == (s.page.attached - (if id in s.labelElements then {s.labelElements[id]} else {})) + {s.nextLabel}
      && a.meshSaved == s.meshSaved && a.meshOrder == s.meshOrder && a.nextLabel == s.nextLabel + 1
  {
  }

  /** Field by field, what clearEdsHighlight changes. */
  lemma ClearEdsFields(a: State, id: string)
    requires SnapshotsFit(a)
    ensures var r := ClearEds(a, id);
      && r.page.styles == (if id in a.edsSaved then
           var saved := a.edsSaved[id];
           a.page.styles[saved.element := a.page.styles[saved.element].(border := saved.border, outline := saved.outline,
             backgroundColor := saved.backgroundColor, position := saved.position, zIndex := saved.zIndex)]
         else a.page.styles)
      && r.page.originalBoxShadow == a.page.originalBoxShadow
      && r.edsSaved == a.edsSaved - {id}
      && r.edsOrder == (if id in a.edsSaved then OrderAfterDelete(a.edsOrder, id) else a.edsOrder)
      && r.labelElements == a.labelElements - {id}
      && r.labelPositions == (if id in a.labelElements then a.labelPositions - {id} else a.labelPositions)
      && r.page.attached == a.page.attached - (if id in a.labelElements then {a.labelElements[id]} else {})
      && r.meshSaved == a.meshSaved && r.meshOrder == a.meshOrder && r.nextLabel == a.nextLabel
  {
  }

  /** On an id that was not highlighted, the round trip leaves everything
      as it was except the label counter. */
  lemma EdsRoundTripFresh(h: Host, s: State, el: nat, id: string, kind: ScannerEds.Kind,
                          measuredW: real, measuredH: real, v: Viewport)
    requires Inv(h, s) && el < |h.nodes| && id !in s.edsSaved
    ensures ClearEds(HighlightEds(h, s, el, id, kind, measuredW, measuredH, v), id) == s.(nextLabel := s.nextLabel + 1)
  {
    EdsRoundTrip(h, s, el, id, kind, measuredW, measuredH, v);
    OrderDeleteAbsent(s.edsOrder, id);
    var r := ClearEds(HighlightEds(h, s, el, id, kind, measuredW, measuredH, v), id);
    assert id !in s.labelElements && id !in s.labelPositions;
    MapRemoveAbsent(s.edsSaved, id);
    MapRemoveAbsent(s.labelElements, id);
    MapRemoveAbsent(s.labelPositions, id);
    assert r.page == s.page;
  }

  /** Clearing an id with no highlight and no label changes nothing. */
  lemma ClearEdsUnknown(s: State, id: string)
    requires SnapshotsFit(s) && id !in s.edsSaved && id !in s.labelElements
    ensures ClearEds(s, id) == s
  {
  }

  /** createLabel detaches the id's previous label, attaches a new one,
      records its rectangle (top at least the scroll offset plus 4, left
      at least 4, the measured size or 60 by 20) and leaves the other
      ids' labels alone. */
  lemma CreateLabelSpec(h: Host, s: State, id: string, el: nat, measuredW: real, measuredH: real, v: Viewport)
    requires Inv(h, s) && el < |h.nodes|
    ensures var r := CreateLabel(h, s, id, el, measuredW, measuredH, v);
      var b := r.labelPositions[id];
      var pos := FindBestLabelPosition(measuredW, measuredH, h.nodes[el].rect, v, s.labelPositions.Values);
      && s.nextLabel !in s.page.attached
      && r.labelElements == s.labelElements[id := s.nextLabel]
      && r.page.attached == (s.page.attached - (if id in s.labelElements then {s.labelElements[id]} else {})) + {s.nextLabel}
      && r.labelPositions.Keys == s.labelPositions.Keys + {id}
      && (forall k :: k in s.labelPositions && k != id ==> r.labelPositions[k] == s.labelPositions[k])
      && b.top >= ScrollTop(v) + 4.0 && b.left >= 4.0
      && (pos.top >= ScrollTop(v) + 4.0 ==> b.top == pos.top)
      && (pos.left >= 4.0 ==> b.left == pos.left)
      && b.width == OrElse(measuredW, DefaultLabelWidth) && b.height == OrElse(measuredH, DefaultLabelHeight)
  {
    assert s.nextLabel !in s.page.attached;
  }

  /** highlightEdsItem keeps the invariant: in particular the id ends up
      with exactly one attached label. */
  lemma HighlightEdsKeepsInv(h: Host, s: State, el: nat, id: string, kind: ScannerEds.Kind,
                             measuredW: real, measuredH: real, v: Viewport)
    requires Inv(h, s) && el < |h.nodes|
    ensures Inv(h, HighlightEds(h, s, el, id, kind, measuredW, measuredH, v))
  {
    HighlightEdsKeepsMesh(h, s, el, id, kind, measuredW, measuredH, v);
    HighlightEdsKeepsEdsKeys(h, s, el, id, kind, measuredW, measuredH, v);
    HighlightEdsKeepsLabelKeys(h, s, el, id, kind, measuredW, measuredH, v);
    HighlightEdsKeepsLabels(h, s, el, id, kind, measuredW, measuredH, v);
  }

  /** highlightEdsItem leaves the page's size and the mesh bookkeeping alone. */
  lemma HighlightEdsKeepsMesh(h: Host, s: State, el: nat, id: string, kind: ScannerEds.Kind,
      measuredW: real, measuredH: real, v: Viewport)
    requires Inv(h, s) && el < |h.nodes|
    ensures var a := HighlightEds(h, s, el, id, kind, measuredW, measuredH, v);
      Fits(h, a.page) && MeshKeys(a)
  {
    HighlightEdsFields(h, s, el, id, kind, measuredW, measuredH, v);
  }

  /** highlightEdsItem keeps the snapshot keys in insertion order. */
  lemma HighlightEdsKeepsEdsKeys(h: Host, s: State, el: nat, id: string, kind: ScannerEds.Kind,
      measuredW: real, measuredH: real, v: Viewport)
    requires Inv(h, s) && el < |h.nodes|
    ensures EdsKeys(HighlightEds(h, s, el, id, kind, measuredW, measuredH, v))
  {
    var a := HighlightEds(h, s, el, id, kind, measuredW, measuredH, v);
    HighlightEdsFields(h, s, el, id, kind, measuredW, measuredH, v);
    assert a.edsSaved.Keys == s.edsSaved.Keys + {id};
    KeyOrderSet(s.edsOrder, s.edsSaved.Keys, id);
  }

  /** highlightEdsItem keeps one label and one position per snapshot. */
  lemma HighlightEdsKeepsLabelKeys(h: Host, s: State, el: nat, id: string, kind: ScannerEds.Kind,
      measuredW: real, measuredH: real, v: Viewport)
    requires Inv(h, s) && el < |h.nodes|
    ensures LabelKeys(HighlightEds(h, s, el, id, kind, measuredW, measuredH, v))
  {
    HighlightEdsFields(h, s, el, id, kind, measuredW, measuredH, v);
  }

  /** The label part of the invariant after highlightEdsItem. */
  lemma HighlightEdsKeepsLabels(h: Host, s: State, el: nat, id: string, kind: ScannerEds.Kind,
                                measuredW: real, measuredH: real, v: Viewport)
    requires Inv(h, s) && el < |h.nodes|
    ensures LabelsAttached(HighlightEds(h, s, el, id, kind, measuredW, measuredH, v))
  {
    var a := HighlightEds(h, s, el, id, kind, measuredW, measuredH, v);
    HighlightEdsFields(h, s, el, id, kind, measuredW, measuredH, v);
    LabelsAfterCreate(s, a, id);
  }

  lemma FilterOutKey<K>(order: seq<K>, k: K)
    requires NoDuplicates(order)
    ensures NoDuplicates(OrderAfterDelete(order, k))
    ensures forall x :: x in OrderAfterDelete(order, k) <==> x in order && x != k
  {
    FilterMembers(order, (x: K) => x != k);
    FilterKeepsDistinct(order, (x: K) => x != k);
  }

  /** clearEdsHighlight keeps the invariant. */
  lemma ClearEdsKeepsInv(h: Host, s: State, id: string)
    requires Inv(h, s)
    ensures Inv(h, ClearEds(s, id))
  {
    var r := ClearEds(s, id);
    ClearEdsFields(s, id);
    if id in s.edsSaved {
      KeyOrderDelete(s.edsOrder, s.edsSaved.Keys, id);
    }
    LabelsAfterDrop(s, r, id);
  }

  // ---------------------------------------------------------------------
  // Properties of the mesh highlights and of clearAll
  // ---------------------------------------------------------------------

  /** One element of highlightMeshSource keeps the invariant. */
  lemma HighlightMeshStepKeepsInv(h: Host, s: State, el: nat, color: string)
    requires Inv(h, s) && el < |h.nodes|
    ensures Inv(h, HighlightMeshStep(h, s, el, color))
  {
    KeyOrderSet(s.meshOrder, s.meshSaved.Keys, el);
  }

  lemma {:induction false} HighlightMeshAllKeepsInv(h: Host, s: State, els: seq<nat>, color: string)
    requires Inv(h, s) && forall i :: 0 <= i < |els| ==> els[i] < |h.nodes|
    ensures Inv(h, HighlightMeshAll(h, s, els, color))
    decreases |els|
  {
    if els != [] {
      HighlightMeshAllKeepsInv(h, s, els[..|els| - 1], color);
      HighlightMeshStepKeepsInv(h, HighlightMeshAll(h, s, els[..|els| - 1], color), els[|els| - 1], color);
    }
  }

  /** highlightMeshSource remembers a snapshot for every element it
      highlighted, on top of those it had. */
  lemma {:induction false} HighlightMeshAllSaves(h: Host, s: State, els: seq<nat>, color: string)
    requires Fits(h, s.page) && forall i :: 0 <= i < |els| ==> els[i] < |h.nodes|
    ensures forall x :: x in HighlightMeshAll(h, s, els, color).meshSaved <==> x in s.meshSaved || x in els
    decreases |els|
  {
    if els != [] {
      var init, last := els[..|els| - 1], els[|els| - 1];
      HighlightMeshAllSaves(h, s, init, color);
      MeshStepSaves(h, HighlightMeshAll(h, s, init, color), last, color);
      assert els == init + [last];
    }
  }

  lemma MeshStepSaves(h: Host, s: State, el: nat, color: string)
    requires Fits(h, s.page) && el < |h.nodes|
    ensures HighlightMeshStep(h, s, el, color).meshSaved.Keys == s.meshSaved.Keys + {el}
  {
  }

  /** An order is empty exactly when there are no keys. */
  lemma OrderEmptyIff<K(!new)>(order: seq<K>, keys: set<K>)
    requires KeyOrder(order, keys)
    ensures order == [] <==> keys == {}
  {
    if order != [] {
      assert order[0] in order;
    }
  }

  lemma FirstKey<K(!new)>(order: seq<K>, keys: set<K>)
    requires KeyOrder(order, keys)
    ensures order != [] ==> order[0] in keys
  {
    if order != [] {
      assert order[0] in order;
    }
  }

  lemma InvMeshFits(h: Host, s: State)
    requires Inv(h, s)
    ensures MeshFits(h, s)
  {
    forall i | 0 <= i < |s.meshOrder|
      ensures s.meshOrder[i] in s.meshSaved
    {
      assert s.meshOrder[i] in s.meshOrder;
    }
  }

  /** clearMeshHighlights keeps the invariant. */
  lemma ClearMeshKeepsInv(h: Host, s: State)
    requires Inv(h, s)
    ensures MeshFits(h, s) && Inv(h, ClearMesh(h, s))
  {
    InvMeshFits(h, s);
  }

  /** Clearing a list of ids keeps the invariant and removes exactly
      those ids. */
  lemma {:induction false} ClearEdsAllSpec(h: Host, s: State, ids: seq<string>)
    requires Inv(h, s)
    ensures var r := ClearEdsAll(s, ids);
      && Inv(h, r) && r.meshSaved == s.meshSaved && r.meshOrder == s.meshOrder
      && forall k :: k in r.edsSaved <==> k in s.edsSaved && k !in ids
    decreases |ids|
  {
    if ids != [] {
      var init := ids[..|ids| - 1];
      ClearEdsAllSpec(h, s, init);
      var m := ClearEdsAll(s, init);
      ClearEdsKeepsInv(h, m, ids[|ids| - 1]);
      ClearEdsFields(m, ids[|ids| - 1]);
      assert forall k :: k in ids <==> k in init || k == ids[|ids| - 1] by {
        assert ids == init + [ids[|ids| - 1]];
      }
    }
  }

  /** clearAll leaves all four maps empty and no label attached, and
      keeps the invariant. */
  lemma ClearAllSpec(h: Host, s: State)
    requires Inv(h, s)
    ensures MeshFits(h, s)
    ensures var r := ClearAll(h, s);
      && Inv(h, r)
      && r.meshSaved == map[] && r.meshOrder == []
      && r.edsSaved == map[] && r.edsOrder == []
      && r.labelElements == map[] && r.labelPositions == map[]
      && r.page.attached == {}
  {
    ClearMeshKeepsInv(h, s);
    var s1 := ClearMesh(h, s);
    ClearEdsAllSpec(h, s1, s1.edsOrder);
    var s2 := ClearEdsAll(s1, s1.edsOrder);
    assert s2.edsSaved == map[];
    FirstKey(s2.edsOrder, s2.edsSaved.Keys);
    assert s2.labelElements == map[];
  }

  /** Neither the nested input nor the nested swatches are the element
      itself. */
  lemma NestedAreInside(h: Host, el: nat)
    requires WellFormed(h) && el < |h.nodes|
    ensures el !in NestedSwatches(h, el)
    ensures NestedInput(h, el).Some? ==> NestedInput(h, el).value != el
  {
    QuerySelectorAllSpec(h, el, AttrIs(SwatchField, SwatchMarker));
    QuerySelectorSpec(h, el, TextInput);
    if el in NestedSwatches(h, el) {
      ProperAncestorOrdered(h, el, el);
    }
    if NestedInput(h, el).Some? {
      QuerySelectorFirst(h, el, TextInput);
      ProperAncestorOrdered(h, el, NestedInput(h, el).value);
    }
  }

  /** The round trip on a swatch: its snapshot is put back, but its
      background shows its own colour. */
  lemma MeshRoundTripSwatch(h: Host, p: Page, el: nat, color: string)
    requires Fits(h, p) && el < |h.nodes| && IsColorSwatch(h, el)
    requires NestedInput(h, el).Some? ==> p.originalBoxShadow[NestedInput(h, el).value].None?
    ensures var r := ClearMeshOne(h, HighlightMeshOne(h, p, el, color), el, SnapshotOf(p.styles[el]));
      && r.originalBoxShadow == p.originalBoxShadow
      && forall x :: 0 <= x < |h.nodes| ==>
           r.styles[x] == if x == el || x in NestedSwatches(h, el) then ShowSwatch(h, x, p.styles[x]) else p.styles[x]
  {
    var nested := NestedSwatches(h, el);
    var snap := SnapshotOf(p.styles[el]);
    var q := HighlightMeshOne(h, p, el, color);
    var c1 := RestoreSwatchColor(h, q, el);
    var c2 := SetStyle(c1, el, c1.styles[el].(boxShadow := snap.boxShadow, position := snap.position,
                                              zIndex := snap.zIndex, borderRadius := snap.borderRadius));
    assert c2.styles == p.styles[el := ShowSwatch(h, el, p.styles[el])];
    assert RestoreNestedInput(h, c2, el) == c2;
    NestedAreInside(h, el);
    forall x | 0 <= x < |h.nodes|
      ensures RestoreSwatches(h, c2, nested).styles[x] ==
        if x == el || x in nested then ShowSwatch(h, x, p.styles[x]) else p.styles[x]
    {
      RestoreSwatchesAt(h, c2, nested, x);
    }
  }

  /** The round trip on an element that gets the inset shadow: everything
      is put back, the nested input's box shadow included, except the
      nested swatches, which show their own colour. */
  lemma MeshRoundTripInset(h: Host, p: Page, el: nat, color: string)
    requires Fits(h, p) && el < |h.nodes| && !IsColorSwatch(h, el)
    requires NeedsInsetShadow(h, p, el)
    requires NestedInput(h, el).Some? ==> p.originalBoxShadow[NestedInput(h, el).value].None?
    ensures var r := ClearMeshOne(h, HighlightMeshOne(h, p, el, color), el, SnapshotOf(p.styles[el]));
      && r.originalBoxShadow == p.originalBoxShadow
      && forall x :: 0 <= x < |h.nodes| ==>
           r.styles[x] == if x in NestedSwatches(h, el) then ShowSwatch(h, x, p.styles[x]) else p.styles[x]
  {
    var nested := NestedSwatches(h, el);
    var st := p.styles[el];
    var p1 := SetStyle(p, el, st.(borderRadius := BorderRadiusFor(h, el)));
    NeedsInsetShadowReadsBackground(h, p, p1, el);
    var p2 := MarkNestedInput(h, SetStyle(p1, el, p1.styles[el].(boxShadow := OuterBorder(color) + ", inset 0 0 0 1000px " + color + "20")), el, color);
    var p3 := SetStyle(p2, el, p2.styles[el].(position := "relative", zIndex := "10"));
    assert HighlightMeshOne(h, p, el, color) == RestoreSwatches(h, p3, nested);
    var q := RestoreSwatches(h, p3, nested);
    var c1 := SetStyle(q, el, q.styles[el].(backgroundColor := st.backgroundColor));
    var c2 := SetStyle(c1, el, c1.styles[el].(boxShadow := st.boxShadow, position := st.position,
                                              zIndex := st.zIndex, borderRadius := st.borderRadius));
    var c3 := RestoreNestedInput(h, c2, el);
    assert ClearMeshOne(h, q, el, SnapshotOf(st)) == RestoreSwatches(h, c3, nested);
    NestedAreInside(h, el);
    assert c3.originalBoxShadow == p.originalBoxShadow;
    forall x | 0 <= x < |h.nodes|
      ensures RestoreSwatches(h, c3, nested).styles[x] ==
        if x in nested then ShowSwatch(h, x, p.styles[x]) else p.styles[x]
    {
      RestoreSwatchesAt(h, p3, nested, x);
      RestoreSwatchesAt(h, c3, nested, x);
    }
  }

  /** The round trip on an element that gets the background tint. */
  lemma MeshRoundTripTint(h: Host, p: Page, el: nat, color: string)
    requires Fits(h, p) && el < |h.nodes| && !IsColorSwatch(h, el)
    requires !NeedsInsetShadow(h, p, el)
    requires NestedInput(h, el).Some? ==> p.originalBoxShadow[NestedInput(h, el).value].None?
    ensures var r := ClearMeshOne(h, HighlightMeshOne(h, p, el, color), el, SnapshotOf(p.styles[el]));
      && r.originalBoxShadow == p.originalBoxShadow
      && forall x :: 0 <= x < |h.nodes| ==>
           r.styles[x] == if x in NestedSwatches(h, el) then ShowSwatch(h, x, p.styles[x]) else p.styles[x]
  {
    var nested := NestedSwatches(h, el);
    var st := p.styles[el];
    var p1 := SetStyle(p, el, st.(borderRadius := BorderRadiusFor(h, el)));
    NeedsInsetShadowReadsBackground(h, p, p1, el);
    var p2 := SetStyle(p1, el, p1.styles[el].(boxShadow := OuterBorder(color), backgroundColor := color + "10"));
    var p3 := SetStyle(p2, el, p2.styles[el].(position := "relative", zIndex := "10"));
    assert HighlightMeshOne(h, p, el, color) == RestoreSwatches(h, p3, nested);
    var q := RestoreSwatches(h, p3, nested);
    var c1 := SetStyle(q, el, q.styles[el].(backgroundColor := st.backgroundColor));
    var c2 := SetStyle(c1, el, c1.styles[el].(boxShadow := st.boxShadow, position := st.position,
                                              zIndex := st.zIndex, borderRadius := st.borderRadius));
    assert RestoreNestedInput(h, c2, el) == c2;
    assert ClearMeshOne(h, q, el, SnapshotOf(st)) == RestoreSwatches(h, c2, nested);
    NestedAreInside(h, el);
    forall x | 0 <= x < |h.nodes|
      ensures RestoreSwatches(h, c2, nested).styles[x] ==
        if x in nested then ShowSwatch(h, x, p.styles[x]) else p.styles[x]
    {
      RestoreSwatchesAt(h, p3, nested, x);
      RestoreSwatchesAt(h, c2, nested, x);
    }
  }

  /** Highlighting one element with nothing else highlighted, then
      clearing the mesh highlights, gives every element its inline style
      back and takes away the saved box shadows and the snapshot, except
      that swatches (the element itself, or swatches nested in it) show
      their own colour. */
  lemma MeshRoundTrip(h: Host, s: State, el: nat, color: string)
    requires Inv(h, s) && s.meshOrder == [] && el < |h.nodes|
    requires NestedInput(h, el).Some? ==> s.page.originalBoxShadow[NestedInput(h, el).value].None?
    ensures MeshFits(h, HighlightMeshAll(h, s, [el], color))
    ensures var r := ClearMesh(h, HighlightMeshAll(h, s, [el], color));
      && r.meshSaved == map[] && r.meshOrder == []
      && r.page.originalBoxShadow == s.page.originalBoxShadow
      && r.page.attached == s.page.attached
      && forall x :: 0 <= x < |h.nodes| ==>
           r.page.styles[x] == if (x == el && IsColorSwatch(h, el)) || x in NestedSwatches(h, el)
                               then ShowSwatch(h, x, s.page.styles[x]) else s.page.styles[x]
  {
    InvMeshFits(h, s);
    OrderEmptyIff(s.meshOrder, s.meshSaved.Keys);
    MeshRoundTripCore(h, s, el, color);
  }

  lemma MeshRoundTripCore(h: Host, s: State, el: nat, color: string)
    requires Fits(h, s.page) && s.meshOrder == [] && s.meshSaved == map[] && el < |h.nodes|
    requires NestedInput(h, el).Some? ==> s.page.originalBoxShadow[NestedInput(h, el).value].None?
    ensures MeshFits(h, HighlightMeshAll(h, s, [el], color))
    ensures var r := ClearMesh(h, HighlightMeshAll(h, s, [el], color));
      && r.meshSaved == map[] && r.meshOrder == []
      && r.page.originalBoxShadow == s.page.originalBoxShadow
      && r.page.attached == s.page.attached
      && forall x :: 0 <= x < |h.nodes| ==>
           r.page.styles[x] == if (x == el && IsColorSwatch(h, el)) || x in NestedSwatches(h, el)
                               then ShowSwatch(h, x, s.page.styles[x]) else s.page.styles[x]
  {
    var s1 := HighlightMeshAll(h, s, [el], color);
    assert [el][..0] == [];
    assert HighlightMeshAll(h, s, [], color) == s;
    assert s1 == HighlightMeshStep(h, s, el, color);
    var snap := SnapshotOf(s.page.styles[el]);
    assert s1.meshOrder == [el] && s1.meshSaved == map[el := snap];
    assert ClearMeshAll(h, s1.page, [], s1.meshSaved) == s1.page;
    assert ClearMesh(h, s1).page == ClearMeshOne(h, s1.page, el, snap);
    if IsColorSwatch(h, el) {
      MeshRoundTripSwatch(h, s.page, el, color);
    } else if NeedsInsetShadow(h, s.page, el) {
      MeshRoundTripInset(h, s.page, el, color);
    } else {
      MeshRoundTripTint(h, s.page, el, color);
    }
  }

}
