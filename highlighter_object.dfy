// The highlighter as the object createHighlighter() returns: four maps
// updated in place, over a page whose inline styles it changes in place.
// Each method is proved against the state-transition function of module
// Highlight that describes the same call.

module HighlighterObject {
  import opened Common
  import opened Dom
  import opened Highlight
  import ScannerEds

  /** The live page: an element tree that stays fixed, and the inline
      styles, `data-original-box-shadow` attributes and attached labels
      that the highlighter changes in place. */
  class Document {
    const host: Host
    var styles: seq<InlineStyle>
    var originalBoxShadow: seq<Option<string>>
    var attached: set<nat>

    function Now(): Page
      reads this
    {
      Page(styles, originalBoxShadow, attached)
    }

    constructor (h: Host, p: Page)
      requires Fits(h, p)
      ensures host == h && Now() == p
    {
      host := h;
      styles := p.styles;
      originalBoxShadow := p.originalBoxShadow;
      attached := p.attached;
    }
  }

  /** The closure createHighlighter() returns, with its four maps as
      fields; a JavaScript Map iterates in insertion order, so each map
      that is iterated has its key order beside it. */
  class Highlighter {
    const doc: Document
    var meshOrder: seq<nat>
    var meshSaved: map<nat, MeshSnapshot>
    var edsOrder: seq<string>
    var edsSaved: map<string, EdsSnapshot>
    var labelElements: map<string, nat>
    var labelPositions: map<string, LabelBox>
    var nextLabel: nat
    /** Set by destroy(), which drops the maps; nothing may be called after. */
    var destroyed: bool

    function Now(): State
      reads this, doc
    {
      State(doc.Now(), meshOrder, meshSaved, edsOrder, edsSaved, labelElements, labelPositions, nextLabel)
    }

    ghost predicate Valid()
      reads this, doc
    {
      Inv(doc.host, Now()) && MeshFits(doc.host, Now())
    }

    /** createHighlighter() on a page none of whose labels are attached. */
    constructor (d: Document)
      requires Fits(d.host, d.Now()) && d.attached == {}
      ensures doc == d && Valid() && !destroyed
      ensures Now() == State(d.Now(), [], map[], [], map[], map[], map[], 0)
    {
      doc := d;
      meshOrder := [];
      meshSaved := map[];
      edsOrder := [];
      edsSaved := map[];
      labelElements := map[];
      labelPositions := map[];
      nextLabel := 0;
      destroyed := false;
    }

    /** restoreSwatchColor(el) */
    method RestoreSwatch(el: nat)
      requires el < |doc.styles|
      modifies doc
      ensures doc.Now() == RestoreSwatchColor(doc.host, old(doc.Now()), el)
    {
      doc.styles := doc.styles[el := ShowSwatch(doc.host, el, doc.styles[el])];
    }

    /** `el.querySelectorAll(swatch).forEach(restoreSwatchColor)` */
    method RestoreNestedSwatches(el: nat)
      requires Fits(doc.host, doc.Now())
      modifies doc
      ensures doc.Now() == RestoreSwatches(doc.host, old(doc.Now()), NestedSwatches(doc.host, el))
    {
      var swatches := NestedSwatches(doc.host, el);
      var i := 0;
      while i < |swatches|
        invariant 0 <= i <= |swatches|
        invariant doc.Now() == RestoreSwatches(doc.host, old(doc.Now()), swatches[..i])
      {
        assert swatches[..i + 1][..i] == swatches[..i];
        RestoreSwatch(swatches[i]);
        i := i + 1;
      }
      assert swatches[..|swatches|] == swatches;
    }

    /** One pass of highlightMeshSource's loop. */
    method HighlightMeshElement(el: nat, color: string)
      requires Fits(doc.host, doc.Now()) && el < |doc.host.nodes|
      modifies this, doc
      ensures Now() == HighlightMeshStep(doc.host, old(Now()), el, color)
      ensures destroyed == old(destroyed)
    {
      var h := doc.host;
      var st := doc.styles[el];
      meshOrder := OrderAfterSet(meshOrder, meshSaved.Keys, el);
      meshSaved := meshSaved[el := SnapshotOf(st)];
      doc.styles := doc.styles[el := st.(borderRadius := BorderRadiusFor(h, el))];
      if IsColorSwatch(h, el) {
        doc.styles := doc.styles[el := doc.styles[el].(boxShadow := OuterBorder(color), position := "relative", zIndex := "10")];
        RestoreSwatch(el);
      } else {
        if NeedsInsetShadow(h, doc.Now(), el) {
          doc.styles := doc.styles[el := doc.styles[el].(boxShadow := OuterBorder(color) + ", inset 0 0 0 1000px " + color + "20")];
          var nested := NestedInput(h, el);
          if nested.Some? {
            var ni := nested.value;
            if doc.originalBoxShadow[ni].None? {
              doc.originalBoxShadow := doc.originalBoxShadow[ni := Some(doc.styles[ni].boxShadow)];
            }
            doc.styles := doc.styles[ni := doc.styles[ni].(boxShadow := InsetTint(color))];
          }
        } else {
          doc.styles := doc.styles[el := doc.styles[el].(boxShadow := OuterBorder(color), backgroundColor := color + "10")];
        }
        doc.styles := doc.styles[el := doc.styles[el].(position := "relative", zIndex := "10")];
        RestoreNestedSwatches(el);
      }
    }

    /** highlightMeshSource(elements, sourceColor) */
    method HighlightMeshSource(elements: seq<nat>, color: string)
      requires Valid() && !destroyed
      requires forall i :: 0 <= i < |elements| ==> elements[i] < |doc.host.nodes|
      modifies this, doc
      ensures Now() == HighlightMesh(doc.host, old(Now()), elements, color)
      ensures Valid() && !destroyed
    {
      ghost var s0 := Now();
      var filtered := FilterNestedSameSource(doc.host, elements);
      assert forall i :: 0 <= i < |filtered| ==> filtered[i] < |doc.host.nodes| by {
        FilterMembers(elements, Outermost(doc.host));
        assert forall i :: 0 <= i < |filtered| ==> filtered[i] in filtered;
      }
      HighlightEach(filtered, color);
      HighlightMeshAllKeepsInv(doc.host, s0, filtered, color);
    }

    /** highlightMeshSource's loop over the filtered elements. */
    method HighlightEach(els: seq<nat>, color: string)
      requires Fits(doc.host, doc.Now())
      requires forall i :: 0 <= i < |els| ==> els[i] < |doc.host.nodes|
      modifies this, doc
      ensures Now() == HighlightMeshAll(doc.host, old(Now()), els, color)
      ensures destroyed == old(destroyed)
    {
      ghost var s0 := Now();
      var i := 0;
      while i < |els|
        invariant 0 <= i <= |els|
        invariant Fits(doc.host, doc.Now()) && destroyed == old(destroyed)
        invariant Now() == HighlightMeshAll(doc.host, s0, els[..i], color)
      {
        assert els[..i + 1][..i] == els[..i];
        HighlightMeshElement(els[i], color);
        i := i + 1;
      }
      assert els[..|els|] == els;
    }

    /** One pass of clearMeshHighlights's loop. */
    method ClearMeshElement(el: nat, saved: MeshSnapshot)
      requires Fits(doc.host, doc.Now()) && el < |doc.host.nodes|
      modifies doc
      ensures doc.Now() == ClearMeshOne(doc.host, old(doc.Now()), el, saved)
    {
      var h := doc.host;
      if IsColorSwatch(h, el) {
        RestoreSwatch(el);
      } else {
        doc.styles := doc.styles[el := doc.styles[el].(backgroundColor := saved.backgroundColor)];
      }
      doc.styles := doc.styles[el := doc.styles[el].(boxShadow := saved.boxShadow, position := saved.position,
                                                     zIndex := saved.zIndex, borderRadius := saved.borderRadius)];
      var nested := NestedInput(h, el);
      if nested.Some? && doc.originalBoxShadow[nested.value].Some? {
        var ni := nested.value;
        doc.styles := doc.styles[ni := doc.styles[ni].(boxShadow := doc.originalBoxShadow[ni].value)];
        doc.originalBoxShadow := doc.originalBoxShadow[ni := None];
      }
      RestoreNestedSwatches(el);
    }

    /** clearMeshHighlights() */
    method ClearMeshHighlights()
      requires Valid() && !destroyed
      modifies this, doc
      ensures Now() == ClearMesh(doc.host, old(Now())) && Valid()
      ensures meshSaved == map[] && destroyed == old(destroyed)
    {
      ghost var s0 := Now();
      RestoreMeshElements();
      ClearMeshKeepsInv(doc.host, s0);
    }

    /** clearMeshHighlights's loop over the saved snapshots, in insertion
        order, and the clearing of the map. */
    method RestoreMeshElements()
      requires MeshFits(doc.host, Now())
      modifies this, doc
      ensures Now() == ClearMesh(doc.host, old(Now()))
      ensures destroyed == old(destroyed)
    {
      RestoreMeshLoop(meshOrder, meshSaved);
      meshSaved := map[];
      meshOrder := [];
    }

    /** The loop itself: each element of `order` gets its snapshot back. */
    method RestoreMeshLoop(order: seq<nat>, saved: map<nat, MeshSnapshot>)
      requires Fits(doc.host, doc.Now())
      requires forall i :: 0 <= i < |order| ==> order[i] in saved && order[i] < |doc.host.nodes|
      modifies doc
      ensures doc.Now() == ClearMeshAll(doc.host, old(doc.Now()), order, saved)
    {
      var h := doc.host;
      ghost var p0 := doc.Now();
      var i := 0;
      while i < |order|
        invariant 0 <= i <= |order|
        invariant Fits(h, doc.Now())
        invariant doc.Now() == ClearMeshAll(h, p0, order[..i], saved)
      {
        var el := order[i];
        assert order[..i + 1][..i] == order[..i];
        ClearMeshElement(el, saved[el]);
        i := i + 1;
      }
      assert order[..|order|] == order;
    }

    /** createLabel(itemId, element, text, type) for a label that
        measures `measuredW` by `measuredH` once attached. */
    method CreateLabel(id: string, el: nat, measuredW: real, measuredH: real, v: Viewport)
      requires WellFormed(doc.host) && el < |doc.host.nodes|
      modifies this, doc
      ensures Now() == Highlight.CreateLabel(doc.host, old(Now()), id, el, measuredW, measuredH, v)
      ensures destroyed == old(destroyed)
    {
      if id in labelElements {
        doc.attached := doc.attached - {labelElements[id]};
      }
      var newLabel := nextLabel;
      doc.attached := doc.attached + {newLabel};
      var pos := FindBestLabelPosition(measuredW, measuredH, doc.host.nodes[el].rect, v, labelPositions.Values);
      var top := MaxReal(ScrollTop(v) + 4.0, pos.top);
      var left := MaxReal(4.0, pos.left);
      labelPositions := labelPositions[id := LabelBox(top, left, OrElse(measuredW, DefaultLabelWidth), OrElse(measuredH, DefaultLabelHeight))];
      labelElements := labelElements[id := newLabel];
      nextLabel := newLabel + 1;
    }

    /** highlightEdsItem(element, itemId, name, type) */
    method HighlightEdsItem(el: nat, id: string, kind: ScannerEds.Kind, measuredW: real, measuredH: real, v: Viewport)
      requires Valid() && !destroyed && el < |doc.host.nodes|
      modifies this, doc
      ensures Now() == HighlightEds(doc.host, old(Now()), el, id, kind, measuredW, measuredH, v)
      ensures Valid() && !destroyed
    {
      ghost var s0 := Now();
      SaveEdsStyle(el, id, kind);
      CreateLabel(id, el, measuredW, measuredH, v);
      HighlightEdsKeepsInv(doc.host, s0, el, id, kind, measuredW, measuredH, v);
    }

    /** The snapshot and the preset style of highlightEdsItem. */
    method SaveEdsStyle(el: nat, id: string, kind: ScannerEds.Kind)
      requires Fits(doc.host, doc.Now()) && el < |doc.host.nodes|
      modifies this, doc
      ensures Now() == SaveEds(doc.host, old(Now()), el, id, kind)
      ensures destroyed == old(destroyed)
    {
      var st := doc.styles[el];
      edsOrder := OrderAfterSet(edsOrder, edsSaved.Keys, id);
      edsSaved := edsSaved[id := EdsSnapshot(el, st.border, st.outline, st.backgroundColor, st.position, st.zIndex)];
      var look := EdsStyleFor(kind);
      doc.styles := doc.styles[el := st.(border := look.border, outline := look.outline,
                                         backgroundColor := look.backgroundColor, position := "relative", zIndex := "10000")];
    }

    /** clearEdsHighlight(itemId) */
    method ClearEdsHighlight(id: string)
      requires Valid() && !destroyed
      modifies this, doc
      ensures Now() == ClearEds(old(Now()), id)
      ensures Valid() && !destroyed
    {
      ghost var s0 := Now();
      RestoreEdsItem(id);
      ClearEdsKeepsInv(doc.host, s0, id);
    }

    /** clearEdsHighlight's work: the snapshot put back, the label
        detached, the id dropped from the three maps. */
    method RestoreEdsItem(id: string)
      requires SnapshotsFit(Now())
      modifies this, doc
      ensures Now() == ClearEds(old(Now()), id)
      ensures destroyed == old(destroyed)
    {
      if id in edsSaved {
        var saved := edsSaved[id];
        var el := saved.element;
        doc.styles := doc.styles[el := doc.styles[el].(border := saved.border, outline := saved.outline,
                       backgroundColor := saved.backgroundColor, position := saved.position, zIndex := saved.zIndex)];
        edsSaved := edsSaved - {id};
        edsOrder := OrderAfterDelete(edsOrder, id);
      }
      if id in labelElements {
        doc.attached := doc.attached - {labelElements[id]};
        labelElements := labelElements - {id};
        labelPositions := labelPositions - {id};
      }
    }

    /** clearAll(): every map empty and every label detached. */
    method ClearAll()
      requires Valid() && !destroyed
      modifies this, doc
      ensures Now() == Highlight.ClearAll(doc.host, old(Now()))
      ensures Valid() && !destroyed
      ensures meshSaved == map[] && edsSaved == map[] && labelElements == map[] && labelPositions == map[]
      ensures doc.attached == {}
    {
      ghost var s0 := Now();
      ClearEverything();
      ClearAllSpec(doc.host, s0);
    }

    /** clearAll's three steps: the mesh highlights, then every EDS item
        in insertion order, then any label still attached. */
    method ClearEverything()
      requires MeshFits(doc.host, Now()) && SnapshotsFit(Now())
      modifies this, doc
      ensures Now() == Highlight.ClearAll(doc.host, old(Now()))
      ensures destroyed == old(destroyed)
    {
      RestoreMeshElements();
      RestoreEdsItems(edsOrder);
      doc.attached := doc.attached - labelElements.Values;
      labelElements := map[];
      labelPositions := map[];
    }

    /** `for (const itemId of [...edsSavedStyles.keys()]) clearEdsHighlight(itemId)` */
    method RestoreEdsItems(ids: seq<string>)
      requires SnapshotsFit(Now())
      modifies this, doc
      ensures Now() == ClearEdsAll(old(Now()), ids)
      ensures destroyed == old(destroyed)
    {
      ghost var s0 := Now();
      var i := 0;
      while i < |ids|
        invariant 0 <= i <= |ids|
        invariant SnapshotsFit(Now()) && destroyed == old(destroyed)
        invariant Now() == ClearEdsAll(s0, ids[..i])
      {
        assert ids[..i + 1][..i] == ids[..i];
        RestoreEdsItem(ids[i]);
        i := i + 1;
      }
      assert ids[..|ids|] == ids;
    }

    /** destroy(): clearAll(), then the maps are dropped. */
    method Destroy()
      requires Valid() && !destroyed
      modifies this, doc
      ensures Now() == Highlight.ClearAll(doc.host, old(Now())) && destroyed
      ensures doc.attached == {}
    {
      ClearAll();
      destroyed := true;
    }
  }
}
