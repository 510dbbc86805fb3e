/** The <demo-inspector> element as an object: the settings store and the
    highlighter it creates, its `modes` attribute and the EDS scan it last
    rendered, with the handlers that toggle list entries in the store,
    the one that toggles an EDS item's highlight, the mode check run on
    connection and the guarded scan run by render. */
module PanelObject {
  import opened Common
  import opened Dom
  import opened State
  import opened ScannerEds
  import Highlight
  import HighlighterObject
  import opened Panel
  import opened PanelTree

  const ActiveModeKey := "activeMode"
  const ActiveSourcesKey := "activeSources"
  const ExpandedNodesKey := "expandedNodes"
  const ActiveItemsKey := "activeItems"
  const ShowEmptySlotsKey := "showEmptySlots"
  const MeshMode := "mesh"

  /** The keys of DEFAULT_STATE. */
  const DefaultKeys: set<string> := {
    "enabled", "panelPosition", ActiveModeKey, ActiveSourcesKey, "allSourcesHighlighted", "trackedQueries",
    "cacheDisabled", ActiveItemsKey, ExpandedNodesKey, ShowEmptySlotsKey, "isMinimized", "panelCollapsed"}

  /** What _scanEdsDom returns when scanEds throws. */
  const EmptyScan := ScanResult([], [], Counts(0, 0))

  /** The property holds an array. */
  predicate HasList(o: Obj, key: string)
  {
    key in o && o[key].List?
  }

  /** JavaScript truthiness of a state value. */
  predicate Truthy(v: Value)
  {
    match v
    case List(_) => true
    case Scalar(p) =>
      match p
      case Str(s) => s != ""
      case Num(n) => n != 0
      case Bool(b) => b
      case Null => false
  }

  /** `state.showEmptySlots ?? false`, the way the scanner tests it. */
  predicate ShowEmptySlots(o: Obj)
  {
    ShowEmptySlotsKey in o && Truthy(o[ShowEmptySlotsKey])
  }

  // ---------------------------------------------------------------------
  // The mode check
  // ---------------------------------------------------------------------

  /** `available.includes(state.activeMode)` */
  predicate ModeAvailable(o: Obj, available: seq<string>)
  {
    ActiveModeKey in o && o[ActiveModeKey].Scalar? && o[ActiveModeKey].p.Str? && o[ActiveModeKey].p.s in available
  }

  /** `available[0] || 'mesh'` */
  function FallbackMode(available: seq<string>): string
  {
    if |available| > 0 && available[0] != "" then available[0] else MeshMode
  }

  /** The partial state _enforceAvailableMode hands to setState. */
  function ModePatch(available: seq<string>): Obj
  {
    map[ActiveModeKey := Scalar(Str(FallbackMode(available)))]
  }

  /** The state after _enforceAvailableMode. */
  function Enforced(o: Obj, available: seq<string>): Obj
  {
    if ModeAvailable(o, available) then o else o + ModePatch(available)
  }

  /** After the check the active mode is one the attribute offers; only
      when the attribute offers none is it "mesh" regardless. Nothing but
      the active mode changes, and an available mode is left alone. */
  lemma EnforcedMode(o: Obj, attr: Option<string>)
    ensures var available := GetAvailableModes(attr);
      var r := Enforced(o, available);
      && (ModeAvailable(r, available) || (available == [] && r[ActiveModeKey] == Scalar(Str(MeshMode))))
      && r.Keys == o.Keys + {ActiveModeKey}
      && (forall k :: k in o && k != ActiveModeKey ==> r[k] == o[k])
      && (ModeAvailable(o, available) ==> r == o)
  {
    var available := GetAvailableModes(attr);
    AvailableModesClean(attr);
    if |available| > 0 {
      assert ModeClean(available[0]);
    }
    EnforcedModeOf(o, available);
  }

  lemma EnforcedModeOf(o: Obj, available: seq<string>)
    requires |available| > 0 ==> available[0] != ""
    ensures var r := Enforced(o, available);
      && (ModeAvailable(r, available) || (available == [] && r[ActiveModeKey] == Scalar(Str(MeshMode))))
      && r.Keys == o.Keys + {ActiveModeKey}
      && (forall k :: k in o && k != ActiveModeKey ==> r[k] == o[k])
      && (ModeAvailable(o, available) ==> r == o)
  {
    var r := Enforced(o, available);
    if !ModeAvailable(o, available) {
      assert r[ActiveModeKey] == Scalar(Str(FallbackMode(available)));
      if |available| > 0 {
        assert FallbackMode(available) == available[0];
      }
    }
  }

  /** Running the check twice is running it once. */
  lemma EnforcedIdempotent(o: Obj, attr: Option<string>)
    ensures var available := GetAvailableModes(attr);
      Enforced(Enforced(o, available), available) == Enforced(o, available)
  {
    var available := GetAvailableModes(attr);
    AvailableModesClean(attr);
    if |available| > 0 {
      assert ModeClean(available[0]);
    }
    EnforcedIdempotentOf(o, available);
  }

  lemma EnforcedIdempotentOf(o: Obj, available: seq<string>)
    requires |available| > 0 ==> available[0] != ""
    ensures Enforced(Enforced(o, available), available) == Enforced(o, available)
  {
    var r := Enforced(o, available);
    EnforcedModeOf(o, available);
    if !ModeAvailable(r, available) {
      assert r + ModePatch(available) == r;
    }
  }

  /** Without a `modes` attribute both modes are offered: a stored "eds"
      survives the check, anything else becomes "mesh". */
  lemma EnforcedDefault(o: Obj)
    ensures var r := Enforced(o, GetAvailableModes(None));
      r[ActiveModeKey] == Scalar(Str(MeshMode)) || r[ActiveModeKey] == Scalar(Str("eds"))
    ensures ModeAvailable(o, ["mesh", "eds"]) ==> Enforced(o, GetAvailableModes(None)) == o
  {
    AvailableModesMembers(None, MeshMode);
  }

  // ---------------------------------------------------------------------
  // The tree-item toggle, on the highlighter's state
  // ---------------------------------------------------------------------

  /** `itemId.startsWith('block') ? 'block' : 'slot'` */
  function ItemKind(itemId: string): Kind
  {
    if StartsWith(itemId, "block") then BlockKind else SlotKind
  }

  /** Every element the last scan names is a node of the page. */
  predicate ScanWithin(scan: Option<ScanResult>, n: nat)
  {
    scan.Some? ==> EntriesBelow(FlatBlocks(scan.value.blocks), n)
  }

  /** The element _findElementById returns for an id over the last scan:
      the first the panel's own walk reaches with that id, so a slot of a
      block nested inside another block's slot is never found. */
  function ScannedElement(scan: Option<ScanResult>, itemId: string): (r: Option<nat>)
    ensures r.Some? <==> scan.Some? && !NoId(CollectedBlocks(scan.value.blocks), itemId)
  {
    if scan.None? then None else FirstWithId(CollectedBlocks(scan.value.blocks), itemId)
  }

  lemma ScannedElementWithin(scan: Option<ScanResult>, itemId: string, n: nat)
    requires ScanWithin(scan, n)
    ensures ScannedElement(scan, itemId).Some? ==> ScannedElement(scan, itemId).value < n
  {
    if scan.Some? {
      CollectedBlocksBelow(scan.value.blocks, n);
    }
  }

  /** What _handleTreeItemToggle does to the highlighter: an active item
      loses its highlight; an inactive one is highlighted when the last
      scan holds an element for its id. */
  function TreeItemEffect(h: Host, s: Highlight.State, itemId: string, wasActive: bool, scan: Option<ScanResult>,
                          measuredW: real, measuredH: real, v: Highlight.Viewport): (r: Highlight.State)
    requires Highlight.Fits(h, s.page) && Highlight.SnapshotsFit(s) && ScanWithin(scan, |h.nodes|)
    ensures Highlight.Fits(h, r.page) && Highlight.SnapshotsFit(r)
  {
    ScannedElementWithin(scan, itemId, |h.nodes|);
    if wasActive then Highlight.ClearEds(s, itemId)
    else
      match ScannedElement(scan, itemId)
      case None => s
      case Some(el) => Highlight.HighlightEds(h, s, el, itemId, ItemKind(itemId), measuredW, measuredH, v)
  }

  /** On the nested tree the id pass stamps, clicking the inner block's
      slot "slot-1" leaves the highlighter as it was: the panel's lookup
      does not reach that slot, although the tree lists it. */
  lemma TreeItemMissesNestedSlot(h: Host, s: Highlight.State, measuredW: real, measuredH: real, v: Highlight.Viewport)
    requires Highlight.Fits(h, s.page) && Highlight.SnapshotsFit(s) && 4 < |h.nodes|
    ensures var scan := Some(ScanResult(MintBlocks([RawCards], Tally(0, 0, 0, 0)).0, [], Counts(2, 2)));
      && ScanWithin(scan, |h.nodes|)
      && TreeItemEffect(h, s, "slot-1", false, scan, measuredW, measuredH, v) == s
  {
    NestedMinted();
    NestedWalks();
    NestedSlotIsMissed();
  }

  /** Toggling an active item off takes away its highlight and its label. */
  lemma TreeItemOff(h: Host, s: Highlight.State, itemId: string, scan: Option<ScanResult>,
                    measuredW: real, measuredH: real, v: Highlight.Viewport)
    requires Highlight.Fits(h, s.page) && Highlight.SnapshotsFit(s) && ScanWithin(scan, |h.nodes|)
    ensures var r := TreeItemEffect(h, s, itemId, true, scan, measuredW, measuredH, v);
      itemId !in r.edsSaved && itemId !in r.labelElements && r.meshSaved == s.meshSaved
  {
    Highlight.ClearEdsFields(s, itemId);
  }

  /** Toggling an inactive item on highlights it exactly when the last
      scan holds an element for its id, and then that element, with the
      style its kind calls for; otherwise nothing changes. */
  lemma TreeItemOn(h: Host, s: Highlight.State, itemId: string, scan: Option<ScanResult>,
                   measuredW: real, measuredH: real, v: Highlight.Viewport)
    requires Highlight.Fits(h, s.page) && Highlight.SnapshotsFit(s) && ScanWithin(scan, |h.nodes|)
    ensures var r := TreeItemEffect(h, s, itemId, false, scan, measuredW, measuredH, v);
      && (ScannedElement(scan, itemId).None? ==> r == s)
      && (ScannedElement(scan, itemId).Some? ==>
            var el := ScannedElement(scan, itemId).value;
            && itemId in r.edsSaved && r.edsSaved[itemId].element == el && itemId in r.labelElements
            && r.page.styles[el].border == Highlight.EdsStyleFor(ItemKind(itemId)).border)
  {
    ScannedElementWithin(scan, itemId, |h.nodes|);
    if ScannedElement(scan, itemId).Some? {
      Highlight.HighlightEdsFields(h, s, ScannedElement(scan, itemId).value, itemId, ItemKind(itemId), measuredW, measuredH, v);
    }
  }

  /** Clicking an unhighlighted item twice leaves the highlighter as it
      was, apart from the counter that names labels. */
  lemma TreeItemTwice(h: Host, s: Highlight.State, itemId: string, scan: Option<ScanResult>,
                      measuredW: real, measuredH: real, v: Highlight.Viewport)
    requires Highlight.Inv(h, s) && ScanWithin(scan, |h.nodes|) && itemId !in s.edsSaved
    ensures var on := TreeItemEffect(h, s, itemId, false, scan, measuredW, measuredH, v);
      TreeItemEffect(h, on, itemId, true, scan, measuredW, measuredH, v) == s.(nextLabel := on.nextLabel)
  {
    ScannedElementWithin(scan, itemId, |h.nodes|);
    var on := TreeItemEffect(h, s, itemId, false, scan, measuredW, measuredH, v);
    match ScannedElement(scan, itemId)
    case None =>
      assert itemId !in s.labelElements;
      Highlight.ClearEdsUnknown(s, itemId);
    case Some(el) =>
      Highlight.EdsRoundTripFresh(h, s, el, itemId, ItemKind(itemId), measuredW, measuredH, v);
  }

  /** `o` is DEFAULT_STATE: its twelve keys, each at its default, every
      array empty. */
  predicate IsDefaultState(o: Obj)
  {
    && o.Keys == DefaultKeys
    && o["enabled"] == Scalar(Bool(true))
    && o["panelPosition"] == Scalar(Str("right"))
    && o[ActiveModeKey] == Scalar(Str(MeshMode))
    && o[ActiveSourcesKey].List? && o[ActiveSourcesKey].a.Length == 0
    && o["allSourcesHighlighted"] == Scalar(Bool(false))
    && o["trackedQueries"].List? && o["trackedQueries"].a.Length == 0
    && o["cacheDisabled"] == Scalar(Bool(false))
    && o[ActiveItemsKey].List? && o[ActiveItemsKey].a.Length == 0
    && o[ExpandedNodesKey].List? && o[ExpandedNodesKey].a.Length == 0
    && o[ShowEmptySlotsKey] == Scalar(Bool(false))
    && o["isMinimized"] == Scalar(Bool(false))
    && o["panelCollapsed"] == Scalar(Bool(false))
  }

  /** DEFAULT_STATE, over four fresh empty arrays. */
  function DefaultState(sources: array<Prim>, queries: array<Prim>, items: array<Prim>, expanded: array<Prim>): (r: Obj)
    requires sources.Length == 0 && queries.Length == 0 && items.Length == 0 && expanded.Length == 0
    ensures IsDefaultState(r)
  {
    map[
      "enabled" := Scalar(Bool(true)),
      "panelPosition" := Scalar(Str("right")),
      ActiveModeKey := Scalar(Str(MeshMode)),
      ActiveSourcesKey := List(sources),
      "allSourcesHighlighted" := Scalar(Bool(false)),
      "trackedQueries" := List(queries),
      "cacheDisabled" := Scalar(Bool(false)),
      ActiveItemsKey := List(items),
      ExpandedNodesKey := List(expanded),
      ShowEmptySlotsKey := Scalar(Bool(false)),
      "isMinimized" := Scalar(Bool(false)),
      "panelCollapsed" := Scalar(Bool(false))]
  }

  /** Loading the saved values keeps every default key. */
  lemma LoadedKeys(initial: set<string>, saved: Storage, loaded: set<string>)
    requires initial == DefaultKeys
    requires !saved.Stored? ==> loaded == initial
    requires saved.Stored? ==> loaded == initial + saved.saved.Keys
    ensures DefaultKeys <= loaded
  {
  }

  /** `new Store({ ...DEFAULT_STATE }, …)`: the defaults, with what the
      page saved earlier merged in. */
  method NewDefaultStore(saved: Storage) returns (st: Store)
    ensures fresh(st) && st.Valid() && st.listeners == [] && st.written == None && st.deliveries == []
    ensures saved.Stored? ==> DefaultKeys <= st.state.Keys
    ensures !saved.Stored? ==> IsDefaultState(st.state)
  {
    var sources := new Prim[0];
    var queries := new Prim[0];
    var items := new Prim[0];
    var expanded := new Prim[0];
    var initial := DefaultState(sources, queries, items, expanded);
    st := new Store(initial, saved);
    LoadedKeys(initial.Keys, saved, st.state.Keys);
  }

  // ---------------------------------------------------------------------
  // The element
  // ---------------------------------------------------------------------

  /** DemoInspectorElement: the store and highlighter it creates, the
      `modes` attribute it reads, and _lastEdsScan. */
  class Inspector {
    const store: Store
    const highlighter: HighlighterObject.Highlighter
    /** getAttribute('modes'): None when the element has no such attribute. */
    const modes: Option<string>
    var lastEdsScan: Option<ScanResult>

    /** The constructor: a store over a copy of DEFAULT_STATE (with what
        the page saved earlier merged in), a highlighter over the page,
        and no scan yet. */
    constructor (modesAttr: Option<string>, saved: Storage, d: HighlighterObject.Document)
      requires Highlight.Fits(d.host, d.Now()) && d.attached == {}
      ensures modes == modesAttr && lastEdsScan == None
      ensures fresh(store) && store.Valid() && store.listeners == [] && store.written == None && store.deliveries == []
      ensures fresh(highlighter) && highlighter.doc == d && highlighter.Valid() && !highlighter.destroyed
      ensures highlighter.edsSaved == map[] && highlighter.meshSaved == map[]
      ensures saved.Stored? ==> DefaultKeys <= store.state.Keys
      ensures !saved.Stored? ==> IsDefaultState(store.state)
    {
      var st := NewDefaultStore(saved);
      store := st;
      highlighter := new HighlighterObject.Highlighter(d);
      modes := modesAttr;
      lastEdsScan := None;
    }

    /** `this.store.setState({ [key]: next })` with `next` a new array. */
    method Commit(key: string, next: seq<Prim>)
      requires store.Valid() && HasList(store.state, key)
      modifies store
      ensures store.Valid() && store.listeners == old(store.listeners)
      ensures HasList(store.state, key)
      ensures store.state == old(store.state)[key := store.state[key]]
      ensures fresh(store.state[key].a) && store.state[key].a[..] == next
      ensures store.written == Some(EncodeObj(store.state))
      ensures store.deliveries == old(store.deliveries) + Round(store.listeners, store.written.value)
    {
      var arr := new Prim[|next|](i requires 0 <= i < |next| => next[i]);
      assert arr[..] == next;
      assert old(store.state)[key] != List(arr);
      store.SetState(map[key := List(arr)]);
    }

    /** The toggle the three handlers share: a copy of the array at `key`,
        the first occurrence of `x` spliced out or `x` pushed, written back. */
    method ToggleEntry(key: string, x: Prim)
      requires store.Valid() && HasList(store.state, key)
      modifies store
      ensures store.Valid() && store.listeners == old(store.listeners)
      ensures HasList(store.state, key)
      ensures store.state == old(store.state)[key := store.state[key]]
      ensures fresh(store.state[key].a)
      ensures store.state[key].a[..] == Toggle(old(store.state[key].a[..]), x)
      ensures store.written == Some(EncodeObj(store.state))
      ensures store.deliveries == old(store.deliveries) + Round(store.listeners, store.written.value)
    {
      ghost var before := store.state[key].a[..];
      var state := store.GetState();
      assert Encode(state[key]) == Encode(store.state[key]) by {
        assert EncodeObj(state)[key] == EncodeObj(store.state)[key];
      }
      var active := state[key].a[..];
      assert active == before;
      var idx := IndexOf(active, x);
      var next := if idx >= 0 then active[..idx] + active[idx + 1..] else active + [x];
      assert next == Toggle(before, x);
      Commit(key, next);
    }

    /** _handleSourceToggle(sourceId), without the re-application of the
        mesh highlights that follows it. */
    method HandleSourceToggle(sourceId: string)
      requires store.Valid() && HasList(store.state, ActiveSourcesKey)
      modifies store
      ensures store.Valid() && store.listeners == old(store.listeners)
      ensures HasList(store.state, ActiveSourcesKey)
      ensures store.state == old(store.state)[ActiveSourcesKey := store.state[ActiveSourcesKey]]
      ensures store.state[ActiveSourcesKey].a[..] == Toggle(old(store.state[ActiveSourcesKey].a[..]), Str(sourceId))
      ensures store.written == Some(EncodeObj(store.state))
      ensures store.deliveries == old(store.deliveries) + Round(store.listeners, store.written.value)
    {
      ToggleEntry(ActiveSourcesKey, Str(sourceId));
    }

    /** _handleExpandToggle(nodeId) */
    method HandleExpandToggle(nodeId: string)
      requires store.Valid() && HasList(store.state, ExpandedNodesKey)
      modifies store
      ensures store.Valid() && store.listeners == old(store.listeners)
      ensures HasList(store.state, ExpandedNodesKey)
      ensures store.state == old(store.state)[ExpandedNodesKey := store.state[ExpandedNodesKey]]
      ensures store.state[ExpandedNodesKey].a[..] == Toggle(old(store.state[ExpandedNodesKey].a[..]), Str(nodeId))
      ensures store.written == Some(EncodeObj(store.state))
      ensures store.deliveries == old(store.deliveries) + Round(store.listeners, store.written.value)
    {
      ToggleEntry(ExpandedNodesKey, Str(nodeId));
    }

    /** _handleTreeItemToggle(itemId, itemName): the label's measured size
        and the viewport stand for the label text and the window. */
    method HandleTreeItemToggle(itemId: string, measuredW: real, measuredH: real, v: Highlight.Viewport)
      requires store.Valid() && HasList(store.state, ActiveItemsKey)
      requires highlighter.Valid() && !highlighter.destroyed
      requires ScanWithin(lastEdsScan, |highlighter.doc.host.nodes|)
      modifies store, highlighter, highlighter.doc
      ensures store.Valid() && store.listeners == old(store.listeners)
      ensures HasList(store.state, ActiveItemsKey)
      ensures store.state == old(store.state)[ActiveItemsKey := store.state[ActiveItemsKey]]
      ensures store.state[ActiveItemsKey].a[..] == Toggle(old(store.state[ActiveItemsKey].a[..]), Str(itemId))
      ensures store.written == Some(EncodeObj(store.state))
      ensures store.deliveries == old(store.deliveries) + Round(store.listeners, store.written.value)
      ensures highlighter.Valid() && !highlighter.destroyed
      ensures highlighter.Now() == TreeItemEffect(highlighter.doc.host, old(highlighter.Now()), itemId,
                                                  Str(itemId) in old(store.state[ActiveItemsKey].a[..]),
                                                  lastEdsScan, measuredW, measuredH, v)
    {
      var state := store.GetState();
      assert EncodeObj(state)[ActiveItemsKey] == EncodeObj(store.state)[ActiveItemsKey];
      var active := state[ActiveItemsKey].a[..];
      ghost var s0 := store.state;
      assert active == s0[ActiveItemsKey].a[..];
      var idx := IndexOf(active, Str(itemId));
      var next;
      if idx >= 0 {
        next := active[..idx] + active[idx + 1..];
        highlighter.ClearEdsHighlight(itemId);
      } else {
        next := active + [Str(itemId)];
        HighlightScanned(itemId, measuredW, measuredH, v);
      }
      assert next == Toggle(active, Str(itemId));
      assert store.state == s0 && store.Valid();
      Commit(ActiveItemsKey, next);
    }

    /** The branch of _handleTreeItemToggle for an inactive item: look the
        id up in the last scan and highlight the element found. */
    method HighlightScanned(itemId: string, measuredW: real, measuredH: real, v: Highlight.Viewport)
      requires highlighter.Valid() && !highlighter.destroyed
      requires ScanWithin(lastEdsScan, |highlighter.doc.host.nodes|)
      modifies highlighter, highlighter.doc
      ensures highlighter.Valid() && !highlighter.destroyed
      ensures highlighter.Now() == TreeItemEffect(highlighter.doc.host, old(highlighter.Now()), itemId, false,
                                                  lastEdsScan, measuredW, measuredH, v)
    {
      var scan := lastEdsScan;
      if scan.Some? {
        var el := FindElementById(itemId, scan.value.blocks);
        ScannedElementWithin(scan, itemId, |highlighter.doc.host.nodes|);
        if el.Some? {
          var kind := if StartsWith(itemId, "block") then BlockKind else SlotKind;
          highlighter.HighlightEdsItem(el.value, itemId, kind, measuredW, measuredH, v);
        }
      }
    }

    /** _enforceAvailableMode() */
    method EnforceAvailableMode()
      requires store.Valid()
      modifies store
      ensures store.Valid() && store.listeners == old(store.listeners)
      ensures store.state == Enforced(old(store.state), GetAvailableModes(modes))
      ensures var available := GetAvailableModes(modes);
        if !ModeAvailable(old(store.state), available) && Changes(old(store.state), ModePatch(available)) then
          && store.written == Some(EncodeObj(store.state))
          && store.deliveries == old(store.deliveries) + Round(store.listeners, store.written.value)
        else
          store.written == old(store.written) && store.deliveries == old(store.deliveries)
    {
      var available := GetAvailableModes(modes);
      var state := store.GetState();
      assert ModeAvailable(state, available) == ModeAvailable(store.state, available) by {
        if ActiveModeKey in store.state && store.state[ActiveModeKey].List? {
          assert state[ActiveModeKey].List?;
        }
      }
      if !ModeAvailable(state, available) {
        ghost var before := store.state;
        store.SetState(ModePatch(available));
        if !Changes(before, ModePatch(available)) {
          assert before + ModePatch(available) == before;
        }
      }
    }

    /** _scanEdsDom(state): scanEds over the document body, or the empty
        result when it throws (`fault`). */
    method ScanEdsDom(fault: bool) returns (r: ScanResult)
      requires WellFormed(highlighter.doc.host)
      ensures fault ==> r.blocks == [] && r.standaloneSlots == [] && r.counts == Counts(0, 0)
      ensures !fault ==> r == ScanEdsSpec(highlighter.doc.host, highlighter.doc.host.body, ShowEmptySlots(store.state))
    {
      if fault {
        return EmptyScan;
      }
      var h := highlighter.doc.host;
      r := ScanEds(h, h.body, ShowEmptySlots(store.state));
    }

    /** The scan step of render(): the result becomes _lastEdsScan. */
    method RefreshScan(fault: bool)
      requires WellFormed(highlighter.doc.host)
      modifies this
      ensures lastEdsScan.Some?
      ensures fault ==> lastEdsScan == Some(EmptyScan)
      ensures !fault ==> lastEdsScan == Some(ScanEdsSpec(highlighter.doc.host, highlighter.doc.host.body, ShowEmptySlots(store.state)))
    {
      var scan := ScanEdsDom(fault);
      lastEdsScan := Some(scan);
    }
  }
}
