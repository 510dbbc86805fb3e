/** A read-only snapshot of the host document.  Elements are numbered in
    document order (depth-first pre-order), so an element's parent always
    has a smaller number than the element.  Everything the overlay reads
    from the live page (attributes, class list, computed style, bounding
    rectangle, text content) is recorded per element. */
module Dom {
  import opened Common

  datatype Rect = Rect(top: real, left: real, right: real, bottom: real, width: real, height: real)

  /** The computed-style properties the overlay reads. */
  datatype ComputedStyle = ComputedStyle(
    display: string, visibility: string, opacity: string,
    backgroundImage: string, borderRadius: string)

  datatype Element = Element(
    parent: Option<nat>,          // parentElement
    tag: string,                  // lower-case local name
    attrs: map<string, string>,   // attribute name to value
    classes: set<string>,         // classList
    typeProp: string,             // the `type` property of form controls
    textContent: string,
    computed: ComputedStyle,
    rect: Rect)                   // getBoundingClientRect()

  datatype Host = Host(nodes: seq<Element>, body: nat)

  /** Parents precede their children in document order. */
  predicate WellFormed(h: Host)
  {
    && h.body < |h.nodes|
    && forall i :: 0 <= i < |h.nodes| ==> h.nodes[i].parent.None? || h.nodes[i].parent.value < i
  }

  predicate HasAttr(h: Host, i: nat, name: string)
  {
    i < |h.nodes| && name in h.nodes[i].attrs
  }

  function GetAttr(h: Host, i: nat, name: string): Option<string>
  {
    if HasAttr(h, i, name) then Some(h.nodes[i].attrs[name]) else None
  }

  /** Node.contains: `a` is `x` or one of its ancestors. */
  function Contains(h: Host, a: nat, x: nat): bool
    requires WellFormed(h) && x < |h.nodes|
    decreases x
  {
    a == x || (h.nodes[x].parent.Some? && Contains(h, a, h.nodes[x].parent.value))
  }

  /** `a` is a strict ancestor of `x`. */
  predicate ProperAncestor(h: Host, a: nat, x: nat)
    requires WellFormed(h) && x < |h.nodes|
  {
    h.nodes[x].parent.Some? && Contains(h, a, h.nodes[x].parent.value)
  }

  lemma {:induction false} ContainsOrdered(h: Host, a: nat, x: nat)
    requires WellFormed(h) && x < |h.nodes| && Contains(h, a, x)
    ensures a <= x
    decreases x
  {
    if a != x {
      ContainsOrdered(h, a, h.nodes[x].parent.value);
    }
  }

  lemma ProperAncestorOrdered(h: Host, a: nat, x: nat)
    requires WellFormed(h) && x < |h.nodes| && ProperAncestor(h, a, x)
    ensures a < x
  {
    ContainsOrdered(h, a, h.nodes[x].parent.value);
  }

  lemma {:induction false} ContainsTransitive(h: Host, a: nat, b: nat, x: nat)
    requires WellFormed(h) && b < |h.nodes| && x < |h.nodes|
    requires Contains(h, a, b) && Contains(h, b, x)
    ensures Contains(h, a, x)
    decreases x
  {
    if b != x {
      ContainsTransitive(h, a, b, h.nodes[x].parent.value);
    }
  }

  lemma ProperAncestorThenContains(h: Host, a: nat, b: nat, x: nat)
    requires WellFormed(h) && b < |h.nodes| && x < |h.nodes|
    requires ProperAncestor(h, a, b) && Contains(h, b, x)
    ensures ProperAncestor(h, a, x)
  {
    if b != x {
      ContainsTransitive(h, a, b, h.nodes[x].parent.value);
    }
  }

  lemma ContainsThenProperAncestor(h: Host, a: nat, b: nat, x: nat)
    requires WellFormed(h) && b < |h.nodes| && x < |h.nodes|
    requires Contains(h, a, b) && ProperAncestor(h, b, x)
    ensures ProperAncestor(h, a, x)
  {
    ContainsTransitive(h, a, b, h.nodes[x].parent.value);
  }

  /** The ancestors of an element form a chain: two of them are always
      related by containment. */
  lemma {:induction false} AncestorChain(h: Host, a: nat, b: nat, x: nat)
    requires WellFormed(h) && a < |h.nodes| && b < |h.nodes| && x < |h.nodes|
    requires Contains(h, a, x) && Contains(h, b, x)
    ensures Contains(h, a, b) || Contains(h, b, a)
    decreases x
  {
    if a != x && b != x {
      AncestorChain(h, a, b, h.nodes[x].parent.value);
    }
  }

  /** The selectors the overlay passes to querySelector/querySelectorAll. */
  datatype Selector =
    | AnyAttr(names: set<string>)            // [a], [b]
    | AttrIs(name: string, value: string)    // [a="v"]
    | TagIn(tags: set<string>)               // img, svg, ...
    | TextInput                              // input[type="text"], input[type="search"], input:not([type])

  predicate Matches(h: Host, i: nat, sel: Selector)
  {
    i < |h.nodes| &&
    match sel
    case AnyAttr(names) => exists n :: n in names && n in h.nodes[i].attrs
    case AttrIs(name, value) => name in h.nodes[i].attrs && h.nodes[i].attrs[name] == value
    case TagIn(tags) => h.nodes[i].tag in tags
    case TextInput =>
      h.nodes[i].tag == "input" &&
      ("type" !in h.nodes[i].attrs || h.nodes[i].attrs["type"] in {"text", "search"})
  }

  /** The matching strict descendants of `root` numbered `from` or later,
      in document order. */
  function SelectFrom(h: Host, root: nat, sel: Selector, from: nat): (r: seq<nat>)
    requires WellFormed(h)
    ensures forall k :: 0 <= k < |r| ==> from <= r[k] < |h.nodes|
    decreases |h.nodes| - from
  {
    if from >= |h.nodes| then []
    else (if ProperAncestor(h, root, from) && Matches(h, from, sel) then [from] else [])
         + SelectFrom(h, root, sel, from + 1)
  }

  /** Element.querySelectorAll: matching strict descendants in document order. */
  function QuerySelectorAll(h: Host, root: nat, sel: Selector): seq<nat>
    requires WellFormed(h)
  {
    SelectFrom(h, root, sel, 0)
  }

  /** Element.querySelector: the first match in document order. */
  function QuerySelector(h: Host, root: nat, sel: Selector): (r: Option<nat>)
    requires WellFormed(h)
    ensures r.Some? ==> r.value < |h.nodes|
  {
    var all := QuerySelectorAll(h, root, sel);
    if all == [] then None else Some(all[0])
  }

  predicate StrictlyIncreasing(s: seq<nat>)
  {
    forall i, j :: 0 <= i < j < |s| ==> s[i] < s[j]
  }

  lemma {:induction false} SelectFromSpec(h: Host, root: nat, sel: Selector, from: nat)
    requires WellFormed(h)
    ensures StrictlyIncreasing(SelectFrom(h, root, sel, from))
    ensures forall x: nat :: x in SelectFrom(h, root, sel, from) <==>
      from <= x < |h.nodes| && ProperAncestor(h, root, x) && Matches(h, x, sel)
    decreases |h.nodes| - from
  {
    if from < |h.nodes| {
      SelectFromSpec(h, root, sel, from + 1);
    }
  }

  /** What querySelectorAll returns: exactly the matching strict
      descendants, each once, in document order. */
  lemma QuerySelectorAllSpec(h: Host, root: nat, sel: Selector)
    requires WellFormed(h)
    ensures StrictlyIncreasing(QuerySelectorAll(h, root, sel))
    ensures forall x: nat :: x in QuerySelectorAll(h, root, sel) <==>
      x < |h.nodes| && ProperAncestor(h, root, x) && Matches(h, x, sel)
  {
    SelectFromSpec(h, root, sel, 0);
  }

  /** querySelector finds something exactly when some strict descendant
      matches. */
  lemma QuerySelectorSpec(h: Host, root: nat, sel: Selector)
    requires WellFormed(h)
    ensures QuerySelector(h, root, sel).Some? <==>
      exists x: nat :: x < |h.nodes| && ProperAncestor(h, root, x) && Matches(h, x, sel)
  {
    var all := QuerySelectorAll(h, root, sel);
    QuerySelectorAllSpec(h, root, sel);
    if all != [] {
      assert all[0] in all;
      var f := all[0];
      assert f < |h.nodes| && ProperAncestor(h, root, f) && Matches(h, f, sel);
    }
    if exists x: nat :: x < |h.nodes| && ProperAncestor(h, root, x) && Matches(h, x, sel) {
      var x: nat :| x < |h.nodes| && ProperAncestor(h, root, x) && Matches(h, x, sel);
      assert x in all;
    }
  }

  /** What querySelector finds is a matching strict descendant, and no
      earlier element in document order matches. */
  lemma QuerySelectorFirst(h: Host, root: nat, sel: Selector)
    requires WellFormed(h) && QuerySelector(h, root, sel).Some?
    ensures var f := QuerySelector(h, root, sel).value;
      && f < |h.nodes| && ProperAncestor(h, root, f) && Matches(h, f, sel)
      && forall x: nat :: x < f && ProperAncestor(h, root, x) ==> !Matches(h, x, sel)
  {
    var all := QuerySelectorAll(h, root, sel);
    QuerySelectorAllSpec(h, root, sel);
    assert all[0] in all;
    IncreasingHeadIsLeast(all);
  }

  lemma IncreasingHeadIsLeast(s: seq<nat>)
    requires StrictlyIncreasing(s) && s != []
    ensures forall y :: y in s ==> s[0] <= y
  {
    forall y | y in s
      ensures s[0] <= y
    {
      var k :| 0 <= k < |s| && s[k] == y;
    }
  }

  /** Element.children: the elements whose parent is `x`, in document order. */
  function ChildrenFrom(h: Host, x: nat, from: nat): (r: seq<nat>)
    requires WellFormed(h)
    ensures forall k :: 0 <= k < |r| ==> from <= r[k] < |h.nodes| && h.nodes[r[k]].parent == Some(x)
    decreases |h.nodes| - from
  {
    if from >= |h.nodes| then []
    else (if h.nodes[from].parent == Some(x) then [from] else []) + ChildrenFrom(h, x, from + 1)
  }

  function Children(h: Host, x: nat): seq<nat>
    requires WellFormed(h)
  {
    ChildrenFrom(h, x, 0)
  }

  lemma {:induction false} ChildrenFromComplete(h: Host, x: nat, from: nat, c: nat)
    requires WellFormed(h) && from <= c < |h.nodes| && h.nodes[c].parent == Some(x)
    ensures c in ChildrenFrom(h, x, from)
    decreases |h.nodes| - from
  {
    if from < c {
      ChildrenFromComplete(h, x, from + 1, c);
    }
  }

  lemma {:induction false} FilterIncreasing(s: seq<nat>, p: nat -> bool)
    requires StrictlyIncreasing(s)
    ensures StrictlyIncreasing(Filter(s, p))
    decreases |s|
  {
    if s != [] {
      var init, x := s[..|s| - 1], s[|s| - 1];
      FilterIncreasing(init, p);
      FilterMembers(init, p);
      var f := Filter(init, p);
      forall y | y in f
        ensures y < x
      {
        var i :| 0 <= i < |init| && init[i] == y;
        assert s[i] == y;
      }
      if p(x) {
        forall i, j | 0 <= i < j < |f| + 1
          ensures (f + [x])[i] < (f + [x])[j]
        {
          if j == |f| {
            assert (f + [x])[i] == f[i] && f[i] in f;
          }
        }
      }
    }
  }
}
