/** The overlay's settings store: one state object updated by shallow
    merge, with change detection, persistence and subscriber
    notification.  Storage is an abstract slot: what the store last
    wrote, and what the page had saved before the store was created. */
module State {
  import opened Common

  /** A JavaScript primitive, compared by value. */
  datatype Prim = Str(s: string) | Num(n: int) | Bool(b: bool) | Null

  /** A state value: a primitive, or an array of primitives, which `===`
      compares by reference. */
  datatype Value = Scalar(p: Prim) | List(a: array<Prim>)

  /** A plain object: property name to value. */
  type Obj = map<string, Value>

  /** The JSON text of a value: an array is written out by contents. */
  datatype Json = JScalar(p: Prim) | JList(items: seq<Prim>)

  type Saved = map<string, Json>

  /** What localStorage.getItem(key) holds when the store is created:
      nothing, text JSON.parse rejects, or a saved object. */
  datatype Storage = Missing | Corrupt | Stored(saved: Saved)

  /** An identity for a subscribed listener function. */
  type Listener = nat

  /** One call listener(snapshot) made by setState, with the contents of
      the snapshot it received. */
  datatype Delivery = Delivery(listener: Listener, snapshot: Saved)

  function Arrays(o: Obj): set<array<Prim>>
  {
    set k | k in o && o[k].List? :: o[k].a
  }

  function Encode(v: Value): Json
    reads if v.List? then {v.a} else {}
  {
    match v
    case Scalar(p) => JScalar(p)
    case List(a) => JList(a[..])
  }

  /** JSON.stringify of an object, up to the text encoding. */
  function EncodeObj(o: Obj): (r: Saved)
    reads Arrays(o)
    ensures r.Keys == o.Keys
  {
    map k | k in o :: Encode(o[k])
  }

  /** Two objects with the same keys, scalars and array contents. */
  predicate SameContent(a: Obj, b: Obj)
    reads Arrays(a), Arrays(b)
  {
    a.Keys == b.Keys && EncodeObj(a) == EncodeObj(b)
  }

  /** Some key of `partial` holds a value that is not `===` to the
      state's value, or is missing from the state. */
  predicate Changes(state: Obj, partial: Obj)
  {
    exists k :: k in partial && (k !in state || state[k] != partial[k])
  }

  /** Exactly the updates that change something alter the merged object:
      `{ ...state, ...partial }` equals `state` iff no key changes. */
  lemma MergeChangesIff(state: Obj, partial: Obj)
    ensures !Changes(state, partial) <==> state + partial == state
  {
    if !Changes(state, partial) {
      assert forall k :: k in partial ==> k in state && state[k] == partial[k];
      assert (state + partial).Keys == state.Keys;
    } else {
      var k :| k in partial && (k !in state || state[k] != partial[k]);
      assert k in state + partial && (state + partial)[k] == partial[k];
    }
  }

  /** The merged object: keys of `partial` take its values, every other
      key keeps the state's. */
  lemma MergeOverrides(state: Obj, partial: Obj)
    ensures (state + partial).Keys == state.Keys + partial.Keys
    ensures forall k :: k in partial ==> (state + partial)[k] == partial[k]
    ensures forall k :: k in state && k !in partial ==> (state + partial)[k] == state[k]
  {
  }

  /** One round of notifications: every listener of `ls`, in order,
      called with a copy holding `content`. */
  function Round(ls: seq<Listener>, content: Saved): (r: seq<Delivery>)
    ensures |r| == |ls|
  {
    if ls == [] then [] else Round(ls[..|ls| - 1], content) + [Delivery(ls[|ls| - 1], content)]
  }

  /** The number of calls made to listener `l`. */
  function CallsTo(ds: seq<Delivery>, l: Listener): (r: nat)
    ensures r <= |ds|
  {
    if ds == [] then 0 else CallsTo(ds[..|ds| - 1], l) + (if ds[|ds| - 1].listener == l then 1 else 0)
  }

  /** One round of notifications over a set of listeners reaches every
      listener in the set exactly once and no other. */
  lemma {:induction false} NotifiedOnce(ls: seq<Listener>, content: Saved, l: Listener)
    requires NoDuplicates(ls)
    ensures CallsTo(Round(ls, content), l) == if l in ls then 1 else 0
    decreases |ls|
  {
    if ls != [] {
      var n := |ls| - 1;
      NotifiedOnce(ls[..n], content, l);
      assert ls == ls[..n] + [ls[n]];
      if ls[n] == l {
        assert l !in ls[..n];
      }
    }
  }

  /** The calls made before a round are not changed by it. */
  lemma {:induction false} CallsToAppend(a: seq<Delivery>, b: seq<Delivery>, l: Listener)
    ensures CallsTo(a + b, l) == CallsTo(a, l) + CallsTo(b, l)
    decreases |b|
  {
    if b == [] {
      assert a + b == a;
    } else {
      var n := |b| - 1;
      assert (a + b)[..|a + b| - 1] == a + b[..n];
      CallsToAppend(a, b[..n], l);
    }
  }

  /** `[...value]` for a top-level array, the value itself otherwise. */
  method CopyValue(v: Value) returns (c: Value)
    ensures Encode(c) == Encode(v)
    ensures v.Scalar? ==> c == v
    ensures v.List? ==> c.List? && fresh(c.a)
  {
    match v
    case Scalar(_) =>
      c := v;
    case List(a) =>
      var copy := new Prim[a.Length](i reads a => if 0 <= i < a.Length then a[i] else Null);
      assert copy[..] == a[..];
      c := List(copy);
  }

  /** shallowCopy(obj): the same keys and contents, with every top-level
      array copied so that the caller cannot reach the original. */
  method ShallowCopy(obj: Obj) returns (copy: Obj)
    ensures SameContent(copy, obj)
    ensures forall k :: k in obj && obj[k].Scalar? ==> copy[k] == obj[k]
    ensures forall k :: k in obj && obj[k].List? ==> copy[k].List? && fresh(copy[k].a)
  {
    copy := map[];
    var rest := obj.Keys;
    while rest != {}
      invariant rest <= obj.Keys && copy.Keys == obj.Keys - rest
      invariant forall k :: k in copy ==> Encode(copy[k]) == Encode(obj[k])
      invariant forall k :: k in copy && obj[k].Scalar? ==> copy[k] == obj[k]
      invariant forall k :: k in copy && obj[k].List? ==> copy[k].List? && fresh(copy[k].a)
      decreases rest
    {
      var key :| key in rest;
      var c := CopyValue(obj[key]);
      copy := copy[key := c];
      rest := rest - {key};
    }
    assert EncodeObj(copy) == EncodeObj(obj);
  }

  /** JSON.parse of one saved value: arrays come back as new arrays. */
  method Revive(j: Json) returns (v: Value)
    ensures Encode(v) == j
    ensures v.List? ==> fresh(v.a)
  {
    match j
    case JScalar(p) =>
      v := Scalar(p);
    case JList(items) =>
      var arr := new Prim[|items|](i => if 0 <= i < |items| then items[i] else Null);
      assert arr[..] == items;
      v := List(arr);
  }

  /** loadState(defaults, key): `{ ...defaults, ...JSON.parse(raw) }`
      when something is saved, `{ ...defaults }` when nothing is or the
      text does not parse. */
  method LoadState(defaults: Obj, stored: Storage) returns (s: Obj)
    ensures !stored.Stored? ==> s == defaults
    ensures stored.Stored? ==>
      && s.Keys == defaults.Keys + stored.saved.Keys
      && (forall k :: k in stored.saved ==> Encode(s[k]) == stored.saved[k])
      && (forall k :: k in stored.saved && s[k].List? ==> fresh(s[k].a))
      && (forall k :: k in defaults && k !in stored.saved ==> s[k] == defaults[k])
  {
    s := defaults;
    if stored.Stored? {
      var saved := stored.saved;
      var rest := saved.Keys;
      while rest != {}
        invariant rest <= saved.Keys
        invariant s.Keys == defaults.Keys + (saved.Keys - rest)
        invariant forall k :: k in saved && k !in rest ==> Encode(s[k]) == saved[k]
        invariant forall k :: k in saved && k !in rest && s[k].List? ==> fresh(s[k].a)
        invariant forall k :: k in defaults && k !in saved.Keys - rest ==> s[k] == defaults[k]
        decreases rest
      {
        var key :| key in rest;
        var v := Revive(saved[key]);
        s := s[key := v];
        rest := rest - {key};
      }
    }
  }

  /** createStore(initialState, storageKey) */
  class Store {
    /** The current state object. */
    var state: Obj
    /** The subscribed listeners, in subscription order (a Set). */
    var listeners: seq<Listener>
    /** The JSON the store last wrote under its key, if any. */
    var written: Option<Saved>
    /** Every listener call made so far, oldest first. */
    var deliveries: seq<Delivery>

    predicate Valid()
      reads this
    {
      NoDuplicates(listeners)
    }

    constructor (initialState: Obj, stored: Storage)
      ensures Valid()
      ensures listeners == [] && written == None && deliveries == []
      ensures !stored.Stored? ==> state == initialState
      ensures stored.Stored? ==>
        && state.Keys == initialState.Keys + stored.saved.Keys
        && (forall k :: k in stored.saved ==> Encode(state[k]) == stored.saved[k])
        && (forall k :: k in initialState && k !in stored.saved ==> state[k] == initialState[k])
    {
      var s := LoadState(initialState, stored);
      state := s;
      listeners := [];
      written := None;
      deliveries := [];
    }

    /** hasChanged(partial) */
    method HasChanged(partial: Obj) returns (r: bool)
      ensures r <==> Changes(state, partial)
    {
      var rest := partial.Keys;
      while rest != {}
        invariant rest <= partial.Keys
        invariant forall k :: k in partial && k !in rest ==> k in state && state[k] == partial[k]
        decreases rest
      {
        var key :| key in rest;
        if key !in state || state[key] != partial[key] {
          return true;
        }
        rest := rest - {key};
      }
      return false;
    }

    /** getState(): a copy of the state, safe for the caller to mutate. */
    method GetState() returns (r: Obj)
      ensures SameContent(r, state)
      ensures forall k :: k in state && state[k].Scalar? ==> r[k] == state[k]
      ensures forall k :: k in state && state[k].List? ==> r[k].List? && fresh(r[k].a)
    {
      r := ShallowCopy(state);
    }

    /** persist() */
    method Persist()
      modifies this
      ensures written == Some(EncodeObj(state))
      ensures state == old(state) && listeners == old(listeners) && deliveries == old(deliveries)
    {
      var json := EncodeObj(state);
      written := Some(json);
      assert json == EncodeObj(state);
    }

    /** setState(partial): nothing happens unless some key changes; then
        the state is merged, written out, and every listener receives its
        own copy of the new state. */
    method SetState(partial: Obj)
      requires Valid()
      modifies this
      ensures Valid() && listeners == old(listeners)
      ensures !Changes(old(state), partial) ==>
        state == old(state) && written == old(written) && deliveries == old(deliveries)
      ensures Changes(old(state), partial) ==>
        && state == old(state) + partial
        && written == Some(EncodeObj(state))
        && deliveries == old(deliveries) + Round(listeners, written.value)
    {
      if |partial| == 0 {
        return;
      }
      var changed := HasChanged(partial);
      if !changed {
        return;
      }
      state := state + partial;
      Persist();
      NotifyAll();
    }

    /** The loop of setState that calls every listener with getState(). */
    method NotifyAll()
      requires written == Some(EncodeObj(state))
      modifies this
      ensures state == old(state) && listeners == old(listeners) && written == old(written)
      ensures written == Some(EncodeObj(state))
      ensures deliveries == old(deliveries) + Round(listeners, written.value)
    {
      var k := 0;
      while k < |listeners|
        invariant 0 <= k <= |listeners|
        invariant state == old(state) && listeners == old(listeners) && written == old(written)
        invariant written == Some(EncodeObj(state))
        invariant deliveries == old(deliveries) + Round(listeners[..k], written.value)
      {
        NotifyOne(listeners[k]);
        assert listeners[..k + 1][..k] == listeners[..k];
        k := k + 1;
      }
      assert listeners[..k] == listeners;
    }

    /** listener(getState()) */
    method NotifyOne(listener: Listener)
      requires written == Some(EncodeObj(state))
      modifies this
      ensures state == old(state) && listeners == old(listeners) && written == old(written)
      ensures written == Some(EncodeObj(state))
      ensures deliveries == old(deliveries) + [Delivery(listener, written.value)]
    {
      var snapshot := GetState();
      var copied := EncodeObj(snapshot);
      assert copied == written.value;
      deliveries := deliveries + [Delivery(listener, copied)];
      assert written.value == EncodeObj(state);
    }

    /** subscribe(listener): adding a listener already in the set changes
        nothing. */
    method Subscribe(listener: Listener)
      requires Valid()
      modifies this
      ensures Valid()
      ensures listeners == if listener in old(listeners) then old(listeners) else old(listeners) + [listener]
      ensures state == old(state) && written == old(written) && deliveries == old(deliveries)
    {
      if listener !in listeners {
        listeners := listeners + [listener];
      }
    }

    /** The function subscribe returns: listeners.delete(listener). */
    method Unsubscribe(listener: Listener)
      requires Valid()
      modifies this
      ensures Valid()
      ensures listener !in listeners
      ensures listeners == Filter(old(listeners), (l: Listener) => l != listener)
      ensures state == old(state) && written == old(written) && deliveries == old(deliveries)
    {
      FilterMembers(listeners, (l: Listener) => l != listener);
      FilterKeepsDistinct(listeners, (l: Listener) => l != listener);
      listeners := Filter(listeners, (l: Listener) => l != listener);
    }

    /** destroy(): listeners.clear(). */
    method Destroy()
      modifies this
      ensures Valid() && listeners == []
      ensures state == old(state) && written == old(written) && deliveries == old(deliveries)
    {
      listeners := [];
    }
  }
}
