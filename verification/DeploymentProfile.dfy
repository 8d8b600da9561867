/** The one-pass checks of a deployment inspection (`tools/deployment/deployment_profile.py`) and the pairwise facts
    they establish. */
module DeploymentProfile {
  import opened Wrappers

  // ----- Unique identities -----

  datatype Id = Id(name: string)

  /** One declared element; `valid` is the outcome of the check of its fields and its identifier. */
  datatype Declaration = Declaration(id: Id, valid: bool, fields: nat)

  ghost predicate DistinctIds(items: seq<Declaration>) {
    forall i, j | 0 <= i < j < |items| :: items[i].id != items[j].id
  }

  /** The map holds exactly the elements, each under its identity. */
  ghost predicate Indexes(result: map<Id, Declaration>, items: seq<Declaration>) {
    && (forall i | 0 <= i < |items| :: items[i].id in result && result[items[i].id] == items[i])
    && (forall k | k in result :: exists i :: 0 <= i < |items| && items[i].id == k)
    && |result| == |items|
  }

  /** A declared collection indexed by identity: it is accepted exactly when its size is in bounds, every element is
      valid and no identity occurs twice, and then nothing was overwritten. */
  method Keyed(items: seq<Declaration>, maximum: nat) returns (r: Option<map<Id, Declaration>>)
    ensures r.Some? <==>
      1 <= |items| <= maximum && (forall i | 0 <= i < |items| :: items[i].valid) && DistinctIds(items)
    ensures r.Some? ==> Indexes(r.value, items)
  {
    hide Positions, DistinctIds, Indexes;
    if !(1 <= |items| <= maximum) {
      return None;
    }
    var result: map<Id, Declaration> := map[];
    ghost var at: map<Id, nat> := map[];
    assert Positions(result, at, items, 0) by { NoPositions(items); }
    for n := 0 to |items|
      invariant Positions(result, at, items, n)
      invariant forall i | 0 <= i < n :: items[i].valid
    {
      var item := items[n];
      if !item.valid {
        return None;
      }
      if item.id in result {
        RepeatedId(result, at, items, n);
        return None;
      }
      NextPosition(result, at, items, n);
      result, at := result[item.id := item], at[item.id := n];
    }
    PositionsIndex(result, at, items);
    r := Some(result);
  }

  /** `at` tells where each of the first `n` elements is. */
  ghost predicate Positions(result: map<Id, Declaration>, at: map<Id, nat>, items: seq<Declaration>, n: nat)
    requires n <= |items|
  {
    && at.Keys == result.Keys && |result| == n
    && (forall k | k in at :: at[k] < n && items[at[k]].id == k)
    && (forall i | 0 <= i < n :: items[i].id in at && at[items[i].id] == i && result[items[i].id] == items[i])
  }

  lemma NoPositions(items: seq<Declaration>)
    ensures Positions(map[], map[], items, 0)
  {
  }

  lemma NextPosition(result: map<Id, Declaration>, at: map<Id, nat>, items: seq<Declaration>, n: nat)
    requires n < |items| && Positions(result, at, items, n) && items[n].id !in result
    ensures Positions(result[items[n].id := items[n]], at[items[n].id := n], items, n + 1)
  {
  }

  lemma RepeatedId(result: map<Id, Declaration>, at: map<Id, nat>, items: seq<Declaration>, n: nat)
    requires n < |items| && Positions(result, at, items, n) && items[n].id in result
    ensures !DistinctIds(items)
  {
    assert items[at[items[n].id]].id == items[n].id;
  }

  lemma PositionsIndex(result: map<Id, Declaration>, at: map<Id, nat>, items: seq<Declaration>)
    requires Positions(result, at, items, |items|)
    ensures DistinctIds(items) && Indexes(result, items)
  {
    forall k | k in result ensures exists i :: 0 <= i < |items| && items[i].id == k {
      assert items[at[k]].id == k;
    }
  }

  // ----- Components that share a process -----

  datatype Signature = Signature(host: string, domain: string, binary: string)
  datatype Component = Component(id: string, process: string, signature: Signature)

  ghost predicate SameDeployment(components: seq<Component>) {
    forall i, j | 0 <= i < |components| && 0 <= j < |components| && components[i].process == components[j].process ::
      components[i].signature == components[j].signature
  }

  /** One pass that remembers the last signature of each process decides the question for all pairs. */
  method CohostedAgree(components: seq<Component>) returns (ok: bool)
    ensures ok <==> SameDeployment(components)
  {
    var processes: map<string, Signature> := map[];
    for n := 0 to |components|
      invariant forall i | 0 <= i < n ::
        components[i].process in processes && processes[components[i].process] == components[i].signature
      invariant forall p | p in processes :: exists i :: 0 <= i < n && components[i].process == p
    {
      var c := components[n];
      if c.process in processes && c.signature != processes[c.process] {
        ghost var i :| 0 <= i < n && components[i].process == c.process;
        return false;
      }
      processes := processes[c.process := c.signature];
    }
    ok := true;
  }

  // ----- Pinned inputs -----

  const MAX_PINS: nat := 2048
  const MAX_PIN_BYTES: nat := 4 * 1024 * 1024 * 1024

  function Sum(sizes: seq<nat>): nat {
    if sizes == [] then 0 else Sum(sizes[..|sizes| - 1]) + sizes[|sizes| - 1]
  }

  lemma {:induction false} SumGrows(sizes: seq<nat>, n: nat)
    requires n <= |sizes|
    ensures Sum(sizes[..n]) <= Sum(sizes)
  {
    if n < |sizes| {
      SumGrows(sizes[..|sizes| - 1], n);
      assert sizes[..|sizes| - 1][..n] == sizes[..n];
    } else {
      assert sizes[..n] == sizes;
    }
  }

  /** The bounds hold for every prefix of the pins. */
  lemma PrefixInBounds(pins: seq<nat>, n: nat)
    requires n <= |pins| <= MAX_PINS && Sum(pins) <= MAX_PIN_BYTES
    ensures |pins[..n]| <= MAX_PINS && Sum(pins[..n]) <= MAX_PIN_BYTES
  {
    SumGrows(pins, n);
  }

  /** The pins of one inspection, by their size in bytes. */
  class Inspection {
    var pins: seq<nat>

    ghost predicate Valid()
      reads this
    {
      |pins| <= MAX_PINS && Sum(pins) <= MAX_PIN_BYTES
    }

    constructor ()
      ensures pins == [] && Valid()
    {
      pins := [];
    }

    /** Pins one input; `size` is what hashing found, nothing when the file is missing, changed or too large. */
    method Pin(size: Option<nat>) returns (ok: bool)
      requires Valid()
      modifies this
      ensures Valid()
      ensures ok <==> size.Some? && |old(pins)| < MAX_PINS && Sum(old(pins)) + size.value <= MAX_PIN_BYTES
      ensures pins == if ok then old(pins) + [size.value] else old(pins)
    {
      if |pins| >= MAX_PINS || size.None? || Sum(pins) + size.value > MAX_PIN_BYTES {
        return false;
      }
      assert (pins + [size.value])[..|pins|] == pins;
      pins := pins + [size.value];
      ok := true;
    }

    /** Pins the inputs of an inspection one after the other. All are pinned exactly when each can be and they are
        at most 2048 with at most 4 GiB together. */
    method PinAll(sizes: seq<Option<nat>>) returns (ok: bool)
      requires Valid() && pins == []
      modifies this
      ensures Valid()
      ensures ok <==>
        && (forall s | s in sizes :: s.Some?) && |sizes| <= MAX_PINS && Sum(Values(sizes)) <= MAX_PIN_BYTES
      ensures ok ==> pins == Values(sizes)
    {
      for i := 0 to |sizes|
        invariant Valid() && pins == Values(sizes[..i]) && forall j | 0 <= j < i :: sizes[j].Some?
      {
        ok := Pin(sizes[i]);
        NextValue(sizes, i);
        if !ok {
          return;
        }
      }
      assert sizes[..|sizes|] == sizes;
      ok := true;
    }
  }

  function Values(sizes: seq<Option<nat>>): seq<nat> {
    seq(|sizes|, i requires 0 <= i < |sizes| => if sizes[i].Some? then sizes[i].value else 0)
  }

  /** What the next value does to the running sum, and to the whole one. */
  lemma NextValue(sizes: seq<Option<nat>>, i: nat)
    requires i < |sizes|
    ensures sizes[i].Some? ==> Values(sizes[..i + 1]) == Values(sizes[..i]) + [sizes[i].value]
    ensures sizes[i].Some? ==> Sum(Values(sizes[..i])) + sizes[i].value <= Sum(Values(sizes))
  {
    if sizes[i].Some? {
      var v := Values(sizes);
      assert Values(sizes[..i + 1]) == v[..i + 1] && Values(sizes[..i]) == v[..i];
      assert v[..i + 1][..i] == v[..i];
      SumGrows(v, i + 1);
    }
  }

  // ----- Store ownership -----

  type Path = seq<string>

  datatype Inode = Inode(device: nat, number: nat)
  datatype Store = Store(id: string, owner: string, path: Path)

  /** One line of the inspection result: a store of this host with its inode, or a declared one of another host. */
  datatype Ownership = Observed(store: Store, inode: Inode) | Declared(store: Store)

  /** Different writers, one path strictly inside the other. */
  predicate Overlap(a: Store, b: Store) {
    a.owner != b.owner && (a.path < b.path || b.path < a.path)
  }

  ghost predicate Separate(a: Ownership, b: Ownership) {
    a.Observed? && b.Observed? ==> a.inode != b.inode && !Overlap(a.store, b.store)
  }

  /** Two observed stores are separate exactly when they are different files and, if they have different owners,
      no path continues the other one; in either order. */
  lemma SeparateIff(a: Ownership, b: Ownership)
    ensures Separate(a, b) <==> Separate(b, a)
    ensures a.Observed? && b.Observed? ==>
      (Separate(a, b) <==>
         && a.inode != b.inode
         && (a.store.owner != b.store.owner ==>
               forall rest: Path | rest != [] ::
                 a.store.path + rest != b.store.path && b.store.path + rest != a.store.path))
  {
    if a.Observed? && b.Observed? {
      ContinuesIff(a.store.path, b.store.path);
      ContinuesIff(b.store.path, a.store.path);
    }
  }

  lemma ContinuesIff(p: Path, q: Path)
    ensures p < q <==> exists rest: Path :: rest != [] && p + rest == q
  {
    if p < q { assert p + q[|p|..] == q; }
  }

  /** What the surroundings say: whether a component runs on the inspecting host, the inode of an existing store path
      without symbolic links, and whether a remote path is absolute and normal. */
  datatype Host = Host(local: string -> bool, inode: Path -> Option<Inode>, normal: Path -> bool)

  ghost predicate Inspectable(h: Host, s: Store) {
    if h.local(s.owner) then h.inode(s.path).Some? else h.normal(s.path)
  }

  function Line(h: Host, s: Store): Ownership
    requires h.local(s.owner) ==> h.inode(s.path).Some?
  {
    if h.local(s.owner) then Observed(s, h.inode(s.path).value) else Declared(s)
  }

  /** The inspection of the stores succeeds exactly when each can be inspected and every two of them are separate;
      its result has one line per store, in order. */
  method InspectStores(h: Host, stores: seq<Store>) returns (r: Option<seq<Ownership>>)
    ensures r.Some? <==>
      && (forall s | s in stores :: Inspectable(h, s))
      && (forall i, j | 0 <= i < j < |stores| && Inspectable(h, stores[i]) && Inspectable(h, stores[j]) ::
            Separate(Line(h, stores[i]), Line(h, stores[j])))
    ensures r.Some? ==>
      && |r.value| == |stores|
      && forall i | 0 <= i < |stores| :: Inspectable(h, stores[i]) && r.value[i] == Line(h, stores[i])
  {
    var ownership: seq<Ownership>, inodes: set<Inode> := [], {};
    for n := 0 to |stores|
      invariant |ownership| == n
      invariant forall i | 0 <= i < n :: Inspectable(h, stores[i]) && ownership[i] == Line(h, stores[i])
      invariant forall i, j | 0 <= i < j < n :: Separate(ownership[i], ownership[j])
      invariant forall x :: x in inodes <==> exists i :: 0 <= i < n && ownership[i].Observed? && ownership[i].inode == x
    {
      var s := stores[n];
      if !h.local(s.owner) {
        if !h.normal(s.path) {
          assert !Inspectable(h, stores[n]);
          return None;
        }
        ownership := ownership + [Declared(s)];
        continue;
      }
      var inode := h.inode(s.path);
      if inode.None? {
        assert !Inspectable(h, stores[n]);
        return None;
      }
      var line := Observed(s, inode.value);
      assert line == Line(h, stores[n]);
      if inode.value in inodes {
        ghost var i :| 0 <= i < n && ownership[i].Observed? && ownership[i].inode == inode.value;
        assert !Separate(Line(h, stores[i]), Line(h, stores[n]));
        return None;
      }
      for k := 0 to |ownership|
        invariant forall i | 0 <= i < k :: Separate(ownership[i], line)
      {
        if ownership[k].Observed? && Overlap(ownership[k].store, s) {
          assert !Separate(Line(h, stores[k]), Line(h, stores[n]));
          return None;
        }
      }
      ownership := ownership + [line];
      inodes := inodes + {inode.value};
    }
    r := Some(ownership);
  }
}
