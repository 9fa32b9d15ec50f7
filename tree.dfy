/**
  The `Node` tree that both readers build (src/converter/Main1.java, class Node).

  Every node lives in an arena, a map from node ids to the node's fields; a
  parent or child link is an id. Ids are handed out in creation order, and
  every link the readers make goes from an older parent to a younger child,
  which makes the parent chain of every node finite.

  `Store` is the arena as a value and the functions on it say what each
  `Node` operation does; `Arena` holds the same fields as a mutable object and
  its methods perform those operations in place.
 */
module Tree {
  import opened Wrappers
  import opened OrderedMaps
  import opened Text

  type NodeId = nat

  /** The attribute map; a value is null when a JSON `null` was copied into it. */
  type Attrs = OMap<string, Option<string>>

  /** The fields of one `Node`. The synthetic root is the only node without a name. */
  datatype NodeRec = NodeRec(
    name: Option<string>,
    value: Option<string>,
    attrs: Attrs,
    children: seq<NodeId>,
    parent: Option<NodeId>)

  /** All nodes allocated so far; `next` is the id the next `new Node` gets. */
  datatype Store = Store(nodes: map<NodeId, NodeRec>, next: NodeId)

  /** Children are younger than their owner, a parent older than its child. */
  ghost predicate LinksOk(st: Store, id: NodeId)
    requires id in st.nodes
  {
    var r := st.nodes[id];
    && (forall c | c in r.children :: c in st.nodes && id < c)
    && (r.parent.Some? ==> r.parent.value in st.nodes && r.parent.value < id)
  }

  ghost predicate Wf(st: Store)
  {
    forall id | id in st.nodes :: id < st.next && LinksOk(st, id)
  }

  /** Position of the first occurrence of `x` in `s`, or -1 (`List.indexOf`). */
  function IndexOfId(s: seq<NodeId>, x: NodeId): (i: int)
    ensures -1 <= i < |s|
    ensures 0 <= i ==> s[i] == x && x !in s[..i]
    ensures i < 0 ==> x !in s
  {
    if |s| == 0 then -1
    else if s[0] == x then 0
    else
      var r := IndexOfId(s[1..], x);
      assert r >= 0 ==> s[1..][..r] == s[1..r + 1];
      if r < 0 then -1 else r + 1
  }

  /** `new Node(name)`: a detached node with no value, attributes or children. */
  function WithNode(st: Store, name: Option<string>): (r: (Store, NodeId))
    requires Wf(st)
    ensures Wf(r.0) && r.1 == st.next && r.1 !in st.nodes && r.1 in r.0.nodes
    ensures r.0.next == st.next + 1
    ensures r.0.nodes == st.nodes[r.1 := NodeRec(name, None, [], [], None)]
  {
    (Store(st.nodes[st.next := NodeRec(name, None, [], [], None)], st.next + 1), st.next)
  }

  /** `p.addChild(c)`: `c` becomes the last child of `p` and `p` becomes its parent. */
  function WithChild(st: Store, p: NodeId, c: NodeId): (r: Store)
    requires Wf(st) && p in st.nodes && c in st.nodes && p < c
    ensures Wf(r) && r.next == st.next && r.nodes.Keys == st.nodes.Keys
    ensures r.nodes[p] == st.nodes[p].(children := st.nodes[p].children + [c])
    ensures r.nodes[c] == st.nodes[c].(parent := Some(p))
    ensures forall x | x in st.nodes && x != p && x != c :: r.nodes[x] == st.nodes[x]
  {
    var pr, cr := st.nodes[p], st.nodes[c];
    Store(st.nodes[c := cr.(parent := Some(p))][p := pr.(children := pr.children + [c])], st.next)
  }

  /**
    `p.removeChild(c)`: when `c` is a child of `p`, its first occurrence is
    removed, its parent is cleared and `c` is returned; otherwise nothing
    changes and null is returned.
   */
  function WithoutChild(st: Store, p: NodeId, c: NodeId): (r: (Store, Option<NodeId>))
    requires Wf(st) && p in st.nodes
    ensures Wf(r.0) && r.0.next == st.next && r.0.nodes.Keys == st.nodes.Keys
    ensures r.1.None? <==> c !in st.nodes[p].children
    ensures r.1.None? ==> r.0 == st
    ensures r.1.Some? ==>
      var i := IndexOfId(st.nodes[p].children, c);
      && r.1 == Some(c) && c in st.nodes
      && |r.0.nodes[p].children| + 1 == |st.nodes[p].children|
      && st.nodes[p].children == r.0.nodes[p].children[..i] + [c] + r.0.nodes[p].children[i..]
      && c !in st.nodes[p].children[..i]
      && r.0.nodes[p] == st.nodes[p].(children := r.0.nodes[p].children)
      && r.0.nodes[c] == st.nodes[c].(parent := None)
      && forall x | x in st.nodes && x != p && x != c :: r.0.nodes[x] == st.nodes[x]
  {
    var cs := st.nodes[p].children;
    var i := IndexOfId(cs, c);
    if i < 0 then (st, None)
    else
      var rest := cs[..i] + cs[i + 1..];
      DetachFacts(st, p, c, i, rest);
      (Detached(st, p, c, rest), Some(c))
  }

  /** The store after taking `c` out of the children of `p`, leaving `rest`. */
  function Detached(st: Store, p: NodeId, c: NodeId, rest: seq<NodeId>): Store
    requires p in st.nodes && c in st.nodes
  {
    var st1 := st.nodes[c := st.nodes[c].(parent := None)];
    Store(st1[p := st1[p].(children := rest)], st.next)
  }

  lemma DetachFacts(st: Store, p: NodeId, c: NodeId, i: nat, rest: seq<NodeId>)
    requires Wf(st) && p in st.nodes
    requires i < |st.nodes[p].children| && st.nodes[p].children[i] == c
    requires rest == st.nodes[p].children[..i] + st.nodes[p].children[i + 1..]
    ensures c in st.nodes
    ensures st.nodes[p].children == rest[..i] + [c] + rest[i..]
    ensures Wf(Detached(st, p, c, rest))
  {
    var cs := st.nodes[p].children;
    assert cs[i] in cs;
    assert cs == rest[..i] + [c] + rest[i..];
    var r := Detached(st, p, c, rest);
    forall x | x in r.nodes ensures x < r.next && LinksOk(r, x) {
      assert LinksOk(st, x);
      if x == p {
        forall y | y in rest ensures y in cs { }
      }
    }
  }

  /** `setName` */
  function WithName(st: Store, id: NodeId, name: Option<string>): (r: Store)
    requires Wf(st) && id in st.nodes
    ensures Wf(r)
  {
    st.(nodes := st.nodes[id := st.nodes[id].(name := name)])
  }

  /** `setValue` */
  function WithValue(st: Store, id: NodeId, value: Option<string>): (r: Store)
    requires Wf(st) && id in st.nodes
    ensures Wf(r)
  {
    st.(nodes := st.nodes[id := st.nodes[id].(value := value)])
  }

  /** `setAttribute`: a `put` into the node's insertion-ordered attribute map. */
  function WithAttribute(st: Store, id: NodeId, key: string, value: Option<string>): (r: Store)
    requires Wf(st) && id in st.nodes
    ensures Wf(r)
  {
    st.(nodes := st.nodes[id := st.nodes[id].(attrs := Put(st.nodes[id].attrs, key, value))])
  }

  /** The names on the parent chain of `id`, root-most first; unnamed nodes contribute nothing. */
  ghost function PathNames(st: Store, id: NodeId): seq<string>
    requires Wf(st) && id in st.nodes
    decreases id
  {
    var r := st.nodes[id];
    (if r.parent.Some? then PathNames(st, r.parent.value) else [])
    + (if r.name.Some? then [r.name.value] else [])
  }

  /** What `getPath` returns. */
  ghost function Path(st: Store, id: NodeId): string
    requires Wf(st) && id in st.nodes
  {
    Join(PathNames(st, id))
  }

  /** The (name, child) pairs that `getChildrenMap` puts, in order. */
  function NamePairs(st: Store, cs: seq<NodeId>): OMap<Option<string>, NodeId>
    requires forall c | c in cs :: c in st.nodes
  {
    seq(|cs|, i requires 0 <= i < |cs| => (st.nodes[cs[i]].name, cs[i]))
  }

  /** The snapshot map `getChildrenMap` builds from the children list `cs`. */
  function ChildrenMap(st: Store, cs: seq<NodeId>): OMap<Option<string>, NodeId>
    requires forall c | c in cs :: c in st.nodes
  {
    PutAll([], NamePairs(st, cs))
  }

  /** Adding a named child gives it its new parent's path followed by its own name. */
  lemma AddChildPath(st: Store, p: NodeId, c: NodeId)
    requires Wf(st) && p in st.nodes && c in st.nodes && p < c && st.nodes[c].name.Some?
    ensures var n := st.nodes[c].name.value;
            && PathNames(WithChild(st, p, c), c) == PathNames(st, p) + [n]
            && Path(WithChild(st, p, c), c) ==
               if PathNames(st, p) == [] then n else Path(st, p) + ", " + n
  {
    var st' := WithChild(st, p, c);
    PathUnchanged(st, st', p);
    JoinSnoc(PathNames(st, p), st.nodes[c].name.value);
  }

  /** A path depends only on the names and parents of the node and its ancestors. */
  lemma {:induction false} PathUnchanged(st: Store, st': Store, x: NodeId)
    requires Wf(st) && Wf(st') && x in st.nodes
    requires forall y | y in st.nodes && y <= x ::
      y in st'.nodes && st'.nodes[y].name == st.nodes[y].name && st'.nodes[y].parent == st.nodes[y].parent
    ensures PathNames(st', x) == PathNames(st, x)
    decreases x
  {
    var r := st.nodes[x];
    if r.parent.Some? {
      PathUnchanged(st, st', r.parent.value);
    }
  }

  /** A named child's path is its parent's path, a separator and its own name. */
  lemma NamedChildPath(st: Store, c: NodeId)
    requires Wf(st) && c in st.nodes && st.nodes[c].parent.Some? && st.nodes[c].name.Some?
    ensures var p, n := st.nodes[c].parent.value, st.nodes[c].name.value;
            Path(st, c) == if PathNames(st, p) == [] then n else Path(st, p) + ", " + n
  {
    JoinSnoc(PathNames(st, st.nodes[c].parent.value), st.nodes[c].name.value);
  }

  /** Removing a child that `addChild` has just appended restores the children list. */
  lemma RemoveAfterAdd(st: Store, p: NodeId, c: NodeId)
    requires Wf(st) && p in st.nodes && c in st.nodes && p < c && c !in st.nodes[p].children
    ensures var (st', removed) := WithoutChild(WithChild(st, p, c), p, c);
            && removed == Some(c)
            && st'.nodes[p] == st.nodes[p]
            && st'.nodes[c] == st.nodes[c].(parent := None)
  {
    var st1 := WithChild(st, p, c);
    var cs := st.nodes[p].children;
    var (st', removed) := WithoutChild(st1, p, c);
    var i := IndexOfId(cs + [c], c);
    assert i == |cs|;
    assert st'.nodes[p].children == cs;
  }

  /** The children's names are exactly the keys of the children map. */
  lemma ChildrenMapKeys(st: Store, cs: seq<NodeId>)
    requires forall c | c in cs :: c in st.nodes
    ensures var m := ChildrenMap(st, cs);
            && DistinctKeys(m)
            && (forall j | 0 <= j < |cs| :: st.nodes[cs[j]].name in Keys(m))
            && (forall e | e in m :: e.1 in cs && st.nodes[e.1].name == e.0)
  {
    var ps := NamePairs(st, cs);
    var m := ChildrenMap(st, cs);
    PutAllDistinct([], ps);
    forall j | 0 <= j < |cs| ensures st.nodes[cs[j]].name in Keys(m) {
      assert Keys(ps)[j] == st.nodes[cs[j]].name;
      PutAllKeys([], ps, st.nodes[cs[j]].name);
    }
    forall e | e in m ensures e.1 in cs && st.nodes[e.1].name == e.0 {
      PutAllEntries([], ps, e);
    }
  }

  /** The entry for a name is the last child with that name. */
  lemma ChildrenMapLastWins(st: Store, cs: seq<NodeId>, j: nat)
    requires forall c | c in cs :: c in st.nodes
    requires j < |cs|
    requires forall j' | j < j' < |cs| :: st.nodes[cs[j']].name != st.nodes[cs[j]].name
    ensures Get(ChildrenMap(st, cs), st.nodes[cs[j]].name) == Some(cs[j])
  {
    var ps := NamePairs(st, cs);
    var k := st.nodes[cs[j]].name;
    PutAllGet([], ps, k);
    var l := LastIndex(ps, k);
    assert ps[j].0 == k;
    assert l == j;
  }

  /** The keys of the children map appear in the order of the first child with each name. */
  lemma ChildrenMapOrder(st: Store, cs: seq<NodeId>)
    requires forall c | c in cs :: c in st.nodes
    ensures FirstOccurrenceOrder(NamePairs(st, cs), ChildrenMap(st, cs))
  {
    FromPairsOrder(NamePairs(st, cs));
  }

  /** A children map depends only on the names of the listed nodes. */
  lemma ChildrenMapUnchanged(st: Store, st': Store, cs: seq<NodeId>)
    requires forall c | c in cs :: c in st.nodes && c in st'.nodes && st'.nodes[c].name == st.nodes[c].name
    ensures ChildrenMap(st', cs) == ChildrenMap(st, cs)
  {
    assert NamePairs(st', cs) == NamePairs(st, cs);
  }

  /** The fields of the Java nodes, held as an arena. */
  class Arena {
    var nodes: map<NodeId, NodeRec>
    var next: NodeId

    function State(): Store
      reads this
    {
      Store(nodes, next)
    }

    ghost predicate Valid()
      reads this
    {
      Wf(State())
    }

    constructor ()
      ensures Valid() && State() == Store(map[], 0)
    {
      nodes, next := map[], 0;
    }

    /** `new Node(name)` */
    method NewNode(name: Option<string>) returns (id: NodeId)
      requires Valid()
      modifies this
      ensures Valid() && (State(), id) == WithNode(old(State()), name)
    {
      id := next;
      nodes := nodes[id := NodeRec(name, None, [], [], None)];
      next := next + 1;
    }

    /** `p.addChild(c)` */
    method AddChild(p: NodeId, c: NodeId)
      requires Valid() && p in nodes && c in nodes && p < c
      modifies this
      ensures Valid() && State() == WithChild(old(State()), p, c)
    {
      var pr, cr := nodes[p], nodes[c];
      nodes := nodes[c := cr.(parent := Some(p))][p := pr.(children := pr.children + [c])];
    }

    /** `p.addChild(name)`: a new node with that name, made the last child of `p`. */
    method AddChildNamed(p: NodeId, name: Option<string>) returns (c: NodeId)
      requires Valid() && p in nodes
      modifies this
      ensures Valid() && c in nodes
      ensures var (st1, id) := WithNode(old(State()), name);
              c == id && State() == WithChild(st1, p, c)
    {
      c := NewNode(name);
      AddChild(p, c);
    }

    /** `p.removeChild(c)` */
    method RemoveChild(p: NodeId, c: NodeId) returns (removed: Option<NodeId>)
      requires Valid() && p in nodes
      modifies this
      ensures Valid() && (State(), removed) == WithoutChild(old(State()), p, c)
    {
      var cs := nodes[p].children;
      var i := IndexOfId(cs, c);
      if i < 0 {
        return None;
      }
      ghost var before := State();
      var rest := cs[..i] + cs[i + 1..];
      DetachFacts(before, p, c, i, rest);
      nodes := nodes[c := nodes[c].(parent := None)];
      nodes := nodes[p := nodes[p].(children := rest)];
      assert State() == Detached(before, p, c, rest);
      removed := Some(c);
    }

    /** `setName` */
    method SetName(id: NodeId, name: Option<string>)
      requires Valid() && id in nodes
      modifies this
      ensures Valid() && State() == WithName(old(State()), id, name)
    {
      nodes := nodes[id := nodes[id].(name := name)];
    }

    /** `setValue` */
    method SetValue(id: NodeId, value: Option<string>)
      requires Valid() && id in nodes
      modifies this
      ensures Valid() && State() == WithValue(old(State()), id, value)
    {
      nodes := nodes[id := nodes[id].(value := value)];
    }

    /** `setAttribute` */
    method SetAttribute(id: NodeId, key: string, value: Option<string>)
      requires Valid() && id in nodes
      modifies this
      ensures Valid() && State() == WithAttribute(old(State()), id, key, value)
    {
      nodes := nodes[id := nodes[id].(attrs := Put(nodes[id].attrs, key, value))];
    }

    /** `hasChildren` */
    method HasChildren(id: NodeId) returns (b: bool)
      requires id in nodes
      ensures b <==> nodes[id].children != []
    {
      b := |nodes[id].children| != 0;
    }

    /** `getPath`: walks up the parent chain, inserting each name in front. */
    method GetPath(id: NodeId) returns (path: string)
      requires Valid() && id in nodes
      ensures path == Path(State(), id)
    {
      path := "";
      var node: Option<NodeId> := Some(id);
      var first := true;
      ghost var below: seq<string> := [];
      while node.Some?
        invariant node.Some? ==> node.value in nodes
        invariant PathNames(State(), id) ==
                  (if node.Some? then PathNames(State(), node.value) else []) + below
        invariant path == Join(below) && (first <==> below == [])
        decreases if node.Some? then node.value + 1 else 0
      {
        var r := nodes[node.value];
        if r.name.Some? {
          if first {
            first := false;
          } else {
            path := ", " + path;
          }
          path := r.name.value + path;
          JoinCons(r.name.value, below);
          below := [r.name.value] + below;
        }
        node := r.parent;
      }
      assert [] + below == below;
    }

    /** `getChildrenMap`: a fresh map from each child's name to the last child with that name. */
    method GetChildrenMap(id: NodeId) returns (m: OMap<Option<string>, NodeId>)
      requires Valid() && id in nodes
      ensures m == ChildrenMap(State(), nodes[id].children)
    {
      var cs := nodes[id].children;
      ghost var ps := NamePairs(State(), cs);
      m := [];
      for k := 0 to |cs|
        invariant m == PutAll([], ps[..k])
      {
        assert ps[..k + 1][..k] == ps[..k];
        m := Put(m, nodes[cs[k]].name, cs[k]);
      }
      assert ps[..|cs|] == ps;
    }
  }
}
