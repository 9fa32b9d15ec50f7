/**
  The reconciliation step of `JsonReader.readObject`
  (src/converter/Main1.java:249-285): once a nested object has been read
  into `node`, its children are rewritten in place, either as an XML-style
  record (`#name` for the text, `@attr` for attributes) or, failing that,
  by dropping or renaming children whose names are not XML identifiers.
 */
module JsonRewrite {
  import opened Wrappers
  import opened OrderedMaps
  import opened Text
  import opened Tree

  /** `[.\w]` */
  predicate IsIdentChar(c: char)
  {
    c == '.' || IsWordChar(c)
  }

  /** `[a-z_][.\w]*` (case-insensitive) matches exactly `s[i..]`. */
  predicate IdentFrom(s: string, i: nat)
  {
    i < |s| && IsNameStart(s[i]) && SkipWhile(s, i + 1, IsIdentChar) == |s|
  }

  /** `isValidXmlAttribute` (lines 333-335): not null, and `[#@][a-z_][.\w]*` matches all of it. */
  predicate IsValidXmlAttribute(name: Option<string>)
  {
    && name.Some? && 1 <= |name.value|
    && (name.value[0] == '#' || name.value[0] == '@')
    && IdentFrom(name.value, 1)
  }

  /** `isValidXmlIdentifier` (lines 337-339): not null, and `[a-z_][.\w]*` matches all of it. */
  predicate IsValidXmlIdentifier(name: Option<string>)
  {
    name.Some? && IdentFrom(name.value, 0)
  }

  /** The identifier grammar, character by character. */
  ghost predicate IdentChars(s: string, i: nat)
  {
    i < |s| && IsNameStart(s[i]) && forall k | i < k < |s| :: IsIdentChar(s[k])
  }

  lemma IdentFromMeaning(s: string, i: nat)
    ensures IdentFrom(s, i) <==> IdentChars(s, i)
  {
    if i < |s| {
      SkipWhileAll(s, i + 1, IsIdentChar);
    }
    if IdentChars(s, i) {
      SkipWhileExact(s, i + 1, |s|, IsIdentChar);
    }
  }

  /** An attribute name is a marker, a name-start character, then identifier characters. */
  lemma ValidAttributeMeaning(s: string)
    ensures IsValidXmlAttribute(Some(s)) <==>
            && 2 <= |s| && (s[0] == '#' || s[0] == '@') && IsNameStart(s[1])
            && forall k | 2 <= k < |s| :: IsIdentChar(s[k])
  {
    IdentFromMeaning(s, 1);
  }

  /** An identifier is a name-start character followed by identifier characters. */
  lemma ValidIdentifierMeaning(s: string)
    ensures IsValidXmlIdentifier(Some(s)) <==>
            && 1 <= |s| && IsNameStart(s[0])
            && forall k | 1 <= k < |s| :: IsIdentChar(s[k])
  {
    IdentFromMeaning(s, 0);
  }

  /** Stripping the marker of an attribute name leaves an identifier. */
  lemma AttributeTailIsIdentifier(s: string)
    requires IsValidXmlAttribute(Some(s))
    ensures IsValidXmlIdentifier(Some(s[1..]))
  {
    ValidAttributeMeaning(s);
    ValidIdentifierMeaning(s[1..]);
    assert forall k | 1 <= k < |s[1..]| :: s[1..][k] == s[k + 1];
  }

  /** The loop at lines 347-353: every entry is a valid attribute, and none fails the `charAt(1)` test. */
  predicate EntriesAreAttributes(st: Store, es: OMap<Option<string>, NodeId>)
    requires forall i | 0 <= i < |es| :: es[i].1 in st.nodes
  {
    es == [] ||
    (&& IsValidXmlAttribute(es[0].0)
     && !(es[0].0.value[1] == '@' && st.nodes[es[0].1].children != [])
     && EntriesAreAttributes(st, es[1..]))
  }

  /** `"#" + node.getName()`, where a null name is written as `null`. */
  function TextKey(name: Option<string>): string
  {
    "#" + if name.Some? then name.value else "null"
  }

  /** `isXmlAttributes` (lines 341-355). */
  predicate IsXmlAttributes(st: Store, node: NodeId)
    requires Wf(st) && node in st.nodes
  {
    var m := ChildrenMap(st, st.nodes[node].children);
    ChildrenMapKeys(st, st.nodes[node].children);
    Some(TextKey(st.nodes[node].name)) in Keys(m) && EntriesAreAttributes(st, m)
  }

  /** The `charAt(1) == '@'` test never rejects an entry that passed the attribute test. */
  lemma {:induction false} EntriesAreAttributesMeaning(st: Store, es: OMap<Option<string>, NodeId>)
    requires forall i | 0 <= i < |es| :: es[i].1 in st.nodes
    ensures EntriesAreAttributes(st, es) <==> forall i | 0 <= i < |es| :: IsValidXmlAttribute(es[i].0)
    decreases |es|
  {
    if es != [] {
      EntriesAreAttributesMeaning(st, es[1..]);
      if IsValidXmlAttribute(es[0].0) {
        ValidAttributeMeaning(es[0].0.value);
      }
      assert forall i | 1 <= i < |es| :: es[1..][i - 1] == es[i];
    }
  }

  /**
    A node is written in record style exactly when its children map has the
    key `#name` and every key is a valid attribute name.
   */
  lemma IsXmlAttributesMeaning(st: Store, node: NodeId)
    requires Wf(st) && node in st.nodes
    ensures var m := ChildrenMap(st, st.nodes[node].children);
            IsXmlAttributes(st, node) <==>
            Some(TextKey(st.nodes[node].name)) in Keys(m) &&
            forall i | 0 <= i < |m| :: IsValidXmlAttribute(m[i].0)
  {
    var m := ChildrenMap(st, st.nodes[node].children);
    ChildrenMapKeys(st, st.nodes[node].children);
    EntriesAreAttributesMeaning(st, m);
  }

  /**
    What a rewrite of `node` may change: ids below `node` are untouched; other
    nodes keep their value, attributes and children, and also their name
    unless `renames` allows renaming; `node` keeps its name and parent.
   */
  ghost predicate Touched(st: Store, r: Store, node: NodeId, renames: bool)
    requires node in st.nodes
  {
    && Wf(r) && r.next == st.next && r.nodes.Keys == st.nodes.Keys
    && (forall x | x in st.nodes && x != node ::
          && (x < node ==> r.nodes[x] == st.nodes[x])
          && r.nodes[x].children == st.nodes[x].children
          && r.nodes[x].value == st.nodes[x].value
          && r.nodes[x].attrs == st.nodes[x].attrs
          && (!renames ==> r.nodes[x].name == st.nodes[x].name))
    && r.nodes[node].name == st.nodes[node].name
    && r.nodes[node].parent == st.nodes[node].parent
  }

  ghost predicate SameNames(st: Store, r: Store)
  {
    forall x | x in st.nodes :: x in r.nodes && r.nodes[x].name == st.nodes[x].name
  }

  lemma KeptNames(st: Store, r: Store, node: NodeId)
    requires node in st.nodes && Touched(st, r, node, false)
    ensures SameNames(st, r)
  {
  }

  lemma TouchedTrans(st0: Store, st1: Store, st2: Store, node: NodeId, renames: bool)
    requires node in st0.nodes && Touched(st0, st1, node, renames) && Touched(st1, st2, node, renames)
    ensures Touched(st0, st2, node, renames)
  {
  }

  lemma WithChildTouched(st: Store, node: NodeId, c: NodeId)
    requires Wf(st) && node in st.nodes && c in st.nodes && node < c
    ensures Touched(st, WithChild(st, node, c), node, false)
  {
  }

  lemma WithoutChildTouched(st: Store, node: NodeId, c: NodeId)
    requires Wf(st) && node in st.nodes && (c in st.nodes ==> node < c)
    ensures Touched(st, WithoutChild(st, node, c).0, node, false)
  {
  }

  lemma OwnFieldsTouched(st: Store, node: NodeId, r: Store)
    requires Wf(st) && node in st.nodes && Wf(r) && r.next == st.next && node in r.nodes
    requires r.nodes == st.nodes[node := r.nodes[node]]
    requires r.nodes[node].name == st.nodes[node].name && r.nodes[node].parent == st.nodes[node].parent
    ensures Touched(st, r, node, false)
  {
  }

  lemma WithNameTouched(st: Store, node: NodeId, c: NodeId, n: Option<string>)
    requires Wf(st) && node in st.nodes && c in st.nodes && node < c
    ensures Touched(st, WithName(st, c, n), node, true)
    ensures forall x | x in st.nodes && x != c :: WithName(st, c, n).nodes[x].name == st.nodes[x].name
  {
  }

  /** `node.addChild(c)` for each `c` of `cs` in turn (lines 256-258). */
  function AddAll(st: Store, node: NodeId, cs: seq<NodeId>): (r: Store)
    requires Wf(st) && node in st.nodes
    requires forall i | 0 <= i < |cs| :: cs[i] in st.nodes && node < cs[i]
    ensures Touched(st, r, node, false)
    ensures r.nodes[node] == st.nodes[node].(children := st.nodes[node].children + cs)
    decreases |cs|
  {
    if cs == [] then st
    else
      var s1 := WithChild(st, node, cs[0]);
      WithChildTouched(st, node, cs[0]);
      assert forall i | 0 <= i < |cs[1..]| :: cs[1..][i] in s1.nodes && node < cs[1..][i] by {
        assert forall i | 0 <= i < |cs[1..]| :: cs[1..][i] == cs[i + 1];
      }
      var r := AddAll(s1, node, cs[1..]);
      TouchedTrans(st, s1, r, node, false);
      SnocFront(st.nodes[node].children, cs);
      r
  }

  lemma SnocFront(a: seq<NodeId>, cs: seq<NodeId>)
    requires cs != []
    ensures a + [cs[0]] + cs[1..] == a + cs
  {
  }

  /** The entries of a snapshot still to visit: distinct keys, each naming its node. */
  ghost predicate Pending(st: Store, es: OMap<Option<string>, NodeId>)
  {
    && DistinctKeys(es)
    && forall i | 0 <= i < |es| :: es[i].1 in st.nodes && st.nodes[es[i].1].name == es[i].0
  }

  /** Record style also needs each pending node to still be a child, with an attribute name. */
  ghost predicate RecordPending(st: Store, node: NodeId, es: OMap<Option<string>, NodeId>)
    requires node in st.nodes
  {
    && Pending(st, es)
    && forall i | 0 <= i < |es| :: es[i].1 in st.nodes[node].children && IsValidXmlAttribute(es[i].0)
  }

  /**
    The children a `#` entry with children passes up to `node`: the values of
    its own children map, that is its children deduplicated by name.
   */
  function Spliced(st: Store, k: string, c: NodeId): seq<NodeId>
    requires Wf(st) && c in st.nodes && 1 <= |k|
  {
    if k[0] == '#' && st.nodes[c].children != [] then
      assert LinksOk(st, c);
      Values(ChildrenMap(st, st.nodes[c].children))
    else []
  }

  /**
    One iteration of the record-style loop (lines 251-266) for the entry
    `k -> c`. A `#` child with children is replaced by its deduplicated
    children; a `#` leaf gives `node` its value; an `@` child becomes the
    attribute named by the child's name without its marker.
   */
  function RecordStep(st: Store, node: NodeId, k: string, c: NodeId): (r: Store)
    requires Wf(st) && node in st.nodes && c in st.nodes[node].children && 1 <= |k|
    requires st.nodes[c].name.Some? && 1 <= |st.nodes[c].name.value|
    ensures Touched(st, r, node, false)
    ensures r.nodes[node].attrs ==
            if k[0] == '#' then st.nodes[node].attrs
            else Put(st.nodes[node].attrs, st.nodes[c].name.value[1..], st.nodes[c].value)
    ensures r.nodes[node].value ==
            if k[0] == '#' && st.nodes[c].children == [] then st.nodes[c].value else st.nodes[node].value
    ensures multiset(r.nodes[node].children) + multiset{c} ==
            multiset(st.nodes[node].children) + multiset(Spliced(st, k, c))
    ensures forall x | x in st.nodes[node].children && x != c :: x in r.nodes[node].children
  {
    RecordRemoval(st, node, k, c);
    var s1 := WithoutChild(st, node, c).0;
    var r := RecordStepOn(s1, node, k, c);
    TouchedTrans(st, s1, r, node, false);
    AppendedAfterRemoval(st.nodes[node].children, s1.nodes[node].children, Spliced(st, k, c), c);
    r
  }

  /** Appending `sp` after taking one `c` out of `cs`, as a multiset equation. */
  lemma AppendedAfterRemoval(cs: seq<NodeId>, cs1: seq<NodeId>, sp: seq<NodeId>, c: NodeId)
    requires multiset(cs1) + multiset{c} == multiset(cs)
    ensures multiset(cs1 + sp) + multiset{c} == multiset(cs) + multiset(sp)
  {
  }

  /** What `node.removeChild(c)` leaves for the rest of a record-style step. */
  lemma RecordRemoval(st: Store, node: NodeId, k: string, c: NodeId)
    requires Wf(st) && node in st.nodes && c in st.nodes[node].children && 1 <= |k|
    ensures c in st.nodes && node < c
    ensures var s1 := WithoutChild(st, node, c).0;
            && Touched(st, s1, node, false)
            && s1.nodes[node] == st.nodes[node].(children := s1.nodes[node].children)
            && s1.nodes[c] == st.nodes[c].(parent := None)
            && multiset(s1.nodes[node].children) + multiset{c} == multiset(st.nodes[node].children)
            && (forall x | x in st.nodes[node].children && x != c :: x in s1.nodes[node].children)
            && Spliced(s1, k, c) == Spliced(st, k, c)
  {
    assert c in st.nodes && node < c by { assert LinksOk(st, node); }
    var s1 := WithoutChild(st, node, c).0;
    WithoutChildTouched(st, node, c);
    StillChildren(st, node, c);
    RemovedOnce(st, node, c);
    assert LinksOk(st, c);
    ChildrenMapUnchanged(st, s1, st.nodes[c].children);
  }

  /** Removing `c` keeps every other child. */
  lemma StillChildren(st: Store, node: NodeId, c: NodeId)
    requires Wf(st) && node in st.nodes
    ensures forall x | x in st.nodes[node].children && x != c ::
              x in WithoutChild(st, node, c).0.nodes[node].children
  {
    var (s1, removed) := WithoutChild(st, node, c);
    if removed.Some? {
      var i := IndexOfId(st.nodes[node].children, c);
      var cs1 := s1.nodes[node].children;
      assert st.nodes[node].children == cs1[..i] + [c] + cs1[i..];
      forall x | x in st.nodes[node].children && x != c ensures x in cs1 {
        assert x in cs1[..i] || x in cs1[i..];
      }
    }
  }

  /** Removing a child takes exactly one copy of it out of the children. */
  lemma RemovedOnce(st: Store, node: NodeId, c: NodeId)
    requires Wf(st) && node in st.nodes && c in st.nodes[node].children
    ensures multiset(WithoutChild(st, node, c).0.nodes[node].children) + multiset{c} ==
            multiset(st.nodes[node].children)
  {
    var cs1 := WithoutChild(st, node, c).0.nodes[node].children;
    var i := IndexOfId(st.nodes[node].children, c);
    assert st.nodes[node].children == cs1[..i] + [c] + cs1[i..];
    assert cs1 == cs1[..i] + cs1[i..];
  }

  /** The branch of `RecordStep` taken once `c` has been removed from `node`. */
  function RecordStepOn(s1: Store, node: NodeId, k: string, c: NodeId): (r: Store)
    requires Wf(s1) && node in s1.nodes && c in s1.nodes && node < c && 1 <= |k|
    requires s1.nodes[c].name.Some? && 1 <= |s1.nodes[c].name.value|
    ensures Touched(s1, r, node, false)
    ensures r.nodes[node].attrs ==
            if k[0] == '#' then s1.nodes[node].attrs
            else Put(s1.nodes[node].attrs, s1.nodes[c].name.value[1..], s1.nodes[c].value)
    ensures r.nodes[node].value ==
            if k[0] == '#' && s1.nodes[c].children == [] then s1.nodes[c].value else s1.nodes[node].value
    ensures r.nodes[node].children == s1.nodes[node].children + Spliced(s1, k, c)
  {
    if k[0] == '#' then
      if s1.nodes[c].children != [] then SplicedInto(s1, node, c)
      else
        var r := WithValue(s1, node, s1.nodes[c].value);
        OwnFieldsTouched(s1, node, r);
        r
    else
      var r := WithAttribute(s1, node, s1.nodes[c].name.value[1..], s1.nodes[c].value);
      OwnFieldsTouched(s1, node, r);
      r
  }

  /** Lines 256-258: the deduplicated children of `c` appended to `node`. */
  function SplicedInto(s1: Store, node: NodeId, c: NodeId): (r: Store)
    requires Wf(s1) && node in s1.nodes && c in s1.nodes && node < c
    ensures Touched(s1, r, node, false)
    ensures r.nodes[node] == s1.nodes[node].(children := s1.nodes[node].children + Spliced(s1, "#", c))
  {
    SplicedYounger(s1, node, "#", c);
    AddAll(s1, node, Spliced(s1, "#", c))
  }

  /** The children passed up from `c` are nodes younger than `node`. */
  lemma SplicedYounger(st: Store, node: NodeId, k: string, c: NodeId)
    requires Wf(st) && c in st.nodes && node < c && 1 <= |k|
    ensures var sp := Spliced(st, k, c);
            forall i | 0 <= i < |sp| :: sp[i] in st.nodes && node < sp[i]
  {
    var cs := st.nodes[c].children;
    if k[0] == '#' && cs != [] {
      var sub := ChildrenMap(st, cs);
      assert forall x | x in cs :: x in st.nodes && c < x by { assert LinksOk(st, c); }
      ChildrenMapKeys(st, cs);
      var sp := Spliced(st, k, c);
      assert sp == Values(sub);
      forall i | 0 <= i < |sp| ensures sp[i] in st.nodes && node < sp[i] {
        assert sub[i] in sub && sp[i] == sub[i].1;
      }
    }
  }

  /** Each entry names a node of `st` by a non-empty key. */
  ghost predicate Entries(st: Store, es: OMap<Option<string>, NodeId>)
  {
    forall i | 0 <= i < |es| :: es[i].1 in st.nodes && es[i].0.Some? && 1 <= |es[i].0.value|
  }

  /** The `@` entries as attributes: the key without its marker, and the child's value. */
  function RecordedAttributes(st: Store, es: OMap<Option<string>, NodeId>): Attrs
    requires Entries(st, es)
    decreases |es|
  {
    if es == [] then []
    else
      var k := es[0].0.value;
      (if k[0] == '#' then [] else [(k[1..], st.nodes[es[0].1].value)])
      + RecordedAttributes(st, es[1..])
  }

  /** A `#` entry whose child has no children: its value is copied onto the node. */
  predicate IsTextLeaf(st: Store, e: (Option<string>, NodeId))
    requires e.1 in st.nodes && e.0.Some? && 1 <= |e.0.value|
  {
    e.0.value[0] == '#' && st.nodes[e.1].children == []
  }

  /** Position of the last text leaf among the entries, or -1. */
  function LastTextLeaf(st: Store, es: OMap<Option<string>, NodeId>): (i: int)
    requires Entries(st, es)
    ensures -1 <= i < |es|
    ensures 0 <= i ==> IsTextLeaf(st, es[i]) && forall j | i < j < |es| :: !IsTextLeaf(st, es[j])
    ensures i < 0 ==> forall j | 0 <= j < |es| :: !IsTextLeaf(st, es[j])
    decreases |es|
  {
    if es == [] then -1
    else
      var j := LastTextLeaf(st, es[1..]);
      assert forall l | 1 <= l < |es| :: es[1..][l - 1] == es[l];
      if j >= 0 then j + 1
      else if IsTextLeaf(st, es[0]) then 0
      else -1
  }

  /** Every child the `#` entries with children pass up, in visiting order. */
  function SplicedAll(st: Store, es: OMap<Option<string>, NodeId>): seq<NodeId>
    requires Wf(st) && Entries(st, es)
    decreases |es|
  {
    if es == [] then []
    else Spliced(st, es[0].0.value, es[0].1) + SplicedAll(st, es[1..])
  }

  /** Two stores agree on the entries' nodes: the same values, children and names. */
  ghost predicate Agree(st: Store, st': Store, es: OMap<Option<string>, NodeId>)
  {
    forall i | 0 <= i < |es| ::
      && es[i].1 in st.nodes && es[i].1 in st'.nodes
      && st'.nodes[es[i].1].value == st.nodes[es[i].1].value
      && st'.nodes[es[i].1].children == st.nodes[es[i].1].children
  }

  /** A rewrite of `node` leaves the other entries' nodes alone. */
  lemma TouchedAgree(st: Store, st': Store, node: NodeId, es: OMap<Option<string>, NodeId>)
    requires node in st.nodes && Touched(st, st', node, false) && Entries(st, es)
    requires forall i | 0 <= i < |es| :: es[i].1 != node
    ensures Entries(st', es) && Agree(st, st', es)
  {
  }

  lemma {:induction false} AttributesAgree(st: Store, st': Store, es: OMap<Option<string>, NodeId>)
    requires Entries(st, es) && Entries(st', es) && Agree(st, st', es)
    ensures RecordedAttributes(st', es) == RecordedAttributes(st, es)
    decreases |es|
  {
    if es != [] {
      AttributesAgree(st, st', es[1..]);
    }
  }

  lemma {:induction false} LeafAgree(st: Store, st': Store, es: OMap<Option<string>, NodeId>)
    requires Entries(st, es) && Entries(st', es) && Agree(st, st', es)
    ensures LastTextLeaf(st', es) == LastTextLeaf(st, es)
    decreases |es|
  {
    if es != [] {
      LeafAgree(st, st', es[1..]);
    }
  }

  lemma {:induction false} SplicedAgree(st: Store, st': Store, es: OMap<Option<string>, NodeId>)
    requires Wf(st) && Wf(st') && Entries(st, es) && Entries(st', es) && Agree(st, st', es)
    requires SameNames(st, st')
    ensures SplicedAll(st', es) == SplicedAll(st, es)
    decreases |es|
  {
    if es != [] {
      var c := es[0].1;
      SplicedAgree(st, st', es[1..]);
      assert LinksOk(st, c);
      ChildrenMapUnchanged(st, st', st.nodes[c].children);
    }
  }

  /** Pending record entries are entries, and younger than `node`. */
  lemma PendingEntries(st: Store, node: NodeId, es: OMap<Option<string>, NodeId>)
    requires Wf(st) && node in st.nodes && RecordPending(st, node, es)
    ensures Entries(st, es) && forall i | 0 <= i < |es| :: node < es[i].1
  {
    assert LinksOk(st, node);
  }

  /**
    The record-style loop over the children map `es` (lines 250-267). It
    records each `@k` entry as attribute `k` with its child's value, in map
    order (an attribute already present keeps its place); it leaves the value
    of the last `#` leaf entry on the node, or the old value when there is
    none; and it takes every entry out of the children once, adding the
    grandchildren that `#` entries with children pass up.
   */
  function RecordStyle(st: Store, node: NodeId, es: OMap<Option<string>, NodeId>): (r: Store)
    requires Wf(st) && node in st.nodes && RecordPending(st, node, es)
    ensures Touched(st, r, node, false)
    ensures r.nodes[node].attrs == PutAll(st.nodes[node].attrs, RecordedAttributes(st, es))
    ensures var i := LastTextLeaf(st, es);
            r.nodes[node].value == if i < 0 then st.nodes[node].value else st.nodes[es[i].1].value
    ensures multiset(r.nodes[node].children) + multiset(Values(es)) ==
            multiset(st.nodes[node].children) + multiset(SplicedAll(st, es))
    decreases |es|
  {
    if es == [] then
      assert Values(es) == [];
      st
    else
      var st' := RecordStep(st, node, es[0].0.value, es[0].1);
      RecordPendingStep(st, node, es);
      var r := RecordStyle(st', node, es[1..]);
      var n, n', n'' := st.nodes[node], st'.nodes[node], r.nodes[node];
      PendingEntries(st, node, es);
      TouchedAgree(st, st', node, es[1..]);
      KeptNames(st, st', node);
      AttributesStep(st, st', es, n.attrs, n'.attrs, n''.attrs);
      ValueStep(st, st', es, n.value, n'.value, n''.value);
      ChildrenStep(st, st', es, multiset(n.children), multiset(n'.children), multiset(n''.children));
      r
  }

  /** The attributes after the first step and the rest give those for all of `es`. */
  lemma AttributesStep(st: Store, st': Store, es: OMap<Option<string>, NodeId>, a0: Attrs, a1: Attrs, a2: Attrs)
    requires es != [] && Entries(st, es) && Entries(st', es[1..]) && Agree(st, st', es[1..])
    requires var (k, c) := (es[0].0.value, es[0].1);
             a1 == if k[0] == '#' then a0 else Put(a0, k[1..], st.nodes[c].value)
    requires a2 == PutAll(a1, RecordedAttributes(st', es[1..]))
    ensures a2 == PutAll(a0, RecordedAttributes(st, es))
  {
    var (k, c) := es[0];
    var rest := RecordedAttributes(st, es[1..]);
    AttributesAgree(st, st', es[1..]);
    if k.value[0] != '#' {
      PutAllCons(a0, (k.value[1..], st.nodes[c].value), rest);
    } else {
      assert RecordedAttributes(st, es) == rest;
    }
  }

  /** The value after the first step and the rest gives the value for all of `es`. */
  lemma ValueStep(st: Store, st': Store, es: OMap<Option<string>, NodeId>, v0: Option<string>, v1: Option<string>,
                  v2: Option<string>)
    requires es != [] && Entries(st, es) && Entries(st', es[1..]) && Agree(st, st', es[1..])
    requires v1 == if IsTextLeaf(st, es[0]) then st.nodes[es[0].1].value else v0
    requires v2 == var i := LastTextLeaf(st', es[1..]); if i < 0 then v1 else st'.nodes[es[1..][i].1].value
    ensures v2 == var i := LastTextLeaf(st, es); if i < 0 then v0 else st.nodes[es[i].1].value
  {
    LeafAgree(st, st', es[1..]);
  }

  /** The children after the first step and the rest give the children for all of `es`. */
  lemma ChildrenStep(st: Store, st': Store, es: OMap<Option<string>, NodeId>,
                     m0: multiset<NodeId>, m1: multiset<NodeId>, m2: multiset<NodeId>)
    requires Wf(st) && Wf(st') && SameNames(st, st')
    requires es != [] && Entries(st, es) && Entries(st', es[1..]) && Agree(st, st', es[1..])
    requires m1 + multiset{es[0].1} == m0 + multiset(Spliced(st, es[0].0.value, es[0].1))
    requires m2 + multiset(Values(es[1..])) == m1 + multiset(SplicedAll(st', es[1..]))
    ensures m2 + multiset(Values(es)) == m0 + multiset(SplicedAll(st, es))
  {
    SplicedAgree(st, st', es[1..]);
    var sp, sa := Spliced(st, es[0].0.value, es[0].1), SplicedAll(st, es[1..]);
    assert SplicedAll(st, es) == sp + sa;
    ValuesCons(es);
    Rebalance(m0, m1, m2, multiset{es[0].1}, multiset(Values(es[1..])), multiset(sp), multiset(sa));
  }

  lemma Rebalance<T>(m0: multiset<T>, m1: multiset<T>, m2: multiset<T>,
                     c: multiset<T>, v: multiset<T>, sp: multiset<T>, sa: multiset<T>)
    requires m1 + c == m0 + sp && m2 + v == m1 + sa
    ensures m2 + (c + v) == m0 + (sp + sa)
  {
    assert forall x :: (m2 + (c + v))[x] == (m0 + (sp + sa))[x] by {
      forall x ensures (m2 + (c + v))[x] == (m0 + (sp + sa))[x] {
        assert (m1 + c)[x] == (m0 + sp)[x] && (m2 + v)[x] == (m1 + sa)[x];
      }
    }
  }

  /** The entries after the first are still pending once the first has been handled. */
  lemma RecordPendingStep(st: Store, node: NodeId, es: OMap<Option<string>, NodeId>)
    requires Wf(st) && node in st.nodes && RecordPending(st, node, es) && es != []
    ensures RecordPending(RecordStep(st, node, es[0].0.value, es[0].1), node, es[1..])
  {
    var st' := RecordStep(st, node, es[0].0.value, es[0].1);
    var rest := es[1..];
    forall i | 0 <= i < |rest|
      ensures rest[i].1 in st'.nodes && st'.nodes[rest[i].1].name == rest[i].0
      ensures rest[i].1 in st'.nodes[node].children && IsValidXmlAttribute(rest[i].0)
    {
      assert rest[i] == es[i + 1];
      assert es[i + 1].0 != es[0].0;
    }
    assert DistinctKeys(rest) by {
      forall i, j | 0 <= i < j < |rest| ensures rest[i].0 != rest[j].0 {
        assert rest[i] == es[i + 1] && rest[j] == es[j + 1];
      }
    }
  }

  /**
    The fallback drops the child of the key `k` (lines 272-276, 278-280): an
    attribute-like key whose unprefixed form is also a key of the snapshot
    `before`, or a key that is not an identifier.
   */
  predicate Dropped(before: OMap<Option<string>, NodeId>, k: Option<string>)
  {
    if IsValidXmlAttribute(k) then Some(k.value[1..]) in Keys(before) else !IsValidXmlIdentifier(k)
  }

  /** The name the fallback leaves on the child of the key `k`: an attribute-like key loses its marker. */
  function NewName(before: OMap<Option<string>, NodeId>, k: Option<string>): Option<string>
  {
    if IsValidXmlAttribute(k) && Some(k.value[1..]) !in Keys(before) then Some(k.value[1..]) else k
  }

  /** A child the fallback keeps is named by an identifier. */
  lemma KeptIsIdentifier(before: OMap<Option<string>, NodeId>, k: Option<string>)
    requires !Dropped(before, k)
    ensures IsValidXmlIdentifier(NewName(before, k))
  {
    if IsValidXmlAttribute(k) {
      AttributeTailIsIdentifier(k.value);
    }
  }

  /** The children of the dropped entries, in visiting order. */
  function DroppedIds(before: OMap<Option<string>, NodeId>, es: OMap<Option<string>, NodeId>): seq<NodeId>
    decreases |es|
  {
    if es == [] then []
    else (if Dropped(before, es[0].0) then [es[0].1] else []) + DroppedIds(before, es[1..])
  }

  /** Every entry's node is still a child of `node`. */
  ghost predicate InChildren(st: Store, node: NodeId, es: OMap<Option<string>, NodeId>)
    requires node in st.nodes
  {
    forall i | 0 <= i < |es| :: es[i].1 in st.nodes[node].children
  }

  /** `node.removeChild(c)` as the fallback uses it. */
  lemma DropFacts(st: Store, node: NodeId, c: NodeId)
    requires Wf(st) && node in st.nodes && c in st.nodes && node < c
    ensures var r := WithoutChild(st, node, c).0;
            && Touched(st, r, node, true)
            && r.nodes[node] == st.nodes[node].(children := r.nodes[node].children)
            && (c in st.nodes[node].children ==>
                  multiset(r.nodes[node].children) + multiset{c} == multiset(st.nodes[node].children))
            && (forall x | x in st.nodes :: r.nodes[x].name == st.nodes[x].name)
            && (forall x | x in st.nodes[node].children && x != c :: x in r.nodes[node].children)
  {
    WithoutChildTouched(st, node, c);
    StillChildren(st, node, c);
    if c in st.nodes[node].children {
      RemovedOnce(st, node, c);
    }
  }

  /** `c.setName(n)` as the fallback uses it. */
  lemma RenameFacts(st: Store, node: NodeId, c: NodeId, n: Option<string>)
    requires Wf(st) && node in st.nodes && c in st.nodes && node < c
    ensures var r := WithName(st, c, n);
            && Touched(st, r, node, true)
            && r.nodes[node] == st.nodes[node]
            && r.nodes[c].name == n
            && (forall x | x in st.nodes && x != c :: r.nodes[x].name == st.nodes[x].name)
  {
    WithNameTouched(st, node, c, n);
  }

  /**
    One iteration of the fallback loop (lines 271-281) for the entry `k -> c`
    of the snapshot `before`: a dropped child is removed, an attribute-like
    child that is kept loses its marker, and an identifier is left alone.
   */
  function FallbackStep(st: Store, node: NodeId, before: OMap<Option<string>, NodeId>,
                        k: Option<string>, c: NodeId): (r: Store)
    requires Wf(st) && node in st.nodes && c in st.nodes && node < c && st.nodes[c].name == k
    ensures Touched(st, r, node, true)
    ensures r.nodes[node] == st.nodes[node].(children := r.nodes[node].children)
    ensures c in st.nodes[node].children ==>
              multiset(r.nodes[node].children) + (if Dropped(before, k) then multiset{c} else multiset{}) ==
              multiset(st.nodes[node].children)
    ensures r.nodes[c].name == NewName(before, k)
    ensures forall x | x in st.nodes && x != c :: r.nodes[x].name == st.nodes[x].name
    ensures forall x | x in st.nodes[node].children && x != c :: x in r.nodes[node].children
  {
    if IsValidXmlAttribute(k) then
      if Some(k.value[1..]) in Keys(before) then
        DropFacts(st, node, c);
        WithoutChild(st, node, c).0
      else
        RenameFacts(st, node, c, Some(st.nodes[c].name.value[1..]));
        WithName(st, c, Some(st.nodes[c].name.value[1..]))
    else if !IsValidXmlIdentifier(k) then
      DropFacts(st, node, c);
      WithoutChild(st, node, c).0
    else st
  }

  /**
    The fallback loop over the entries `es` still to visit of the snapshot
    `before`. Only the children of `node` and the names of the entries'
    nodes change: the dropped entries are taken out of the children once
    each, and every entry's node ends with its new name.
   */
  function FallbackLoop(st: Store, node: NodeId, before: OMap<Option<string>, NodeId>,
                        es: OMap<Option<string>, NodeId>): (r: Store)
    requires FallbackReady(st, node, es)
    ensures Touched(st, r, node, true)
    ensures r.nodes[node] == st.nodes[node].(children := r.nodes[node].children)
    ensures multiset(r.nodes[node].children) + multiset(DroppedIds(before, es)) ==
            multiset(st.nodes[node].children)
    ensures forall i | 0 <= i < |es| :: r.nodes[es[i].1].name == NewName(before, es[i].0)
    ensures forall x | x in st.nodes && x !in Values(es) :: r.nodes[x].name == st.nodes[x].name
    decreases |es|
  {
    if es == [] then
      assert Values(es) == [];
      st
    else
      var st' := FallbackStep(st, node, before, es[0].0, es[0].1);
      FallbackPendingStep(st, node, before, es);
      var r := FallbackLoop(st', node, before, es[1..]);
      DroppedStep(before, es, multiset(st.nodes[node].children), multiset(st'.nodes[node].children),
                  multiset(r.nodes[node].children));
      NamesStep(st, st', r, before, es);
      r
  }

  /** The entries `es` still to visit by the fallback loop: pending, children of `node` and younger. */
  ghost predicate FallbackReady(st: Store, node: NodeId, es: OMap<Option<string>, NodeId>)
  {
    && Wf(st) && node in st.nodes && Pending(st, es) && InChildren(st, node, es)
    && forall i | 0 <= i < |es| :: node < es[i].1
  }

  /** The entries after the first are still pending once the first has been handled. */
  lemma FallbackPendingStep(st: Store, node: NodeId, before: OMap<Option<string>, NodeId>,
                            es: OMap<Option<string>, NodeId>)
    requires FallbackReady(st, node, es) && es != []
    ensures FallbackReady(FallbackStep(st, node, before, es[0].0, es[0].1), node, es[1..])
  {
    var st' := FallbackStep(st, node, before, es[0].0, es[0].1);
    var rest := es[1..];
    forall i | 0 <= i < |rest|
      ensures rest[i].1 in st'.nodes && st'.nodes[rest[i].1].name == rest[i].0
      ensures rest[i].1 in st'.nodes[node].children
    {
      assert rest[i] == es[i + 1];
      assert es[i + 1].0 != es[0].0;
    }
    assert DistinctKeys(rest) by {
      forall i, j | 0 <= i < j < |rest| ensures rest[i].0 != rest[j].0 {
        assert rest[i] == es[i + 1] && rest[j] == es[j + 1];
      }
    }
  }

  /** The children after the first step and the rest give the children for all of `es`. */
  lemma DroppedStep(before: OMap<Option<string>, NodeId>, es: OMap<Option<string>, NodeId>,
                    m0: multiset<NodeId>, m1: multiset<NodeId>, m2: multiset<NodeId>)
    requires es != []
    requires m1 + (if Dropped(before, es[0].0) then multiset{es[0].1} else multiset{}) == m0
    requires m2 + multiset(DroppedIds(before, es[1..])) == m1
    ensures m2 + multiset(DroppedIds(before, es)) == m0
  {
    var d: seq<NodeId> := if Dropped(before, es[0].0) then [es[0].1] else [];
    assert DroppedIds(before, es) == d + DroppedIds(before, es[1..]);
  }

  /** The names after the first step and the rest give the names for all of `es`. */
  lemma NamesStep(st: Store, st': Store, r: Store, before: OMap<Option<string>, NodeId>,
                  es: OMap<Option<string>, NodeId>)
    requires Pending(st, es) && es != []
    requires st'.nodes.Keys == st.nodes.Keys && r.nodes.Keys == st.nodes.Keys
    requires var (k, c) := es[0];
             && st'.nodes[c].name == NewName(before, k)
             && (forall x | x in st.nodes && x != c :: st'.nodes[x].name == st.nodes[x].name)
    requires forall i | 0 <= i < |es[1..]| :: r.nodes[es[1..][i].1].name == NewName(before, es[1..][i].0)
    requires forall x | x in st'.nodes && x !in Values(es[1..]) :: r.nodes[x].name == st'.nodes[x].name
    ensures forall i | 0 <= i < |es| :: r.nodes[es[i].1].name == NewName(before, es[i].0)
    ensures forall x | x in st.nodes && x !in Values(es) :: r.nodes[x].name == st.nodes[x].name
  {
    var (k, c) := es[0];
    var rest := es[1..];
    ValuesCons(es);
    assert c !in Values(rest) by {
      forall i | 0 <= i < |rest| ensures Values(rest)[i] != c {
        assert rest[i] == es[i + 1];
        assert es[i + 1].0 != es[0].0;
      }
    }
    forall i | 0 <= i < |es| ensures r.nodes[es[i].1].name == NewName(before, es[i].0) {
      if i > 0 {
        assert es[i] == rest[i - 1];
      }
    }
  }

  /**
    Lines 269-285: the fallback loop over the snapshot of the children map,
    then an empty value for a node left without children. The dropped
    entries are each taken out of the children once, every entry's child
    ends with its new name, and the attributes are kept.
   */
  function Fallback(st: Store, node: NodeId): (r: Store)
    requires Wf(st) && node in st.nodes
    ensures Touched(st, r, node, true)
    ensures var m := ChildrenMap(st, st.nodes[node].children);
            && multiset(r.nodes[node].children) + multiset(DroppedIds(m, m)) == multiset(st.nodes[node].children)
            && (forall i | 0 <= i < |m| :: m[i].1 in r.nodes && r.nodes[m[i].1].name == NewName(m, m[i].0))
    ensures r.nodes[node].value == if r.nodes[node].children == [] then Some("") else st.nodes[node].value
    ensures r.nodes[node].attrs == st.nodes[node].attrs
  {
    var m := ChildrenMap(st, st.nodes[node].children);
    FallbackSnapshot(st, node);
    var s := FallbackLoop(st, node, m, m);
    if s.nodes[node].children == [] then
      var r := WithValue(s, node, Some(""));
      OwnFieldsTouched(s, node, r);
      TouchedTrans(st, s, r, node, true);
      r
    else s
  }

  /** The snapshot of the children map is a pending list of children of `node`. */
  lemma FallbackSnapshot(st: Store, node: NodeId)
    requires Wf(st) && node in st.nodes
    ensures var m := ChildrenMap(st, st.nodes[node].children);
            FallbackReady(st, node, m)
  {
    var m := ChildrenMap(st, st.nodes[node].children);
    ChildrenMapKeys(st, st.nodes[node].children);
    assert forall i | 0 <= i < |m| :: m[i] in m;
    assert LinksOk(st, node);
  }

  /** After the fallback, every snapshot entry that was not dropped names its child by an identifier. */
  lemma FallbackKeepsIdentifiers(st: Store, node: NodeId)
    requires Wf(st) && node in st.nodes
    ensures var m := ChildrenMap(st, st.nodes[node].children);
            var r := Fallback(st, node);
            forall i | 0 <= i < |m| && !Dropped(m, m[i].0) ::
              m[i].1 in r.nodes && IsValidXmlIdentifier(r.nodes[m[i].1].name)
  {
    var m := ChildrenMap(st, st.nodes[node].children);
    forall i | 0 <= i < |m| && !Dropped(m, m[i].0) {
      KeptIsIdentifier(m, m[i].0);
    }
  }

  /** Lines 249-285: the rewrite of a nested object's node once its members are read. */
  function Reconcile(st: Store, node: NodeId): (r: Store)
    requires Wf(st) && node in st.nodes
    ensures Touched(st, r, node, true)
  {
    if IsXmlAttributes(st, node) then
      RecordSnapshot(st, node);
      RecordStyle(st, node, ChildrenMap(st, st.nodes[node].children))
    else Fallback(st, node)
  }

  /** A record-style node's children map is a pending list of its children with attribute names. */
  lemma RecordSnapshot(st: Store, node: NodeId)
    requires Wf(st) && node in st.nodes && IsXmlAttributes(st, node)
    ensures RecordPending(st, node, ChildrenMap(st, st.nodes[node].children))
  {
    var m := ChildrenMap(st, st.nodes[node].children);
    ChildrenMapKeys(st, st.nodes[node].children);
    IsXmlAttributesMeaning(st, node);
    assert forall i | 0 <= i < |m| :: m[i] in m;
  }

  /** Lines 341-355: `isXmlAttributes` on the arena. */
  method CheckXmlAttributes(arena: Arena, node: NodeId) returns (b: bool)
    requires arena.Valid() && node in arena.nodes
    ensures b == IsXmlAttributes(arena.State(), node)
  {
    var m := arena.GetChildrenMap(node);
    ChildrenMapKeys(arena.State(), arena.nodes[node].children);
    if Some(TextKey(arena.nodes[node].name)) !in Keys(m) {
      return false;
    }
    b := CheckEntries(arena, m);
  }

  /** Lines 347-353: the loop over the entries, returning false at the first that fails. */
  method CheckEntries(arena: Arena, m: OMap<Option<string>, NodeId>) returns (b: bool)
    requires forall i | 0 <= i < |m| :: m[i].1 in arena.nodes
    ensures b == EntriesAreAttributes(arena.State(), m)
  {
    ghost var st := arena.State();
    for i := 0 to |m|
      invariant EntriesAreAttributes(st, m) == EntriesAreAttributes(st, m[i..])
    {
      assert m[i..][0] == m[i] && m[i..][1..] == m[i + 1..];
      var (k, c) := m[i];
      if !IsValidXmlAttribute(k) {
        return false;
      }
      var hasChildren := arena.HasChildren(c);
      if k.value[1] == '@' && hasChildren {
        return false;
      }
    }
    return true;
  }

  /** The ids `cs` can be added to `node` one by one: each is a node younger than `node`. */
  ghost predicate Attachable(st: Store, node: NodeId, cs: seq<NodeId>)
  {
    Wf(st) && node in st.nodes && forall i | 0 <= i < |cs| :: cs[i] in st.nodes && node < cs[i]
  }

  /** `AddAll` takes the ids one at a time. */
  lemma AddAllStep(st: Store, node: NodeId, cs: seq<NodeId>, j: nat)
    requires j < |cs| && Attachable(st, node, cs[j..])
    ensures cs[j] in st.nodes && node < cs[j]
    ensures Attachable(WithChild(st, node, cs[j]), node, cs[j + 1..])
    ensures AddAll(st, node, cs[j..]) == AddAll(WithChild(st, node, cs[j]), node, cs[j + 1..])
  {
    assert cs[j..][0] == cs[j] && cs[j..][1..] == cs[j + 1..];
    WithChildTouched(st, node, cs[j]);
  }

  /** Lines 256-258 in place: `node.addChild(subChild)` for each child passed up, in order. */
  method AddAllInPlace(arena: Arena, node: NodeId, cs: seq<NodeId>)
    requires arena.Valid() && node in arena.nodes
    requires forall i | 0 <= i < |cs| :: cs[i] in arena.nodes && node < cs[i]
    modifies arena
    ensures arena.Valid() && arena.State() == AddAll(old(arena.State()), node, cs)
  {
    ghost var goal := AddAll(arena.State(), node, cs);
    assert cs[0..] == cs;
    for j := 0 to |cs|
      invariant arena.Valid() && Attachable(arena.State(), node, cs[j..])
      invariant AddAll(arena.State(), node, cs[j..]) == goal
    {
      AddAllStep(arena.State(), node, cs, j);
      arena.AddChild(node, cs[j]);
    }
  }

  /** One iteration of the record-style loop (lines 252-265) on the arena. */
  method RecordStepInPlace(arena: Arena, node: NodeId, k: string, c: NodeId)
    requires arena.Valid() && node in arena.nodes && c in arena.nodes[node].children && 1 <= |k|
    requires arena.nodes[c].name.Some? && 1 <= |arena.nodes[c].name.value|
    modifies arena
    ensures arena.Valid() && arena.State() == RecordStep(old(arena.State()), node, k, c)
  {
    RecordRemoval(arena.State(), node, k, c);
    var _ := arena.RemoveChild(node, c);
    RecordStepOnInPlace(arena, node, k, c);
  }

  /** The branch of a record-style step once `c` has been removed, on the arena. */
  method RecordStepOnInPlace(arena: Arena, node: NodeId, k: string, c: NodeId)
    requires arena.Valid() && node in arena.nodes && c in arena.nodes && node < c && 1 <= |k|
    requires arena.nodes[c].name.Some? && 1 <= |arena.nodes[c].name.value|
    modifies arena
    ensures arena.Valid() && arena.State() == RecordStepOn(old(arena.State()), node, k, c)
  {
    var hasChildren := arena.HasChildren(c);
    if k[0] == '#' && hasChildren {
      SplicedInPlace(arena, node, c);
    } else if k[0] == '#' {
      arena.SetValue(node, arena.nodes[c].value);
    } else {
      arena.SetAttribute(node, arena.nodes[c].name.value[1..], arena.nodes[c].value);
    }
  }

  /** Lines 256-258 on the arena: the values of the child's children map appended to `node`. */
  method SplicedInPlace(arena: Arena, node: NodeId, c: NodeId)
    requires arena.Valid() && node in arena.nodes && c in arena.nodes && node < c
    requires arena.nodes[c].children != []
    modifies arena
    ensures arena.Valid() && arena.State() == SplicedInto(old(arena.State()), node, c)
  {
    ghost var st := arena.State();
    var sub := arena.GetChildrenMap(c);
    SplicedYounger(st, node, "#", c);
    assert Values(sub) == Spliced(st, "#", c);
    AddAllInPlace(arena, node, Values(sub));
  }

  /** The record-style loop (lines 251-266) over the entries `es`, on the arena. */
  method RecordStyleInPlace(arena: Arena, node: NodeId, es: OMap<Option<string>, NodeId>)
    requires arena.Valid() && node in arena.nodes && RecordPending(arena.State(), node, es)
    modifies arena
    ensures arena.Valid() && arena.State() == RecordStyle(old(arena.State()), node, es)
  {
    ghost var goal := RecordStyle(arena.State(), node, es);
    assert es[0..] == es;
    for i := 0 to |es|
      invariant arena.Valid() && node in arena.nodes && RecordPending(arena.State(), node, es[i..])
      invariant RecordStyle(arena.State(), node, es[i..]) == goal
    {
      var rest := es[i..];
      assert rest[0] == es[i] && rest[1..] == es[i + 1..];
      RecordPendingStep(arena.State(), node, rest);
      RecordStepInPlace(arena, node, es[i].0.value, es[i].1);
    }
  }

  /** One iteration of the fallback loop (lines 272-280) on the arena. */
  method FallbackStepInPlace(arena: Arena, node: NodeId, before: OMap<Option<string>, NodeId>,
                             k: Option<string>, c: NodeId)
    requires arena.Valid() && node in arena.nodes && c in arena.nodes && node < c && arena.nodes[c].name == k
    modifies arena
    ensures arena.Valid() && arena.State() == FallbackStep(old(arena.State()), node, before, k, c)
  {
    if IsValidXmlAttribute(k) {
      if Some(k.value[1..]) in Keys(before) {
        var _ := arena.RemoveChild(node, c);
      } else {
        arena.SetName(c, Some(arena.nodes[c].name.value[1..]));
      }
    } else if !IsValidXmlIdentifier(k) {
      var _ := arena.RemoveChild(node, c);
    }
  }

  /** The fallback loop visits the entry at `i` and then those after it. */
  lemma FallbackLoopAt(st: Store, node: NodeId, before: OMap<Option<string>, NodeId>,
                       es: OMap<Option<string>, NodeId>, i: nat)
    requires i < |es| && FallbackReady(st, node, es[i..])
    ensures es[i].1 in st.nodes && node < es[i].1 && st.nodes[es[i].1].name == es[i].0
    ensures var st' := FallbackStep(st, node, before, es[i].0, es[i].1);
            && FallbackReady(st', node, es[i + 1..])
            && FallbackLoop(st, node, before, es[i..]) == FallbackLoop(st', node, before, es[i + 1..])
  {
    var rest := es[i..];
    assert rest[0] == es[i] && rest[1..] == es[i + 1..];
    FallbackPendingStep(st, node, before, rest);
  }

  /** The fallback loop (lines 271-281) over the entries `es` of the snapshot `before`, on the arena. */
  method FallbackLoopInPlace(arena: Arena, node: NodeId, before: OMap<Option<string>, NodeId>,
                             es: OMap<Option<string>, NodeId>)
    requires arena.Valid() && FallbackReady(arena.State(), node, es)
    modifies arena
    ensures arena.Valid() && arena.State() == FallbackLoop(old(arena.State()), node, before, es)
  {
    ghost var goal := FallbackLoop(arena.State(), node, before, es);
    assert es[0..] == es;
    for i := 0 to |es|
      invariant arena.Valid() && FallbackReady(arena.State(), node, es[i..])
      invariant FallbackLoop(arena.State(), node, before, es[i..]) == goal
    {
      FallbackLoopAt(arena.State(), node, before, es, i);
      FallbackStepInPlace(arena, node, before, es[i].0, es[i].1);
    }
  }

  /** Lines 269-285 on the arena: the fallback loop over a snapshot, then the empty value. */
  method FallbackInPlace(arena: Arena, node: NodeId)
    requires arena.Valid() && node in arena.nodes
    modifies arena
    ensures arena.Valid() && arena.State() == Fallback(old(arena.State()), node)
  {
    var m := arena.GetChildrenMap(node);
    FallbackSnapshot(arena.State(), node);
    FallbackLoopInPlace(arena, node, m, m);
    var hasChildren := arena.HasChildren(node);
    if !hasChildren {
      arena.SetValue(node, Some(""));
    }
  }

  /** Lines 249-285 on the arena. */
  method ReconcileInPlace(arena: Arena, node: NodeId)
    requires arena.Valid() && node in arena.nodes
    modifies arena
    ensures arena.Valid() && arena.State() == Reconcile(old(arena.State()), node)
  {
    var isRecord := CheckXmlAttributes(arena, node);
    if isRecord {
      var m := arena.GetChildrenMap(node);
      RecordSnapshot(arena.State(), node);
      RecordStyleInPlace(arena, node, m);
    } else {
      FallbackInPlace(arena, node);
    }
  }
}
