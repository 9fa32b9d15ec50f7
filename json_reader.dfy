/**
  `JsonReader` (src/converter/Main1.java:201-331): a cursor-based reader for
  objects whose members are strings, unsigned numbers, `null` or nested
  objects. Each member becomes a child node named after the member; a nested
  object is read into its node and then rewritten by the reconciliation step
  before the node is attached to its parent.

  The regular expressions are anchored at the cursor: each scanner below
  returns the end of the match, or nothing when the pattern does not match.
 */
module JsonReader {
  import opened Wrappers
  import opened OrderedMaps
  import opened Text
  import opened Tree
  import opened JsonRewrite

  /** `^\s*\{\s*` at `i`: the position after the brace and the spaces that follow it. */
  function OpenObject(s: string, i: nat): (r: Option<nat>)
    requires i <= |s|
    ensures r.Some? ==> i < r.value <= |s|
    ensures r.Some? <==> SkipSpaces(s, i) < |s| && s[SkipSpaces(s, i)] == '{'
  {
    var j := SkipSpaces(s, i);
    if j < |s| && s[j] == '{' then Some(SkipSpaces(s, j + 1)) else None
  }

  /** `isJson(src, start)` (lines 321-331): `^\s*\{\s*["}]` at `start`. */
  predicate IsJson(s: string, i: nat)
    requires i <= |s|
  {
    match OpenObject(s, i)
    case None => false
    case Some(k) => k < |s| && (s[k] == '"' || s[k] == '}')
  }

  /** Spaces from `i` to `j`, a `{` at `j`, spaces up to `k`, then a quote or a `}` at `k`. */
  ghost predicate JsonStartAt(s: string, i: nat, j: nat, k: nat)
  {
    && i <= j < k < |s|
    && AllSpaces(s, i, j) && s[j] == '{' && AllSpaces(s, j + 1, k)
    && (s[k] == '"' || s[k] == '}')
  }

  /** The sniff holds exactly when some split of the text matches the pattern, however the spaces are taken. */
  lemma IsJsonMeaning(s: string, i: nat)
    requires i <= |s|
    ensures IsJson(s, i) <==> exists j: nat, k: nat :: JsonStartAt(s, i, j, k)
  {
    if IsJson(s, i) {
      var j := SkipSpaces(s, i);
      SkipWhileAll(s, i, IsSpace);
      SkipWhileAll(s, j + 1, IsSpace);
      assert JsonStartAt(s, i, j, SkipSpaces(s, j + 1));
    }
    if exists j: nat, k: nat :: JsonStartAt(s, i, j, k) {
      var j: nat, k: nat :| JsonStartAt(s, i, j, k);
      SkipWhileExact(s, i, j, IsSpace);
      SkipWhileExact(s, j + 1, k, IsSpace);
    }
  }

  /** A quote at `q` that `\s*:` follows. */
  predicate ColonAfter(s: string, q: nat)
  {
    q < |s| && s[q] == '"' && var c := SkipSpaces(s, q + 1); c < |s| && s[c] == ':'
  }

  /**
    The lazy `(.*?)"\s*:` from `from`: the first quote followed by a colon.
    Because `.` also matches quotes here, a quote not followed by a colon
    becomes part of the name.
   */
  function NameEnd(s: string, from: nat): (r: Option<nat>)
    requires from <= |s|
    ensures r.Some? ==> from <= r.value < |s| && ColonAfter(s, r.value)
    ensures forall q | from <= q < |s| && (r.None? || q < r.value) :: !ColonAfter(s, q)
    decreases |s| - from
  {
    match FindChar(s, from, '"')
    case None => None
    case Some(q) => if ColonAfter(s, q) then Some(q) else NameEnd(s, q + 1)
  }

  /** `^\s*"(.*?)"\s*:\s*` at `i` (line 205): group 1 and the match end. */
  function MemberName(s: string, i: nat): (r: Option<(string, nat)>)
    requires i <= |s|
    ensures r.Some? ==> i < r.value.1 <= |s|
  {
    var j := SkipSpaces(s, i);
    if j < |s| && s[j] == '"' then
      match NameEnd(s, j + 1)
      case None => None
      case Some(q) => Some((s[j + 1..q], SkipSpaces(s, SkipSpaces(s, q + 1) + 1)))
    else None
  }

  /** A member name is read exactly when a quote opens and some later quote is followed by a colon. */
  lemma MemberNameFound(s: string, i: nat)
    requires i <= |s|
    ensures var j := SkipSpaces(s, i);
            MemberName(s, i).Some? <==>
              j < |s| && s[j] == '"' && exists q | j + 1 <= q < |s| :: ColonAfter(s, q)
  {
    var j := SkipSpaces(s, i);
    if j < |s| && s[j] == '"' {
      var r := NameEnd(s, j + 1);
      if r.Some? {
        assert ColonAfter(s, r.value);
      }
    }
  }

  /**
    The name read at `i` is the text after the opening quote up to the first
    quote that a colon follows; the cursor then passes the colon and the
    spaces after it.
   */
  lemma MemberNameMeaning(s: string, i: nat)
    requires i <= |s| && MemberName(s, i).Some?
    ensures var j := SkipSpaces(s, i);
            var m := MemberName(s, i).value;
            var q := j + 1 + |m.0|;
            && s[j] == '"' && q < |s| && s[j + 1..q] == m.0 && ColonAfter(s, q)
            && (forall q' | j + 1 <= q' < q :: !ColonAfter(s, q'))
            && m.1 == SkipSpaces(s, SkipSpaces(s, q + 1) + 1)
  {
    var j := SkipSpaces(s, i);
    var q := NameEnd(s, j + 1).value;
    assert MemberName(s, i).value == (s[j + 1..q], SkipSpaces(s, SkipSpaces(s, q + 1) + 1));
  }

  /** The value of a member: a string, a number as written, or `null`. */
  datatype Scalar = Str(text: string) | Num(text: string) | Null

  /** What `setValue` receives for a scalar (lines 293-300). */
  function ScalarText(v: Scalar): Option<string>
  {
    match v
    case Str(t) => Some(t)
    case Num(t) => Some(t)
    case Null => None
  }

  /** `"(.*?)"` at `j`: the text up to the first closing quote, and the position after it. */
  function StringAt(s: string, j: nat): (r: Option<(string, nat)>)
    requires j <= |s|
    ensures r.Some? <==> j < |s| && s[j] == '"' && FindChar(s, j + 1, '"').Some?
    ensures r.Some? ==>
      var (t, e) := r.value;
      && j + 2 <= e <= |s| && s[j] == '"' && s[e - 1] == '"'
      && t == s[j + 1..e - 1] && '"' !in t
  {
    if j < |s| && s[j] == '"' then
      match FindChar(s, j + 1, '"')
      case None => None
      case Some(q) =>
        var t := s[j + 1..q];
        assert forall k | 0 <= k < |t| :: t[k] == s[j + 1 + k];
        Some((t, q + 1))
    else None
  }

  /** `\d+\.?\d*` at `j`: the longest run of digits, optionally a dot and more digits. */
  function NumberAt(s: string, j: nat): (r: Option<(string, nat)>)
    requires j <= |s|
    ensures r.Some? <==> j < |s| && IsDigit(s[j])
    ensures r.Some? ==>
      var (t, e) := r.value;
      && j < e <= |s| && t == s[j..e] && IsDigit(t[0])
      && (forall k | 0 <= k < |t| :: IsDigit(t[k]) || t[k] == '.')
      && (forall k, l | 0 <= k < l < |t| :: !(t[k] == '.' && t[l] == '.'))
      && (e < |s| ==> !IsDigit(s[e]) && (s[e] == '.' ==> '.' in t))
  {
    var d := SkipWhile(s, j, IsDigit);
    if d == j then None
    else
      SkipWhileAll(s, j, IsDigit);
      var e := if d < |s| && s[d] == '.' then (SkipWhileAll(s, d + 1, IsDigit); SkipWhile(s, d + 1, IsDigit)) else d;
      var t := s[j..e];
      assert forall k | 0 <= k < |t| :: t[k] == s[j + k];
      assert d < e ==> t[d - j] == '.';
      Some((t, e))
  }

  /** `,?` at `e`. */
  function OptComma(s: string, e: nat): (r: nat)
    requires e <= |s|
    ensures r <= |s| && (r == e || r == e + 1)
    ensures r == e + 1 <==> e < |s| && s[e] == ','
  {
    if e < |s| && s[e] == ',' then e + 1 else e
  }

  /**
    `^\s*("(.*?)"|(\d+\.?\d*)|(null)),?` at `i` (line 206): the alternatives
    in order, then an optional comma, which makes commas between members
    optional.
   */
  function ScanValue(s: string, i: nat): (r: Option<(Scalar, nat)>)
    requires i <= |s|
    ensures r.Some? ==> i < r.value.1 <= |s|
  {
    var j := SkipSpaces(s, i);
    match StringAt(s, j)
    case Some((t, e)) => Some((Str(t), OptComma(s, e)))
    case None =>
      match NumberAt(s, j)
      case Some((t, e)) => Some((Num(t), OptComma(s, e)))
      case None => if At(s, j, "null") then Some((Null, OptComma(s, j + 4))) else None
  }

  /**
    A value is rejected exactly when what follows the spaces is not a closed
    string, does not start with a digit and is not `null`: `true`, `-1`,
    `[` and an unterminated string all fail.
   */
  lemma ScanValueRejects(s: string, i: nat)
    requires i <= |s|
    ensures var j := SkipSpaces(s, i);
            ScanValue(s, i).None? <==>
              || j == |s|
              || (&& !IsDigit(s[j]) && !At(s, j, "null")
                  && (s[j] == '"' ==> FindChar(s, j + 1, '"').None?))
  {
  }

  /** A value that starts with a quote is a string whose text is everything up to the next quote. */
  lemma ScanString(s: string, i: nat)
    requires i <= |s|
    requires var j := SkipSpaces(s, i); j < |s| && s[j] == '"' && FindChar(s, j + 1, '"').Some?
    ensures var j := SkipSpaces(s, i);
            var q := FindChar(s, j + 1, '"').value;
            ScanValue(s, i) == Some((Str(s[j + 1..q]), OptComma(s, q + 1)))
  {
    var j := SkipSpaces(s, i);
    var q := FindChar(s, j + 1, '"').value;
    assert StringAt(s, j) == Some((s[j + 1..q], q + 1));
  }

  /**
    A value that starts with a digit is a number whose text is the longest
    `\d+\.?\d*` there (see `NumberAt`); a string is never tried past the
    digit.
   */
  lemma ScanNumber(s: string, i: nat)
    requires i <= |s|
    requires var j := SkipSpaces(s, i); j < |s| && IsDigit(s[j])
    ensures var j := SkipSpaces(s, i);
            NumberAt(s, j).Some? &&
            var (t, e) := NumberAt(s, j).value;
            ScanValue(s, i) == Some((Num(t), OptComma(s, e)))
  {
  }

  /** A value `null` after the spaces is the null scalar, and the match ends after it and an optional comma. */
  lemma ScanNull(s: string, i: nat)
    requires i <= |s|
    requires At(s, SkipSpaces(s, i), "null")
    ensures ScanValue(s, i) == Some((Null, OptComma(s, SkipSpaces(s, i) + 4)))
  {
    var j := SkipSpaces(s, i);
    assert s[j] == s[j..j + 4][0] == 'n';
  }

  /** `^\s*}\s*,?` at `i` (line 204): the end of the match. */
  function CloseObject(s: string, i: nat): (r: Option<nat>)
    requires i <= |s|
    ensures r.Some? ==> i < r.value <= |s|
    ensures r.Some? <==> SkipSpaces(s, i) < |s| && s[SkipSpaces(s, i)] == '}'
  {
    var j := SkipSpaces(s, i);
    if j < |s| && s[j] == '}' then Some(OptComma(s, SkipSpaces(s, j + 1))) else None
  }

  /**
    What reading under `p` leaves untouched: old nodes other than `p` are
    unchanged, `p` changes only in its children, its old children come
    first and every child added is a new node.
   */
  ghost predicate Extended(st: Store, st': Store, p: NodeId)
    requires p in st.nodes
  {
    && Wf(st') && st.next <= st'.next && st.nodes.Keys <= st'.nodes.Keys
    && (forall x | x in st'.nodes && x !in st.nodes :: st.next <= x)
    && (forall x | x in st.nodes && x != p :: st'.nodes[x] == st.nodes[x])
    && st'.nodes[p] == st.nodes[p].(children := st'.nodes[p].children)
    && st.nodes[p].children <= st'.nodes[p].children
    && (forall j | |st.nodes[p].children| <= j < |st'.nodes[p].children| ::
          st'.nodes[p].children[j] !in st.nodes)
  }

  /** What reading a member's value leaves: other old nodes unchanged, the member keeps its name and parent. */
  ghost predicate Settled(st: Store, st': Store, node: NodeId)
    requires node in st.nodes
  {
    && Wf(st') && st.next <= st'.next && st.nodes.Keys <= st'.nodes.Keys
    && (forall x | x in st'.nodes && x !in st.nodes :: st.next <= x)
    && (forall x | x in st.nodes && x != node :: st'.nodes[x] == st.nodes[x])
    && st'.nodes[node].name == st.nodes[node].name
    && st'.nodes[node].parent == st.nodes[node].parent
  }

  lemma ExtendedTrans(st0: Store, st1: Store, st2: Store, p: NodeId)
    requires p in st0.nodes && Extended(st0, st1, p) && Extended(st1, st2, p)
    ensures Extended(st0, st2, p)
  {
    var c0, c1, c2 := st0.nodes[p].children, st1.nodes[p].children, st2.nodes[p].children;
    forall j | |c0| <= j < |c2| ensures c2[j] !in st0.nodes {
      if j < |c1| {
        assert c2[j] == c1[j];
      }
    }
  }

  /** A nested object read into the newest node and then reconciled settles that node. */
  lemma ReconcileSettles(st: Store, st': Store, node: NodeId)
    requires Wf(st) && node in st.nodes && node + 1 == st.next && Extended(st, st', node)
    ensures Settled(st, Reconcile(st', node), node)
  {
    var r := Reconcile(st', node);
    forall x | x in st.nodes && x != node ensures r.nodes[x] == st.nodes[x] {
      assert x < node;
      assert r.nodes[x] == st'.nodes[x];
    }
  }

  /** Attaching the member `node`, created at `st.next`, to `parent` extends `parent`. */
  lemma MemberAttached(st: Store, st1: Store, st2: Store, parent: NodeId, node: NodeId)
    requires Wf(st) && parent in st.nodes && node == st.next
    requires Wf(st1) && st1.next == st.next + 1 && node in st1.nodes && st1.nodes == st.nodes[node := st1.nodes[node]]
    requires Settled(st1, st2, node)
    ensures parent in st2.nodes && node in st2.nodes && parent < node
    ensures var st3 := WithChild(st2, parent, node);
            && Extended(st, st3, parent)
            && st3.nodes[parent].children == st.nodes[parent].children + [node]
  {
    var st3 := WithChild(st2, parent, node);
    assert st3.nodes[parent] == st.nodes[parent].(children := st.nodes[parent].children + [node]);
    forall x | x in st.nodes && x != parent ensures st3.nodes[x] == st.nodes[x] {
      assert st2.nodes[x] == st1.nodes[x];
    }
    forall x | x in st3.nodes && x !in st.nodes ensures st.next <= x {
      if x in st1.nodes {
        assert x == node;
      }
    }
  }

  /**
    `readObject` (lines 217-319) under `parent` from `start`: when no object
    opens there, nothing is read and the cursor stays; otherwise the members
    and the closing brace are read.
   */
  function ReadObject(src: string, st: Store, parent: NodeId, start: nat): (r: Result<(Store, nat)>)
    requires start <= |src| && Wf(st) && parent in st.nodes
    ensures r.Ok? ==> start <= r.value.1 <= |src| && Extended(st, r.value.0, parent)
    ensures r.Err? ==> r.error != EnclosingTagExpected
    ensures OpenObject(src, start).None? ==> r == Ok((st, start))
    decreases |src| - start, 2
  {
    match OpenObject(src, start)
    case None => Ok((st, start))
    case Some(index) => Members(src, st, parent, index)
  }

  /**
    The loop at lines 243-311 from `index`: each member is created as a new
    node named after it, given its value, and attached as the last child of
    `parent`; then lines 313-318 expect the closing brace.
   */
  function Members(src: string, st: Store, parent: NodeId, index: nat): (r: Result<(Store, nat)>)
    requires index <= |src| && Wf(st) && parent in st.nodes
    ensures r.Ok? ==> index <= r.value.1 <= |src| && Extended(st, r.value.0, parent)
    ensures r.Err? ==> r.error != EnclosingTagExpected
    decreases |src| - index, 1
  {
    match MemberName(src, index)
    case None =>
      (match CloseObject(src, index)
       case None => Err(ObjectEndExpected)
       case Some(e) => Ok((st, e)))
    case Some((name, j)) =>
      var (st1, node) := WithNode(st, Some(name));
      match MemberValue(src, st1, node, j)
      case Err(f) => Err(f)
      case Ok((st2, k)) =>
        MemberAttached(st, st1, st2, parent, node);
        var st3 := WithChild(st2, parent, node);
        var r := Members(src, st3, parent, k);
        if r.Ok? then ExtendedTrans(st, st3, r.value.0, parent); r else r
  }

  /**
    Lines 245-308 for the newest node `node`, whose value starts at `j`: a
    nested object is read into it and reconciled; otherwise the scalar is
    its value, and anything else is an error.
   */
  function MemberValue(src: string, st: Store, node: NodeId, j: nat): (r: Result<(Store, nat)>)
    requires j <= |src| && Wf(st) && node in st.nodes && node + 1 == st.next
    ensures r.Ok? ==> j <= r.value.1 <= |src| && Settled(st, r.value.0, node)
    ensures r.Err? ==> r.error != EnclosingTagExpected
    decreases |src| - j, 3
  {
    if IsJson(src, j) then
      match ReadObject(src, st, node, j)
      case Err(f) => Err(f)
      case Ok((st', k)) =>
        ReconcileSettles(st, st', node);
        Ok((Reconcile(st', node), k))
    else
      match ScanValue(src, j)
      case None => Err(AttributeValueExpected)
      case Some((v, k)) => Ok((WithValue(st, node, ScalarText(v)), k))
  }

  /**
    A member whose value is a scalar becomes a new last child of `parent`,
    named after the member, holding the scalar's text and nothing else, and
    reading goes on after the value; a value that does not scan fails.
   */
  lemma ScalarMember(src: string, st: Store, parent: NodeId, index: nat)
    requires index <= |src| && Wf(st) && parent in st.nodes
    requires MemberName(src, index).Some? && !IsJson(src, MemberName(src, index).value.1)
    ensures var (name, j) := MemberName(src, index).value;
            var (st1, node) := WithNode(st, Some(name));
            match ScanValue(src, j)
            case None => Members(src, st, parent, index) == Err(AttributeValueExpected)
            case Some((v, k)) =>
              var st3 := WithChild(WithValue(st1, node, ScalarText(v)), parent, node);
              && st3.nodes[node] == NodeRec(Some(name), ScalarText(v), [], [], Some(parent))
              && st3.nodes[parent].children == st.nodes[parent].children + [node]
              && Members(src, st, parent, index) == Members(src, st3, parent, k)
  {
    var (name, j) := MemberName(src, index).value;
    var (st1, node) := WithNode(st, Some(name));
    match ScanValue(src, j)
    case None =>
    case Some((v, k)) =>
      var st2 := WithValue(st1, node, ScalarText(v));
      MemberAttached(st, st1, st2, parent, node);
  }

  /**
    A member whose value is an object: the object is read into the new node,
    which is reconciled and then attached as the last child of `parent`,
    still named after the member.
   */
  lemma NestedMember(src: string, st: Store, parent: NodeId, index: nat)
    requires index <= |src| && Wf(st) && parent in st.nodes
    requires MemberName(src, index).Some? && IsJson(src, MemberName(src, index).value.1)
    ensures var (name, j) := MemberName(src, index).value;
            var (st1, node) := WithNode(st, Some(name));
            match ReadObject(src, st1, node, j)
            case Err(f) => Members(src, st, parent, index) == Err(f)
            case Ok((st', k)) =>
              var st2 := Reconcile(st', node);
              && parent in st2.nodes && node in st2.nodes && parent < node
              && var st3 := WithChild(st2, parent, node);
                 && st3.nodes[node].name == Some(name) && st3.nodes[node].parent == Some(parent)
                 && st3.nodes[parent].children == st.nodes[parent].children + [node]
                 && Members(src, st, parent, index) == Members(src, st3, parent, k)
  {
    var (name, j) := MemberName(src, index).value;
    var (st1, node) := WithNode(st, Some(name));
    match ReadObject(src, st1, node, j)
    case Err(f) =>
    case Ok((st', k)) =>
      ReconcileSettles(st1, st', node);
      MemberAttached(st, st1, Reconcile(st', node), parent, node);
  }

  /** Without another member name, reading fails with "Object end expected." exactly when no `}` follows. */
  lemma MembersEnd(src: string, st: Store, parent: NodeId, index: nat)
    requires index <= |src| && Wf(st) && parent in st.nodes && MemberName(src, index).None?
    ensures var j := SkipSpaces(src, index);
            Members(src, st, parent, index).Err? <==> j == |src| || src[j] != '}'
    ensures Members(src, st, parent, index).Err? ==> Members(src, st, parent, index).error == ObjectEndExpected
    ensures Members(src, st, parent, index).Ok? ==> Members(src, st, parent, index).value.0 == st
  {
  }

  /** `JsonReader.read` (lines 211-215): the members of the object in `src` under a new unnamed root, id 0. */
  function ReadJson(src: string): (r: Result<Store>)
    ensures r.Ok? ==> Wf(r.value) && 0 in r.value.nodes
    ensures r.Ok? ==> r.value.nodes[0] == NodeRec(None, None, [], r.value.nodes[0].children, None)
    ensures r.Err? ==> r.error == AttributeValueExpected || r.error == ObjectEndExpected
  {
    var (st, root) := WithNode(Store(map[], 0), None);
    match ReadObject(src, st, root, 0)
    case Ok((st', _)) => Ok(st')
    case Err(f) => Err(f)
  }

  /**
    The member names the loop at lines 243-311 reads from `index`, in
    order, up to the first member whose value fails to read.
   */
  ghost function MemberNames(src: string, st: Store, parent: NodeId, index: nat): seq<string>
    requires index <= |src| && Wf(st) && parent in st.nodes
    decreases |src| - index
  {
    match MemberName(src, index)
    case None => []
    case Some((name, j)) =>
      var (st1, node) := WithNode(st, Some(name));
      match MemberValue(src, st1, node, j)
      case Err(_) => []
      case Ok((st2, k)) =>
        MemberAttached(st, st1, st2, parent, node);
        [name] + MemberNames(src, WithChild(st2, parent, node), parent, k)
  }

  /**
    The children of `p` after the first `from` are exactly one node per
    name of `names`, in order, each named by it and with `p` as its parent.
   */
  ghost predicate ChildrenNamed(st: Store, p: NodeId, from: nat, names: seq<string>)
    requires p in st.nodes
  {
    && |st.nodes[p].children| == from + |names|
    && forall j | from <= j < |st.nodes[p].children| ::
         var c := st.nodes[p].children[j];
         c in st.nodes && st.nodes[c].parent == Some(p) && st.nodes[c].name == Some(names[j - from])
  }

  /**
    The member loop appends to `parent` exactly one child per member name
    it reads, in order, each still named by the member name as read and
    with `parent` as its parent when reading ends.
   */
  lemma {:induction false} MembersChildren(src: string, st: Store, parent: NodeId, index: nat)
    requires index <= |src| && Wf(st) && parent in st.nodes
    ensures Members(src, st, parent, index).Ok? ==>
              ChildrenNamed(Members(src, st, parent, index).value.0, parent, |st.nodes[parent].children|,
                            MemberNames(src, st, parent, index))
    decreases |src| - index
  {
    match MemberName(src, index)
    case None =>
      MembersEnd(src, st, parent, index);
    case Some((name, j)) =>
      var (st1, node) := WithNode(st, Some(name));
      match MemberValue(src, st1, node, j)
      case Err(_) =>
      case Ok((st2, k)) =>
        MemberAttached(st, st1, st2, parent, node);
        var st3 := WithChild(st2, parent, node);
        MembersChildren(src, st3, parent, k);
        var r := Members(src, st3, parent, k);
        if r.Ok? {
          ChildrenStep(st, st3, r.value.0, parent, node, name, MemberNames(src, st3, parent, k));
        }
  }

  /** A child attached last, followed by the children named by `names`, gives the children named by `[name] + names`. */
  lemma ChildrenStep(st: Store, st3: Store, st4: Store, parent: NodeId, node: NodeId, name: string, names: seq<string>)
    requires parent in st.nodes && parent in st3.nodes && node in st3.nodes && node != parent
    requires st3.nodes[parent].children == st.nodes[parent].children + [node]
    requires st3.nodes[node].parent == Some(parent) && st3.nodes[node].name == Some(name)
    requires Extended(st3, st4, parent) && ChildrenNamed(st4, parent, |st3.nodes[parent].children|, names)
    ensures ChildrenNamed(st4, parent, |st.nodes[parent].children|, [name] + names)
  {
    var n := |st.nodes[parent].children|;
    assert st4.nodes[parent].children[n] == st3.nodes[parent].children[n] == node;
    assert st4.nodes[node] == st3.nodes[node];
    ChildrenCons(st4, parent, n, node, name, names);
  }

  /** The child at `n`, named `name`, in front of the children named by `names`. */
  lemma ChildrenCons(st: Store, parent: NodeId, n: nat, node: NodeId, name: string, names: seq<string>)
    requires parent in st.nodes && n < |st.nodes[parent].children| && st.nodes[parent].children[n] == node
    requires node in st.nodes && st.nodes[node].parent == Some(parent) && st.nodes[node].name == Some(name)
    requires ChildrenNamed(st, parent, n + 1, names)
    ensures ChildrenNamed(st, parent, n, [name] + names)
  {
    var ns := [name] + names;
    forall j | n <= j < |st.nodes[parent].children|
      ensures var c := st.nodes[parent].children[j];
              c in st.nodes && st.nodes[c].parent == Some(parent) && st.nodes[c].name == Some(ns[j - n])
    {
      if j > n {
        assert ns[j - n] == names[j - (n + 1)];
      }
    }
  }

  /** The member names `read` takes from the top-level object in `src`. */
  ghost function TopLevelNames(src: string): seq<string>
  {
    var (st, root) := WithNode(Store(map[], 0), None);
    match OpenObject(src, 0)
    case None => []
    case Some(index) => MemberNames(src, st, root, index)
  }

  /** The top-level names are read one after another, starting with the first member name after the `{`. */
  lemma TopLevelNamesFirst(src: string)
    ensures TopLevelNames(src) != [] ==>
              && OpenObject(src, 0).Some? && MemberName(src, OpenObject(src, 0).value).Some?
              && TopLevelNames(src)[0] == MemberName(src, OpenObject(src, 0).value).value.0
  {
  }

  /**
    The top-level members hang from the root as read: the root's children
    are exactly one node per top-level member name, in order, each named by
    that name and with the root as its parent, so no member was dropped or
    renamed. The root itself keeps no name, value or attributes: it is read
    but never reconciled.
   */
  lemma RootChildren(src: string)
    requires ReadJson(src).Ok?
    ensures var st := ReadJson(src).value;
            && st.nodes[0] == NodeRec(None, None, [], st.nodes[0].children, None)
            && ChildrenNamed(st, 0, 0, TopLevelNames(src))
  {
    var (st, root) := WithNode(Store(map[], 0), None);
    match OpenObject(src, 0)
    case None =>
    case Some(index) => MembersChildren(src, st, root, index);
  }

  /** The loop of `readObject` (lines 217-319) on the arena. */
  method ReadObjectInPlace(arena: Arena, src: string, parent: NodeId, start: nat) returns (r: Result<nat>)
    requires start <= |src| && arena.Valid() && parent in arena.nodes
    modifies arena
    ensures arena.Valid()
    ensures match r
            case Ok(j) => ReadObject(src, old(arena.State()), parent, start) == Ok((arena.State(), j))
            case Err(f) => ReadObject(src, old(arena.State()), parent, start) == Err(f)
    decreases |src| - start, 2
  {
    var open := OpenObject(src, start);
    if open.None? {
      return Ok(start);
    }
    var index := open.value;
    ghost var goal := Members(src, arena.State(), parent, index);
    while MemberName(src, index).Some?
      invariant start < index <= |src| && arena.Valid() && parent in arena.nodes
      invariant Members(src, arena.State(), parent, index) == goal
      decreases |src| - index
    {
      var (name, j) := MemberName(src, index).value;
      ghost var st := arena.State();
      var node := arena.NewNode(Some(name));
      ghost var st1 := arena.State();
      var value := MemberValueInPlace(arena, src, node, j);
      if value.Err? {
        return Err(value.error);
      }
      MemberAttached(st, st1, arena.State(), parent, node);
      arena.AddChild(parent, node);
      index := value.value;
    }
    var close := CloseObject(src, index);
    if close.None? {
      return Err(ObjectEndExpected);
    }
    r := Ok(close.value);
  }

  /** Lines 245-308 on the arena, for the newest node `node`. */
  method MemberValueInPlace(arena: Arena, src: string, node: NodeId, j: nat) returns (r: Result<nat>)
    requires j <= |src| && arena.Valid() && node in arena.nodes && node + 1 == arena.next
    modifies arena
    ensures arena.Valid()
    ensures match r
            case Ok(k) => MemberValue(src, old(arena.State()), node, j) == Ok((arena.State(), k))
            case Err(f) => MemberValue(src, old(arena.State()), node, j) == Err(f)
    decreases |src| - j, 3
  {
    if IsJson(src, j) {
      var nested := ReadObjectInPlace(arena, src, node, j);
      if nested.Err? {
        return nested;
      }
      ReconcileInPlace(arena, node);
      r := nested;
    } else {
      var v := ScanValue(src, j);
      if v.None? {
        return Err(AttributeValueExpected);
      }
      arena.SetValue(node, ScalarText(v.value.0));
      r := Ok(v.value.1);
    }
  }

  /** `JsonReader.read`, on a fresh arena. */
  method Read(src: string) returns (arena: Arena, r: Result<NodeId>)
    ensures fresh(arena) && arena.Valid()
    ensures match r
            case Ok(root) => root == 0 && ReadJson(src) == Ok(arena.State())
            case Err(f) => ReadJson(src) == Err(f)
  {
    arena := new Arena();
    var root := arena.NewNode(None);
    var res := ReadObjectInPlace(arena, src, root, 0);
    r := if res.Ok? then Ok(root) else Err(res.error);
  }
}
