/**
  `XmlReader` (src/converter/Main1.java:139-199): a loose reader for markup.

  The three regular expressions of the reader are written out as the search
  `java.util.regex` performs for them: a greedy quantifier tries the longest
  run first and gives characters back one at a time, a lazy `.*?"` tries the
  nearest quote first, and a capturing group inside `*` keeps the text of its
  last successful iteration.
 */
module XmlReader {
  import opened Wrappers
  import opened OrderedMaps
  import opened Text
  import opened Tree

  /** A name as `[a-z_]\w+` (case-insensitive) matches it: at least two characters. */
  predicate IsTagName(n: string)
  {
    && |n| >= 2 && IsNameStart(n[0])
    && forall k | 1 <= k < |n| :: IsWordChar(n[k])
  }

  /** `\A\s*<\s*[a-z_]\w+` on the text from `start`; here `[a-z_]` is lower-case only. */
  predicate IsXml(src: string, start: nat)
    requires start <= |src|
  {
    var j := SkipSpaces(src, start);
    && j < |src| && src[j] == '<'
    && var k := SkipSpaces(src, j + 1);
       && k + 1 < |src|
       && ('a' <= src[k] <= 'z' || src[k] == '_')
       && IsWordChar(src[k + 1])
  }

  /** Spaces from `start` to `j`, a `<` at `j`, spaces up to `k`, then a lower-case name start and a word character. */
  ghost predicate XmlStartAt(src: string, start: nat, j: nat, k: nat)
  {
    && start <= j < k && k + 1 < |src|
    && AllSpaces(src, start, j) && src[j] == '<' && AllSpaces(src, j + 1, k)
    && ('a' <= src[k] <= 'z' || src[k] == '_') && IsWordChar(src[k + 1])
  }

  /** The sniff holds exactly on text that is spaces, `<`, spaces and a lower-case name. */
  lemma IsXmlMeaning(src: string, start: nat)
    requires start <= |src|
    ensures IsXml(src, start) <==> exists j, k :: XmlStartAt(src, start, j, k)
  {
    if IsXml(src, start) {
      var j := SkipSpaces(src, start);
      var k := SkipSpaces(src, j + 1);
      SkipWhileAll(src, start, IsSpace);
      SkipWhileAll(src, j + 1, IsSpace);
      assert XmlStartAt(src, start, j, k);
    }
    if exists j, k :: XmlStartAt(src, start, j, k) {
      var j, k :| XmlStartAt(src, start, j, k);
      XmlStartExact(src, start, j, k);
    }
  }

  lemma XmlStartExact(src: string, start: nat, j: nat, k: nat)
    requires XmlStartAt(src, start, j, k)
    ensures IsXml(src, start)
  {
    SkipWhileExact(src, start, j, IsSpace);
    SkipWhileExact(src, j + 1, k, IsSpace);
  }

  /**
    `[a-z_]\w+\s*=\s*"` at `pos`: the end of the name and the position after
    the opening quote. Giving back name characters never helps, because
    what follows the name has to be a space or `=`.
   */
  function AttrHead(s: string, pos: nat): (r: Option<(nat, nat)>)
    requires pos <= |s|
    ensures r.Some? ==> pos + 2 <= r.value.0 < r.value.1 <= |s|
  {
    if pos + 1 < |s| && IsNameStart(s[pos]) && IsWordChar(s[pos + 1]) then
      var ne := SkipWhile(s, pos + 1, IsWordChar);
      var a := SkipSpaces(s, ne);
      if a < |s| && s[a] == '=' then
        var b := SkipSpaces(s, a + 1);
        if b < |s| && s[b] == '"' then Some((ne, b + 1)) else None
      else None
    else None
  }

  /**
    One way `[a-z_]\w+\s*=\s*"` can match at `pos`: a name up to `ne`,
    spaces up to the `=` at `a`, spaces, and the opening quote just before `o`.
   */
  ghost predicate AttrHeadShape(s: string, pos: nat, ne: nat, a: nat, o: nat)
  {
    && pos + 2 <= ne <= a && a + 2 <= o <= |s|
    && IsTagName(s[pos..ne]) && AllSpaces(s, ne, a) && s[a] == '='
    && AllSpaces(s, a + 1, o - 1) && s[o - 1] == '"'
  }

  /** The head found is the only way the pattern matches at `pos`, and none is found exactly when it cannot match. */
  lemma AttrHeadMeaning(s: string, pos: nat, ne: nat, o: nat)
    requires pos <= |s|
    ensures AttrHead(s, pos) == Some((ne, o)) <==> exists a :: AttrHeadShape(s, pos, ne, a, o)
  {
    if AttrHead(s, pos) == Some((ne, o)) {
      var a := SkipSpaces(s, ne);
      SkipWhileAll(s, pos + 1, IsWordChar);
      SkipWhileAll(s, ne, IsSpace);
      SkipWhileAll(s, a + 1, IsSpace);
      WordRunIsTagName(s, pos, ne, ne);
      assert AttrHeadShape(s, pos, ne, a, o);
    }
    if exists a :: AttrHeadShape(s, pos, ne, a, o) {
      var a :| AttrHeadShape(s, pos, ne, a, o);
      AttrHeadExact(s, pos, ne, a, o);
    }
  }

  lemma AttrHeadExact(s: string, pos: nat, ne: nat, a: nat, o: nat)
    requires AttrHeadShape(s, pos, ne, a, o)
    ensures AttrHead(s, pos) == Some((ne, o))
  {
    var n := s[pos..ne];
    assert n[0] == s[pos] && n[1] == s[pos + 1];
    forall k | pos + 1 <= k < ne ensures IsWordChar(s[k]) {
      assert n[k - pos] == s[k];
    }
    assert !IsWordChar(s[ne]) by {
      if ne < a { assert IsSpace(s[ne]); }
    }
    SkipWhileExact(s, pos + 1, ne, IsWordChar);
    SkipWhileExact(s, ne, a, IsSpace);
    SkipWhileExact(s, a + 1, o - 1, IsSpace);
  }

  /**
    A span that one iteration of `([a-z_]\w+\s*=\s*".*?")` covers: an
    attribute head at its start and a closing quote at its end, after the
    opening quote.
   */
  ghost predicate Iteration(s: string, g: (nat, nat))
  {
    && g.0 < g.1 <= |s| && AttrHead(s, g.0).Some?
    && AttrHead(s, g.0).value.1 < g.1 && s[g.1 - 1] == '"'
  }

  /** What the end of an opening tag contributes: group 2's span, the match end and whether it was `/>`. */
  datatype TagTail = TagTail(group2: Option<(nat, nat)>, end: nat, selfClosing: bool)

  /** `\s*(>|/>)` at `pos`. */
  function Stop(s: string, pos: nat, last: Option<(nat, nat)>): (r: Option<TagTail>)
    requires pos <= |s|
    ensures r.Some? ==> pos < r.value.end <= |s| && r.value.group2 == last
  {
    var t := SkipSpaces(s, pos);
    if t < |s| && s[t] == '>' then Some(TagTail(last, t + 1, false))
    else if At(s, t, "/>") then Some(TagTail(last, t + 2, true))
    else None
  }

  /** One way `\s*(>|/>)` can match from `pos` and end at `end`: spaces, then `/>` when `selfClosing`, otherwise `>`. */
  ghost predicate StopShape(s: string, pos: nat, end: nat, selfClosing: bool)
  {
    var t := if selfClosing then end - 2 else end - 1;
    && pos <= t && end <= |s|
    && AllSpaces(s, pos, t) && s[end - 1] == '>' && (selfClosing ==> s[t] == '/')
  }

  /** The end found is the only way the pattern matches from `pos`, and none is found exactly when it cannot match. */
  lemma StopMeaning(s: string, pos: nat, last: Option<(nat, nat)>, end: nat, selfClosing: bool)
    requires pos <= |s|
    ensures Stop(s, pos, last) == Some(TagTail(last, end, selfClosing)) <==> StopShape(s, pos, end, selfClosing)
  {
    var t0 := SkipSpaces(s, pos);
    SkipWhileAll(s, pos, IsSpace);
    if Stop(s, pos, last) == Some(TagTail(last, end, selfClosing)) {
      if selfClosing {
        assert At(s, t0, "/>") && end == t0 + 2;
        assert s[t0] == s[t0..t0 + 2][0] && s[t0 + 1] == s[t0..t0 + 2][1];
      }
      assert StopShape(s, pos, end, selfClosing);
    }
    if StopShape(s, pos, end, selfClosing) {
      var t := if selfClosing then end - 2 else end - 1;
      SkipWhileExact(s, pos, t, IsSpace);
      assert t0 == t;
      if selfClosing {
        assert s[t..t + 2] == "/>";
      }
    }
  }

  /**
    What a match of `(attr)*\s*(>|/>)` from `pos` yields: either no
    iteration ran, group 2 stays `last` and `\s*(>|/>)` follows `pos`
    directly, or group 2 is the span of an iteration at or after `pos`
    and `\s*(>|/>)` follows that span directly, so it is the last one.
   */
  ghost predicate TailFrom(s: string, pos: nat, last: Option<(nat, nat)>, t: TagTail)
  {
    && pos < t.end <= |s|
    && (t.group2.Some? ==> t.group2.value.0 <= t.group2.value.1 <= |s|)
    && (|| (t.group2 == last && StopShape(s, pos, t.end, t.selfClosing))
        || (&& t.group2.Some? && Iteration(s, t.group2.value) && pos <= t.group2.value.0
            && StopShape(s, t.group2.value.1, t.end, t.selfClosing)))
  }

  /** Closing the iteration at `pos` with the quote at `q` and matching the rest yields a tail from `pos`. */
  lemma QuotesClose(s: string, pos: nat, from: nat, q: nat, last: Option<(nat, nat)>, t: TagTail)
    requires pos < from <= q < |s| && s[q] == '"' && AttrHead(s, pos).Some? && AttrHead(s, pos).value.1 <= from
    requires TailFrom(s, q + 1, Some((pos, q + 1)), t)
    ensures TailFrom(s, pos, last, t)
  {
    if t.group2 == Some((pos, q + 1)) {
      assert Iteration(s, (pos, q + 1));
    }
  }

  /**
    `(attr)*\s*(>|/>)` from `pos`. The greedy `*` first tries one more
    iteration and stops only when no iteration leads to a match; `last` is
    the span of the latest iteration.
   */
  function Star(s: string, pos: nat, last: Option<(nat, nat)>): (r: Option<TagTail>)
    requires pos <= |s|
    requires last.Some? ==> last.value.0 <= last.value.1 <= pos
    ensures r.Some? ==> TailFrom(s, pos, last, r.value)
    decreases |s| - pos
  {
    match AttrHead(s, pos)
    case Some((_, o)) => Quotes(s, pos, o, last)
    case None =>
      var r := Stop(s, pos, last);
      if r.Some? then StopMeaning(s, pos, last, r.value.end, r.value.selfClosing); r else r
  }

  /**
    The lazy `.*?"` of the iteration starting at `pos`: close it at the
    first quote from `from`, and at the next quote whenever the rest of the
    pattern fails.
   */
  function Quotes(s: string, pos: nat, from: nat, last: Option<(nat, nat)>): (r: Option<TagTail>)
    requires pos < from <= |s| && AttrHead(s, pos).Some? && AttrHead(s, pos).value.1 <= from
    requires last.Some? ==> last.value.0 <= last.value.1 <= pos
    ensures r.Some? ==> TailFrom(s, pos, last, r.value)
    decreases |s| - from
  {
    match FindChar(s, from, '"')
    case None =>
      var r := Stop(s, pos, last);
      if r.Some? then StopMeaning(s, pos, last, r.value.end, r.value.selfClosing); r else r
    case Some(q) =>
      match Star(s, q + 1, Some((pos, q + 1)))
      case Some(t) => QuotesClose(s, pos, from, q, last, t); Some(t)
      case None => Quotes(s, pos, q + 1, last)
  }

  /** A matched opening tag: its `<` position, group 1 and the rest. */
  datatype TagMatch = TagMatch(at: nat, name: string, group2: Option<(nat, nat)>, end: nat, selfClosing: bool)

  /**
    An opening tag at `lt` whose name starts at `n0` and ends at or before
    `e`, with group 2, when present, an iteration's span.
   */
  ghost predicate NameMatch(s: string, lt: nat, n0: nat, e: nat, m: TagMatch)
  {
    && m.at == lt && lt < m.end <= |s|
    && n0 + 2 <= n0 + |m.name| <= e && n0 + |m.name| <= |s| && m.name == s[n0..n0 + |m.name|]
    && (m.group2.Some? ==> m.group2.value.0 <= m.group2.value.1 <= |s| && Iteration(s, m.group2.value))
  }

  /** What follows the name `s[n0..e]`: `\s*(attr)*\s*(>|/>)`, with spaces skipped only after the full name. */
  function NameTail(s: string, n0: nat, w: nat, e: nat): (r: Option<TagTail>)
    requires n0 + 2 <= e <= w <= |s|
    ensures r.Some? ==> e < r.value.end <= |s|
    ensures r.Some? && r.value.group2.Some? ==>
      r.value.group2.value.0 <= r.value.group2.value.1 <= |s| && Iteration(s, r.value.group2.value)
  {
    Star(s, if e == w then SkipSpaces(s, e) else e, None)
  }

  /**
    The name `s[n0..e]` for `e` from the end `w` of the greedy `\w+` down to
    the shortest name; only after the full name can `\s*` skip spaces.
   */
  function NameTry(s: string, lt: nat, n0: nat, w: nat, e: nat): (r: Option<TagMatch>)
    requires lt < n0 && n0 + 2 <= e <= w <= |s|
    ensures r.Some? ==> NameMatch(s, lt, n0, e, r.value)
    decreases e
  {
    match NameTail(s, n0, w, e)
    case Some(t) =>
      var name := s[n0..e];
      assert |name| == e - n0;
      Some(TagMatch(lt, name, t.group2, t.end, t.selfClosing))
    case None => if e == n0 + 2 then None else NameTry(s, lt, n0, w, e - 1)
  }

  /** When the name ending at `e` works, it is the one chosen. */
  lemma NameTryHit(s: string, lt: nat, n0: nat, w: nat, e: nat)
    requires lt < n0 && n0 + 2 <= e <= w <= |s| && NameTail(s, n0, w, e).Some?
    ensures var t := NameTail(s, n0, w, e).value;
            NameTry(s, lt, n0, w, e) == Some(TagMatch(lt, s[n0..e], t.group2, t.end, t.selfClosing))
    ensures n0 + |NameTry(s, lt, n0, w, e).value.name| == e
  {
  }

  /** When the name ending at `e` fails, the search goes on one character shorter. */
  lemma NameTryMiss(s: string, lt: nat, n0: nat, w: nat, e: nat)
    requires lt < n0 && n0 + 2 < e <= w <= |s| && NameTail(s, n0, w, e).None?
    ensures NameTry(s, lt, n0, w, e) == NameTry(s, lt, n0, w, e - 1)
  {
  }

  /** The name chosen, which ends at `k`, is one after which the rest of the tag matches, and the match is built from that tail. */
  lemma {:induction false} NameTryChosen(s: string, lt: nat, n0: nat, w: nat, e: nat, k: nat)
    requires lt < n0 && n0 + 2 <= e <= w <= |s| && NameTry(s, lt, n0, w, e).Some?
    requires k == n0 + |NameTry(s, lt, n0, w, e).value.name|
    ensures n0 + 2 <= k <= e && NameTail(s, n0, w, k).Some?
    ensures var t := NameTail(s, n0, w, k).value;
            NameTry(s, lt, n0, w, e).value == TagMatch(lt, s[n0..k], t.group2, t.end, t.selfClosing)
    decreases e, 1
  {
    if NameTail(s, n0, w, e).Some? {
      NameTryHit(s, lt, n0, w, e);
    } else {
      NameTryChosenBelow(s, lt, n0, w, e, k);
    }
  }

  /** When the name ending at `e` fails, the name chosen is the one chosen from `e - 1`. */
  lemma {:induction false} NameTryChosenBelow(s: string, lt: nat, n0: nat, w: nat, e: nat, k: nat)
    requires lt < n0 && n0 + 2 <= e <= w <= |s| && NameTry(s, lt, n0, w, e).Some?
    requires NameTail(s, n0, w, e).None? && k == n0 + |NameTry(s, lt, n0, w, e).value.name|
    ensures n0 + 2 <= k < e && NameTail(s, n0, w, k).Some?
    ensures var t := NameTail(s, n0, w, k).value;
            NameTry(s, lt, n0, w, e).value == TagMatch(lt, s[n0..k], t.group2, t.end, t.selfClosing)
    decreases e, 0
  {
    NameTryMiss(s, lt, n0, w, e);
    NameTryChosen(s, lt, n0, w, e - 1, k);
  }

  /**
    The name ends are tried from the longest down to two characters: when
    the name ending at `k` works, a name is chosen and it is at least as
    long, so every longer name end than the one chosen fails, and when none
    is chosen every name end fails.
   */
  lemma {:induction false} NameTryLongest(s: string, lt: nat, n0: nat, w: nat, e: nat, k: nat)
    requires lt < n0 && n0 + 2 <= k <= e <= w <= |s| && NameTail(s, n0, w, k).Some?
    ensures NameTry(s, lt, n0, w, e).Some? && k <= n0 + |NameTry(s, lt, n0, w, e).value.name|
    decreases e, 1
  {
    if NameTail(s, n0, w, e).Some? {
      NameTryHit(s, lt, n0, w, e);
    } else {
      NameTryPast(s, lt, n0, w, e, k);
    }
  }

  /** A failing name end above `k` passes the search on to the next shorter one. */
  lemma {:induction false} NameTryPast(s: string, lt: nat, n0: nat, w: nat, e: nat, k: nat)
    requires lt < n0 && n0 + 2 <= k < e <= w <= |s| && NameTail(s, n0, w, k).Some?
    requires NameTail(s, n0, w, e).None?
    ensures NameTry(s, lt, n0, w, e).Some? && k <= n0 + |NameTry(s, lt, n0, w, e).value.name|
    decreases e, 0
  {
    NameTryMiss(s, lt, n0, w, e);
    NameTryLongest(s, lt, n0, w, e - 1, k);
  }

  /** Any prefix of at least two characters of a name start followed by word characters is a tag name. */
  lemma WordRunIsTagName(s: string, n0: nat, w: nat, e: nat)
    requires n0 + 2 <= e <= w <= |s|
    requires IsNameStart(s[n0]) && forall k | n0 + 1 <= k < w :: IsWordChar(s[k])
    ensures IsTagName(s[n0..e])
  {
    forall k | 1 <= k < e - n0 ensures IsWordChar(s[n0..e][k]) {
      assert s[n0..e][k] == s[n0 + k];
    }
  }

  /** `<\s*([a-z_]\w+)\s*(attr)*\s*(>|/>)` anchored at `lt`. */
  function TagAt(s: string, lt: nat): (r: Option<TagMatch>)
    requires lt < |s|
    ensures r.Some? ==>
      && r.value.at == lt && lt < r.value.end <= |s| && IsTagName(r.value.name)
      && (r.value.group2.Some? ==> r.value.group2.value.0 <= r.value.group2.value.1 <= |s|)
  {
    if s[lt] != '<' then None
    else
      var n0 := SkipSpaces(s, lt + 1);
      if n0 + 1 < |s| && IsNameStart(s[n0]) && IsWordChar(s[n0 + 1]) then
        var w := SkipWhile(s, n0 + 1, IsWordChar);
        NameTryTagName(s, lt, n0, w);
        NameTry(s, lt, n0, w, w)
      else None
  }

  /** The name chosen in a word run that starts with a name-start character is a tag name. */
  lemma NameTryTagName(s: string, lt: nat, n0: nat, w: nat)
    requires lt < n0 && n0 + 2 <= w <= |s| && IsNameStart(s[n0]) && w == SkipWhile(s, n0 + 1, IsWordChar)
    ensures NameTry(s, lt, n0, w, w).Some? ==> IsTagName(NameTry(s, lt, n0, w, w).value.name)
  {
    var r := NameTry(s, lt, n0, w, w);
    if r.Some? {
      SkipWhileAll(s, n0 + 1, IsWordChar);
      WordRunIsTagName(s, n0, w, n0 + |r.value.name|);
    }
  }

  /**
    What an opening tag found at `lt` is: `<`, spaces up to `n0`, the name
    `s[n0..k]` inside the word run that ends at `w`, and then a tail that
    matches `(attr)*\s*(>|/>)` with group 2 the last iteration's span
    (spaces after the name are taken only when it is the whole run).
   */
  lemma TagAtTail(s: string, lt: nat, n0: nat, w: nat, k: nat)
    requires lt < |s| && TagAt(s, lt).Some?
    requires n0 == SkipSpaces(s, lt + 1) < |s| && w == SkipWhile(s, n0 + 1, IsWordChar)
    requires k == n0 + |TagAt(s, lt).value.name|
    ensures s[lt] == '<' && AllSpaces(s, lt + 1, n0) && n0 + 2 <= k <= w && TagAt(s, lt).value.name == s[n0..k]
    ensures var m := TagAt(s, lt).value;
            TailFrom(s, if k == w then SkipSpaces(s, k) else k, None, TagTail(m.group2, m.end, m.selfClosing))
  {
    TagAtName(s, lt, n0, w);
    SkipWhileAll(s, lt + 1, IsSpace);
    NameTryChosen(s, lt, n0, w, w, k);
  }

  /** The name of an opening tag is the longest one after which the rest of the tag matches. */
  lemma TagAtLongest(s: string, lt: nat, n0: nat, w: nat, k: nat, k': nat)
    requires lt < |s| && TagAt(s, lt).Some?
    requires n0 == SkipSpaces(s, lt + 1) < |s| && w == SkipWhile(s, n0 + 1, IsWordChar)
    requires k == n0 + |TagAt(s, lt).value.name|
    requires n0 + 2 <= k' <= w
    ensures NameTail(s, n0, w, k').Some? ==> k' <= k
  {
    TagAtName(s, lt, n0, w);
    if NameTail(s, n0, w, k').Some? {
      NameTryLongest(s, lt, n0, w, w, k');
    }
  }

  /** An opening tag found at `lt` is the name search over the word run after `<` and the spaces. */
  lemma TagAtName(s: string, lt: nat, n0: nat, w: nat)
    requires lt < |s| && TagAt(s, lt).Some?
    requires n0 == SkipSpaces(s, lt + 1) < |s| && w == SkipWhile(s, n0 + 1, IsWordChar)
    ensures s[lt] == '<' && lt < n0 && n0 + 2 <= w <= |s| && TagAt(s, lt) == NameTry(s, lt, n0, w, w)
  {
  }

  /** No opening tag is anchored at any position from `i` up to `j`. */
  ghost predicate NoTagIn(s: string, i: nat, j: nat)
    requires i <= j <= |s|
    decreases j - i
  {
    i == j || (TagAt(s, i).None? && NoTagIn(s, i + 1, j))
  }

  lemma NoTagInMeaning(s: string, i: nat, j: nat)
    requires i <= j <= |s|
    ensures NoTagIn(s, i, j) <==> forall q | i <= q < j :: TagAt(s, q).None?
  {
    if NoTagIn(s, i, j) {
      NoTagInAll(s, i, j);
    }
    if forall q | i <= q < j :: TagAt(s, q).None? {
      AllNoTagIn(s, i, j);
    }
  }

  lemma {:induction false} NoTagInAll(s: string, i: nat, j: nat)
    requires i <= j <= |s| && NoTagIn(s, i, j)
    ensures forall q | i <= q < j :: TagAt(s, q).None?
    decreases j - i
  {
    if i < j {
      NoTagInAll(s, i + 1, j);
    }
  }

  lemma {:induction false} AllNoTagIn(s: string, i: nat, j: nat)
    requires i <= j <= |s| && forall q | i <= q < j :: TagAt(s, q).None?
    ensures NoTagIn(s, i, j)
    decreases j - i
  {
    if i < j {
      assert TagAt(s, i).None?;
      AllNoTagIn(s, i + 1, j);
    }
  }

  /**
    `tagMatcher.find(i)`: the leftmost match at or after `i`. The leading
    `\s*` of the pattern cannot move the `<`, so the leftmost match is the
    one at the leftmost `<` where the anchored pattern matches.
   */
  function FindTag(s: string, i: nat): (r: Option<TagMatch>)
    requires i <= |s|
    ensures r.Some? ==> i <= r.value.at < |s| && TagAt(s, r.value.at) == r && NoTagIn(s, i, r.value.at)
    ensures r.None? ==> NoTagIn(s, i, |s|)
    decreases |s| - i
  {
    if i == |s| then None
    else
      var t := TagAt(s, i);
      if t.Some? then t else FindTag(s, i + 1)
  }

  /** The tag found is the one at the leftmost position where the anchored pattern matches. */
  lemma FindTagLeftmost(s: string, i: nat)
    requires i <= |s|
    ensures match FindTag(s, i)
            case Some(m) => i <= m.at < |s| && TagAt(s, m.at) == Some(m) && forall q | i <= q < m.at :: TagAt(s, q).None?
            case None => forall q | i <= q < |s| :: TagAt(s, q).None?
  {
    match FindTag(s, i)
    case Some(m) => NoTagInMeaning(s, i, m.at);
    case None => NoTagInMeaning(s, i, |s|);
  }

  /** `([a-z_]\w+)\s*=\s*"(.*?)"` anchored at `p`: name, value and match end. */
  function AttrAt(t: string, p: nat): (r: Option<(string, string, nat)>)
    requires p <= |t|
    ensures r.Some? ==>
      && p < r.value.2 <= |t| && t[r.value.2 - 1] == '"'
      && IsTagName(r.value.0) && '"' !in r.value.1
  {
    match AttrHead(t, p)
    case None => None
    case Some((ne, o)) =>
      match FindChar(t, o, '"')
      case None => None
      case Some(q) =>
        AttrNameAndValue(t, p, ne, o, q);
        Some((t[p..ne], t[o..q], q + 1))
  }

  lemma AttrNameAndValue(t: string, p: nat, ne: nat, o: nat, q: nat)
    requires p <= |t| && AttrHead(t, p) == Some((ne, o)) && FindChar(t, o, '"') == Some(q)
    ensures IsTagName(t[p..ne]) && '"' !in t[o..q]
  {
    SkipWhileAll(t, p + 1, IsWordChar);
    WordRunIsTagName(t, p, ne, ne);
    forall k | 0 <= k < q - o ensures t[o..q][k] != '"' {
      assert t[o..q][k] == t[o + k];
    }
  }

  /**
    An attribute found at `p` is an attribute head (see `AttrHeadMeaning`)
    whose value runs from the opening quote to the first quote after it,
    and the match ends just after that quote; none is found exactly when
    there is no head at `p` or no quote after it.
   */
  lemma AttrAtMeaning(t: string, p: nat, n: string, v: string, e: nat)
    requires p <= |t|
    ensures AttrAt(t, p) == Some((n, v, e)) <==>
              && AttrHead(t, p).Some?
              && var (ne, o) := AttrHead(t, p).value;
                 && n == t[p..ne] && o < e <= |t| && t[e - 1] == '"' && v == t[o..e - 1] && '"' !in v
  {
    if AttrHead(t, p).Some? {
      var (ne, o) := AttrHead(t, p).value;
      if o < e <= |t| && t[e - 1] == '"' && v == t[o..e - 1] && '"' !in v {
        forall k | o <= k < e - 1 ensures t[k] != '"' {
          assert v[k - o] == t[k];
        }
      }
    }
  }

  /** `attrMatcher.find()` over group 2: the leftmost attribute at or after `from`. */
  function NextAttr(t: string, from: nat): (r: Option<(string, string, nat)>)
    requires from <= |t|
    ensures r.Some? ==>
      && from < r.value.2 <= |t| && t[r.value.2 - 1] == '"'
      && IsTagName(r.value.0) && '"' !in r.value.1
    decreases |t| - from
  {
    if from == |t| then None
    else if AttrAt(t, from).Some? then AttrAt(t, from)
    else NextAttr(t, from + 1)
  }

  /** No attribute matches at any position from `i` up to `j`. */
  ghost predicate NoAttrIn(t: string, i: nat, j: nat)
    requires i <= j <= |t|
    decreases j - i
  {
    i == j || (AttrAt(t, i).None? && NoAttrIn(t, i + 1, j))
  }

  lemma {:induction false} NoAttrInMeaning(t: string, i: nat, j: nat)
    requires i <= j <= |t|
    ensures NoAttrIn(t, i, j) <==> forall q | i <= q < j :: AttrAt(t, q).None?
    decreases j - i
  {
    if i < j {
      NoAttrInMeaning(t, i + 1, j);
    }
  }

  /**
    The attribute found is the one at the first position from `from` where
    an attribute matches (see `NoAttrInMeaning`), and none is found exactly
    when no position does.
   */
  lemma {:induction false} NextAttrLeftmost(t: string, from: nat)
    requires from <= |t|
    ensures match NextAttr(t, from)
            case Some(r) => exists p :: from <= p < |t| && AttrAt(t, p) == Some(r) && NoAttrIn(t, from, p)
            case None => NoAttrIn(t, from, |t|)
    decreases |t| - from
  {
    if from < |t| && AttrAt(t, from).None? {
      NextAttrLeftmost(t, from + 1);
      if NextAttr(t, from + 1).Some? {
        var p :| from + 1 <= p < |t| && AttrAt(t, p) == NextAttr(t, from + 1) && NoAttrIn(t, from + 1, p);
        assert from <= p < |t| && AttrAt(t, p) == NextAttr(t, from) && NoAttrIn(t, from, p);
      }
    } else if from < |t| {
      assert from <= from < |t| && AttrAt(t, from) == NextAttr(t, from) && NoAttrIn(t, from, from);
    }
  }

  /** The (name, value) pairs the loop at lines 161-164 sets, in order. */
  function AttributePairs(t: string, from: nat): (ps: seq<(string, Option<string>)>)
    requires from <= |t|
    ensures forall k | 0 <= k < |ps| :: ps[k].1.Some? && IsTagName(ps[k].0) && '"' !in ps[k].1.value
    decreases |t| - from
  {
    match NextAttr(t, from)
    case None => []
    case Some((n, v, e)) => [(n, Some(v))] + AttributePairs(t, e)
  }

  /** The pairs of a matched tag; none when group 2 did not participate. */
  function TagPairs(src: string, m: TagMatch): seq<(string, Option<string>)>
    requires m.group2.Some? ==> m.group2.value.0 <= m.group2.value.1 <= |src|
  {
    match m.group2
    case None => []
    case Some((a, b)) => AttributePairs(src[a..b], 0)
  }

  /** `<\s*\/name\s*>` anchored at `q` (case-sensitive): the end of the closing tag. */
  function CloserAt(s: string, q: nat, name: string): (r: Option<nat>)
    requires q <= |s|
    ensures r.Some? ==> q < r.value <= |s|
  {
    if q < |s| && s[q] == '<' then
      var a := SkipSpaces(s, q + 1);
      if a < |s| && s[a] == '/' && At(s, a + 1, name) then
        var b := SkipSpaces(s, a + 1 + |name|);
        if b < |s| && s[b] == '>' then Some(b + 1) else None
      else None
    else None
  }

  /** One way `<\s*\/name\s*>` matches from `q` to `e`, with the slash at `a`: the name is compared character by character. */
  ghost predicate CloserShape(s: string, q: nat, name: string, a: nat, e: nat)
  {
    && q < a && a + 1 + |name| < e <= |s|
    && s[q] == '<' && AllSpaces(s, q + 1, a) && s[a] == '/'
    && s[a + 1..a + 1 + |name|] == name && AllSpaces(s, a + 1 + |name|, e - 1) && s[e - 1] == '>'
  }

  /** The end found is the only end of a closing tag at `q`, and none is found exactly when there is none. */
  lemma CloserAtMeaning(s: string, q: nat, name: string, e: nat)
    requires q <= |s|
    ensures CloserAt(s, q, name) == Some(e) <==> exists a: nat :: CloserShape(s, q, name, a, e)
  {
    if CloserAt(s, q, name) == Some(e) {
      var a := SkipSpaces(s, q + 1);
      SkipWhileAll(s, q + 1, IsSpace);
      SkipWhileAll(s, a + 1 + |name|, IsSpace);
      assert CloserShape(s, q, name, a, e);
    }
    if exists a: nat :: CloserShape(s, q, name, a, e) {
      var a: nat :| CloserShape(s, q, name, a, e);
      CloserAtExact(s, q, name, a, e);
    }
  }

  lemma CloserAtExact(s: string, q: nat, name: string, a: nat, e: nat)
    requires CloserShape(s, q, name, a, e)
    ensures CloserAt(s, q, name) == Some(e)
  {
    SkipWhileExact(s, q + 1, a, IsSpace);
    SkipWhileExact(s, a + 1 + |name|, e - 1, IsSpace);
  }

  /**
    `enclosingTagMatcher.find(i)` for `(.*?)<\s*\/name\s*>`: the first closing
    tag at or after `i`, as its start and its end; group 1 is `s[i..start]`.
   */
  function FindCloser(s: string, i: nat, name: string): (r: Option<(nat, nat)>)
    requires i <= |s|
    ensures r.Some? ==>
      && i <= r.value.0 < r.value.1 <= |s| && CloserAt(s, r.value.0, name) == Some(r.value.1)
      && NoCloserIn(s, i, r.value.0, name)
    ensures r.None? ==> NoCloserIn(s, i, |s| + 1, name)
    decreases |s| - i
  {
    match CloserAt(s, i, name)
    case Some(e) => Some((i, e))
    case None => if i == |s| then None else FindCloser(s, i + 1, name)
  }

  /** No closing tag for `name` starts at any position from `i` up to `j`. */
  ghost predicate NoCloserIn(s: string, i: nat, j: nat, name: string)
    requires i <= j <= |s| + 1
    decreases j - i
  {
    i == j || (CloserAt(s, i, name).None? && NoCloserIn(s, i + 1, j, name))
  }

  lemma {:induction false} NoCloserInMeaning(s: string, i: nat, j: nat, name: string)
    requires i <= j <= |s| + 1
    ensures NoCloserIn(s, i, j, name) <==> forall q | i <= q < j :: CloserAt(s, q, name).None?
    decreases j - i
  {
    if i < j {
      NoCloserInMeaning(s, i + 1, j, name);
    }
  }

  /** The closer found is the leftmost one, and none is found exactly when no position holds one. */
  lemma FindCloserLeftmost(s: string, i: nat, name: string)
    requires i <= |s|
    ensures match FindCloser(s, i, name)
            case Some((q, e)) =>
              && i <= q < e <= |s| && CloserAt(s, q, name) == Some(e)
              && forall q' | i <= q' < q :: CloserAt(s, q', name).None?
            case None => forall q | i <= q <= |s| :: CloserAt(s, q, name).None?
  {
    match FindCloser(s, i, name)
    case Some((q, e)) => NoCloserInMeaning(s, i, q, name);
    case None => NoCloserInMeaning(s, i, |s| + 1, name);
  }

  /** The attribute map of `id` after `setAttribute` of each pair in turn. */
  function WithAttributes(st: Store, id: NodeId, ps: seq<(string, Option<string>)>): (r: Store)
    requires Wf(st) && id in st.nodes
    ensures Wf(r) && r.next == st.next && r.nodes.Keys == st.nodes.Keys
    ensures r.nodes[id] == st.nodes[id].(attrs := PutAll(st.nodes[id].attrs, ps))
    ensures forall x | x in st.nodes && x != id :: r.nodes[x] == st.nodes[x]
  {
    st.(nodes := st.nodes[id := st.nodes[id].(attrs := PutAll(st.nodes[id].attrs, ps))])
  }

  /** A node the reader created: named after its tag, attached, and never both valued and a parent. */
  ghost predicate IsElement(st: Store, x: NodeId)
    requires x in st.nodes
  {
    var r := st.nodes[x];
    && r.name.Some? && IsTagName(r.name.value) && r.parent.Some?
    && (r.value.Some? ==> r.children == [])
  }

  /**
    What a call that adds elements under `p` leaves untouched: old nodes other
    than `p` are unchanged, the old children of `p` come first, and every new
    node is an element.
   */
  ghost predicate Frame(st: Store, st': Store, p: NodeId)
    requires p in st.nodes
  {
    && Wf(st') && st.next <= st'.next && st.nodes.Keys <= st'.nodes.Keys
    && (forall x | x in st'.nodes && x !in st.nodes :: st.next <= x && IsElement(st', x))
    && (forall x | x in st.nodes && x != p :: st'.nodes[x] == st.nodes[x])
    && st.nodes[p].children <= st'.nodes[p].children
    && (forall j | |st.nodes[p].children| <= j < |st'.nodes[p].children| ::
          st'.nodes[p].children[j] !in st.nodes)
  }

  /** `readTags` under `p`: only the children of `p` change, and new nodes are elements. */
  ghost predicate Grown(st: Store, st': Store, p: NodeId)
    requires p in st.nodes
  {
    && Frame(st, st', p)
    && st'.nodes[p] == st.nodes[p].(children := st'.nodes[p].children)
  }

  /** Setting the value of `p` keeps every other part of the frame. */
  lemma FrameWithValue(st: Store, st': Store, p: NodeId, v: Option<string>)
    requires p in st.nodes && Frame(st, st', p)
    ensures Frame(st, WithValue(st', p, v), p)
    ensures WithValue(st', p, v).nodes[p] == st'.nodes[p].(value := v)
  {
    var r := WithValue(st', p, v);
    forall x | x in r.nodes && x !in st.nodes ensures st.next <= x && IsElement(r, x) {
      assert r.nodes[x] == st'.nodes[x];
    }
  }

  lemma GrownTrans(st0: Store, st1: Store, st2: Store, p: NodeId)
    requires p in st0.nodes && Grown(st0, st1, p) && Grown(st1, st2, p)
    ensures Grown(st0, st2, p)
  {
    var c0, c1, c2 := st0.nodes[p].children, st1.nodes[p].children, st2.nodes[p].children;
    forall j | |c0| <= j < |c2| ensures c2[j] !in st0.nodes {
      if j < |c1| {
        assert c2[j] == c1[j];
      }
    }
  }

  /**
    Lines 158-166: the matched tag becomes a new last child of `parent`,
    named after group 1, with the pairs of group 2 as its attributes.
   */
  function Begin(src: string, st: Store, parent: NodeId, m: TagMatch): (r: (Store, NodeId))
    requires Wf(st) && parent in st.nodes && IsTagName(m.name)
    requires m.group2.Some? ==> m.group2.value.0 <= m.group2.value.1 <= |src|
    ensures var (st2, e) := r;
            && e == st.next && e !in st.nodes && e in st2.nodes && e != parent
            && Grown(st, st2, parent)
            && st2.nodes[parent].children == st.nodes[parent].children + [e]
            && st2.nodes[e] == NodeRec(Some(m.name), None, PutAll([], TagPairs(src, m)), [], Some(parent))
  {
    var (st1, e) := WithNode(st, Some(m.name));
    var st2 := WithAttributes(WithChild(st1, parent, e), e, TagPairs(src, m));
    NewChildGrown(st, parent, m.name, TagPairs(src, m));
    (st2, e)
  }

  /** A new element appended to the children of `p`, and nothing else changed. */
  lemma NewChildGrown(st: Store, p: NodeId, name: string, ps: seq<(string, Option<string>)>)
    requires Wf(st) && p in st.nodes && IsTagName(name)
    ensures var (st1, e) := WithNode(st, Some(name));
            var st2 := WithAttributes(WithChild(st1, p, e), e, ps);
            && Grown(st, st2, p)
            && st2.nodes[p].children == st.nodes[p].children + [e]
            && st2.nodes[e] == NodeRec(Some(name), None, PutAll([], ps), [], Some(p))
  {
    var (st1, e) := WithNode(st, Some(name));
    var st2 := WithAttributes(WithChild(st1, p, e), e, ps);
    assert st2.nodes.Keys == st.nodes.Keys + {e};
    assert st2.nodes[p].children == st.nodes[p].children + [e];
  }

  /**
    Lines 155-189: the loop of `readTags` from cursor `i`; the new elements
    become children of `parent`, and the result is the final cursor.
   */
  function ReadTags(src: string, st: Store, parent: NodeId, i: nat): (r: Result<(Store, nat)>)
    requires i <= |src| && Wf(st) && parent in st.nodes
    ensures r.Ok? ==> i <= r.value.1 <= |src| && Grown(st, r.value.0, parent)
    ensures r.Ok? ==> FindTag(src, r.value.1).None?
    ensures r.Err? ==> r.error == EnclosingTagExpected
    decreases |src| - i, 1
  {
    match FindTag(src, i)
    case None => Ok((st, i))
    case Some(m) =>
      var (st2, e) := Begin(src, st, parent, m);
      var c: Result<(Store, nat)> := if m.selfClosing then Ok((st2, m.end)) else ReadContent(src, st2, e, m.end);
      match c
      case Err(f) => Err(f)
      case Ok((st3, j)) =>
        ContentGrown(st, st2, st3, parent, e);
        var r := ReadTags(src, st3, parent, j);
        if r.Ok? then GrownTrans(st, st3, r.value.0, parent); r else r
  }

  /** After the element `e` is complete, only the children of `parent` have changed. */
  lemma ContentGrown(st: Store, st2: Store, st3: Store, parent: NodeId, e: NodeId)
    requires parent in st.nodes && e in st2.nodes && e !in st.nodes && parent != e
    requires Grown(st, st2, parent) && st2.nodes[e].value.None?
    requires Frame(st2, st3, e)
    requires st3.nodes[e] == st2.nodes[e].(children := st3.nodes[e].children, value := st3.nodes[e].value)
    requires st3.nodes[e].value.Some? ==> st3.nodes[e].children == []
    ensures Grown(st, st3, parent)
  {
    assert st3.nodes[parent] == st2.nodes[parent];
    forall x | x in st3.nodes && x !in st.nodes ensures st.next <= x && IsElement(st3, x) {
      if x in st2.nodes && x != e {
        assert st3.nodes[x] == st2.nodes[x];
      }
    }
  }

  /** Each opening tag found adds at least one child under `parent`. */
  lemma ReadTagsAddsChildren(src: string, st: Store, parent: NodeId, i: nat)
    requires i <= |src| && Wf(st) && parent in st.nodes
    requires ReadTags(src, st, parent, i).Ok?
    ensures var st' := ReadTags(src, st, parent, i).value.0;
            FindTag(src, i).None? <==> st'.nodes[parent].children == st.nodes[parent].children
  {
    var st' := ReadTags(src, st, parent, i).value.0;
    if FindTag(src, i).Some? {
      var m := FindTag(src, i).value;
      var (st2, e) := Begin(src, st, parent, m);
      var c: Result<(Store, nat)> := if m.selfClosing then Ok((st2, m.end)) else ReadContent(src, st2, e, m.end);
      var (st3, j) := c.value;
      ContentGrown(st, st2, st3, parent, e);
      assert |st3.nodes[parent].children| <= |st'.nodes[parent].children|;
    }
  }

  /**
    Lines 168-184, for the element `e` whose `>` ends at `k`: read nested
    tags when the content sniffs as markup, then find `</name>`; an element
    left without children takes the text up to the closing tag as its value.
   */
  function ReadContent(src: string, st: Store, e: NodeId, k: nat): (r: Result<(Store, nat)>)
    requires k <= |src| && Wf(st) && e in st.nodes && st.nodes[e].name.Some?
    requires st.nodes[e].value.None?
    ensures r.Ok? ==> k < r.value.1 <= |src| && Frame(st, r.value.0, e)
    ensures r.Ok? ==> var n := r.value.0.nodes[e];
            && n == st.nodes[e].(children := n.children, value := n.value)
            && (n.value.Some? ==> n.children == [])
    ensures r.Err? ==> r.error == EnclosingTagExpected
    decreases |src| - k + 1, 0
  {
    var nested := if IsXml(src, k) then ReadTags(src, st, e, k) else Ok((st, k));
    match nested
    case Err(f) => Err(f)
    case Ok((st3, j)) =>
      match FindCloser(src, j, st.nodes[e].name.value)
      case None => Err(EnclosingTagExpected)
      case Some((q, end)) =>
        if st3.nodes[e].children == [] then
          FrameWithValue(st, st3, e, Some(src[j..q]));
          Ok((WithValue(st3, e, Some(src[j..q])), end))
        else Ok((st3, end))
  }

  /**
    An element that ends with no children gets as its value the raw text
    from the end of its opening tag to the first `</name>`; reading resumes
    after that closing tag.
   */
  lemma ContentValue(src: string, st: Store, e: NodeId, k: nat)
    requires k <= |src| && Wf(st) && e in st.nodes && st.nodes[e].name.Some?
    requires st.nodes[e].value.None? && st.nodes[e].children == []
    requires ReadContent(src, st, e, k).Ok?
    ensures var (st', end) := ReadContent(src, st, e, k).value;
            var c := FindCloser(src, k, st.nodes[e].name.value);
            st'.nodes[e].children == [] ==>
              && c.Some? && end == c.value.1
              && st'.nodes[e].value == Some(src[k..c.value.0])
  {
    if IsXml(src, k) {
      ReadTagsAddsChildren(src, st, e, k);
    }
  }

  /**
    Content that sniffs as markup is read as nested tags first. Those take
    every opening tag up to the end of the text, later siblings of the
    element included, and only then is `</name>` looked for: reading fails
    with "Enclosing tag expected." exactly when the nested reading fails or
    no `</name>` follows its cursor, and otherwise resumes after the first
    one, with the element keeping what the nested reading gave it.
   */
  lemma NestedContent(src: string, st: Store, e: NodeId, k: nat)
    requires k <= |src| && Wf(st) && e in st.nodes && st.nodes[e].name.Some?
    requires st.nodes[e].value.None?
    requires IsXml(src, k)
    ensures var n := ReadTags(src, st, e, k);
            var r := ReadContent(src, st, e, k);
            && (r.Ok? <==> n.Ok? && FindCloser(src, n.value.1, st.nodes[e].name.value).Some?)
            && (r.Err? ==> r.error == EnclosingTagExpected)
            && (r.Ok? ==>
                  && FindTag(src, n.value.1).None?
                  && r.value.1 == FindCloser(src, n.value.1, st.nodes[e].name.value).value.1
                  && (n.value.0.nodes[e].children != [] ==> r.value.0 == n.value.0))
  {
  }

  /** Content that does not sniff as markup fails exactly when no `</name>` follows. */
  lemma LeafContentFails(src: string, st: Store, e: NodeId, k: nat)
    requires k <= |src| && Wf(st) && e in st.nodes && st.nodes[e].name.Some?
    requires st.nodes[e].value.None?
    requires !IsXml(src, k)
    ensures ReadContent(src, st, e, k).Err? <==> FindCloser(src, k, st.nodes[e].name.value).None?
  {
  }

  /** `XmlReader.read`: the elements of `src` under a new unnamed root, id 0. */
  function ReadXml(src: string): (r: Result<Store>)
    ensures r.Ok? ==> Wf(r.value) && 0 in r.value.nodes && r.value.nodes[0].name.None?
    ensures r.Err? ==> r.error == EnclosingTagExpected
  {
    var (st, root) := WithNode(Store(map[], 0), None);
    match ReadTags(src, st, root, 0)
    case Ok((st', _)) => Ok(st')
    case Err(f) => Err(f)
  }

  /** Every node but the root is an element, and the root keeps no value, attribute or parent. */
  lemma ReadXmlShape(src: string)
    requires ReadXml(src).Ok?
    ensures var st := ReadXml(src).value;
            && st.nodes[0] == NodeRec(None, None, [], st.nodes[0].children, None)
            && forall x | x in st.nodes && x != 0 :: IsElement(st, x)
  {
    var (st, root) := WithNode(Store(map[], 0), None);
    var r := ReadTags(src, st, root, 0);
    assert r.Ok?;
    assert st.nodes.Keys == {0};
  }

  /** A `/>` tag adds an element with its attributes and no value or children, and reading goes on after it. */
  lemma SelfClosingStep(src: string, st: Store, parent: NodeId, i: nat)
    requires i <= |src| && Wf(st) && parent in st.nodes
    requires FindTag(src, i).Some? && FindTag(src, i).value.selfClosing
    ensures var m := FindTag(src, i).value;
            var (st2, e) := Begin(src, st, parent, m);
            && st2.nodes[e] == NodeRec(Some(m.name), None, PutAll([], TagPairs(src, m)), [], Some(parent))
            && ReadTags(src, st, parent, i) == ReadTags(src, st2, parent, m.end)
  {
  }

  /**
    A `>` tag whose content does not sniff as markup adds an element whose
    value is the raw text up to the first `</name>`, and reading goes on
    after that closing tag; without one, reading fails.
   */
  lemma LeafStep(src: string, st: Store, parent: NodeId, i: nat)
    requires i <= |src| && Wf(st) && parent in st.nodes
    requires FindTag(src, i).Some? && !FindTag(src, i).value.selfClosing
    requires !IsXml(src, FindTag(src, i).value.end)
    ensures var m := FindTag(src, i).value;
            var (st2, e) := Begin(src, st, parent, m);
            match FindCloser(src, m.end, m.name)
            case None => ReadTags(src, st, parent, i) == Err(EnclosingTagExpected)
            case Some((q, end)) =>
              var st3 := WithValue(st2, e, Some(src[m.end..q]));
              && st3.nodes[e] ==
                 NodeRec(Some(m.name), Some(src[m.end..q]), PutAll([], TagPairs(src, m)), [], Some(parent))
              && ReadTags(src, st, parent, i) == ReadTags(src, st3, parent, end)
  {
  }

  /** Attributes are set in order: for each name the last pair wins, and the rest keep their value. */
  lemma TagAttributes(src: string, m: TagMatch, k: string)
    requires m.group2.Some? ==> m.group2.value.0 <= m.group2.value.1 <= |src|
    ensures var ps := TagPairs(src, m);
            Get(PutAll([], ps), k) == if LastIndex(ps, k) < 0 then None else Some(ps[LastIndex(ps, k)].1)
  {
    PutAllGet([], TagPairs(src, m), k);
  }

  /** The steps of `readTags`, performed on the arena in place. */
  method ReadTagsInPlace(arena: Arena, src: string, parent: NodeId, start: nat) returns (r: Result<nat>)
    requires start <= |src| && arena.Valid() && parent in arena.nodes
    modifies arena
    ensures arena.Valid()
    ensures match r
            case Ok(j) => ReadTags(src, old(arena.State()), parent, start) == Ok((arena.State(), j))
            case Err(f) => ReadTags(src, old(arena.State()), parent, start) == Err(f)
    decreases |src| - start, 2
  {
    ghost var goal := ReadTags(src, arena.State(), parent, start);
    var i := start;
    while FindTag(src, i).Some?
      invariant start <= i <= |src| && arena.Valid() && parent in arena.nodes
      invariant ReadTags(src, arena.State(), parent, i) == goal
      decreases |src| - i
    {
      var m := FindTag(src, i).value;
      ghost var st, i0 := arena.State(), i;
      var e := BeginInPlace(arena, src, parent, m);
      ghost var st2 := arena.State();
      if m.selfClosing {
        i := m.end;
      } else {
        var content := ContentInPlace(arena, src, e, m.end);
        if content.Err? {
          return Err(content.error);
        }
        i := content.value;
      }
      assert ReadTags(src, arena.State(), parent, i) == ReadTags(src, st, parent, i0);
    }
    r := Ok(i);
  }

  /** Lines 158-166 in place: the new element and its attributes. */
  method BeginInPlace(arena: Arena, src: string, parent: NodeId, m: TagMatch) returns (e: NodeId)
    requires arena.Valid() && parent in arena.nodes && IsTagName(m.name)
    requires m.group2.Some? ==> m.group2.value.0 <= m.group2.value.1 <= |src|
    modifies arena
    ensures arena.Valid() && (arena.State(), e) == Begin(src, old(arena.State()), parent, m)
  {
    e := arena.AddChildNamed(parent, Some(m.name));
    if m.group2.Some? {
      SetAttributesInPlace(arena, e, src[m.group2.value.0..m.group2.value.1]);
    } else {
      assert arena.State() == WithAttributes(arena.State(), e, []);
    }
  }

  /** Lines 161-164: `setAttribute` for each attribute `attrMatcher.find()` finds in group 2. */
  method SetAttributesInPlace(arena: Arena, e: NodeId, t: string)
    requires arena.Valid() && e in arena.nodes
    modifies arena
    ensures arena.Valid() && arena.State() == WithAttributes(old(arena.State()), e, AttributePairs(t, 0))
  {
    ghost var st1 := arena.State();
    var from := 0;
    ghost var done: seq<(string, Option<string>)> := [];
    assert arena.State() == WithAttributes(st1, e, done);
    while NextAttr(t, from).Some?
      invariant from <= |t| && arena.Valid() && e in arena.nodes
      invariant AttributePairs(t, 0) == done + AttributePairs(t, from)
      invariant arena.State() == WithAttributes(st1, e, done)
      decreases |t| - from
    {
      var x := NextAttr(t, from).value;
      var n, v, end := x.0, x.1, x.2;
      AttributePairsStep(t, from);
      assert done + AttributePairs(t, from) == (done + [(n, Some(v))]) + AttributePairs(t, end);
      arena.SetAttribute(e, n, Some(v));
      WithAttributesSnoc(st1, e, done, (n, Some(v)));
      done := done + [(n, Some(v))];
      from := end;
    }
    assert AttributePairs(t, from) == [] && done + [] == done;
  }

  lemma AttributePairsStep(t: string, from: nat)
    requires from <= |t| && NextAttr(t, from).Some?
    ensures var (n, v, end) := NextAttr(t, from).value;
            AttributePairs(t, from) == [(n, Some(v))] + AttributePairs(t, end)
  {
  }

  lemma WithAttributesSnoc(st: Store, id: NodeId, done: seq<(string, Option<string>)>, p: (string, Option<string>))
    requires Wf(st) && id in st.nodes
    ensures WithAttribute(WithAttributes(st, id, done), id, p.0, p.1) == WithAttributes(st, id, done + [p])
  {
    assert (done + [p])[..|done|] == done;
  }

  /** Lines 168-184 in place, for the element `e` whose `>` ends at `k`. */
  method ContentInPlace(arena: Arena, src: string, e: NodeId, k: nat) returns (r: Result<nat>)
    requires k <= |src| && arena.Valid() && e in arena.nodes && arena.nodes[e].name.Some?
    requires arena.nodes[e].value.None?
    modifies arena
    ensures arena.Valid()
    ensures match r
            case Ok(j) => ReadContent(src, old(arena.State()), e, k) == Ok((arena.State(), j))
            case Err(f) => ReadContent(src, old(arena.State()), e, k) == Err(f)
    decreases |src| - k + 1, 0
  {
    var name := arena.nodes[e].name.value;
    var i := k;
    if IsXml(src, i) {
      var nested := ReadTagsInPlace(arena, src, e, i);
      if nested.Err? {
        return Err(nested.error);
      }
      i := nested.value;
    }
    var closer := FindCloser(src, i, name);
    if closer.None? {
      return Err(EnclosingTagExpected);
    }
    var hasChildren := arena.HasChildren(e);
    if !hasChildren {
      arena.SetValue(e, Some(src[i..closer.value.0]));
    }
    r := Ok(closer.value.1);
  }

  /** `XmlReader.read`, on a fresh arena. */
  method Read(src: string) returns (arena: Arena, r: Result<NodeId>)
    ensures fresh(arena) && arena.Valid()
    ensures match r
            case Ok(root) => root == 0 && ReadXml(src) == Ok(arena.State())
            case Err(f) => ReadXml(src) == Err(f)
  {
    arena := new Arena();
    var root := arena.NewNode(None);
    var res := ReadTagsInPlace(arena, src, root, 0);
    r := if res.Ok? then Ok(root) else Err(res.error);
  }
}
