/**
  Character classes of `java.util.regex` and the greedy scanners that stand in
  for the regular expressions of the readers.
 */
module Text {
  import opened Wrappers

  /** `\s`: space, tab, newline, vertical tab, form feed, carriage return. */
  predicate IsSpace(c: char)
  {
    c == ' ' || c == '\t' || c == '\n' || c == '\U{B}' || c == '\U{C}' || c == '\r'
  }

  predicate IsLetter(c: char)
  {
    'a' <= c <= 'z' || 'A' <= c <= 'Z'
  }

  /** `\d` */
  predicate IsDigit(c: char)
  {
    '0' <= c <= '9'
  }

  /** `\w` */
  predicate IsWordChar(c: char)
  {
    IsLetter(c) || IsDigit(c) || c == '_'
  }

  /** `[a-z_]` under the case-insensitive flag. */
  predicate IsNameStart(c: char)
  {
    IsLetter(c) || c == '_'
  }

  /** The end of the longest run of characters satisfying `p` from `i`: a greedy `p*`. */
  function SkipWhile(s: string, i: nat, p: char -> bool): (j: nat)
    requires i <= |s|
    ensures i <= j <= |s|
    ensures j < |s| ==> !p(s[j])
    decreases |s| - i
  {
    if i < |s| && p(s[i]) then SkipWhile(s, i + 1, p) else i
  }

  /** Every character a greedy scan skips satisfies `p`. */
  lemma {:induction false} SkipWhileAll(s: string, i: nat, p: char -> bool)
    requires i <= |s|
    ensures forall k :: i <= k < SkipWhile(s, i, p) ==> p(s[k])
    decreases |s| - i
  {
    if i < |s| && p(s[i]) {
      SkipWhileAll(s, i + 1, p);
    }
  }

  /** `\s*` */
  function SkipSpaces(s: string, i: nat): (j: nat)
    requires i <= |s|
    ensures i <= j <= |s|
  {
    SkipWhile(s, i, IsSpace)
  }

  /** A greedy scan stops exactly at the first position that does not satisfy `p`. */
  lemma {:induction false} SkipWhileExact(s: string, i: nat, j: nat, p: char -> bool)
    requires i <= j <= |s|
    requires forall k :: i <= k < j ==> p(s[k])
    requires j < |s| ==> !p(s[j])
    ensures SkipWhile(s, i, p) == j
    decreases j - i
  {
    if i < j {
      SkipWhileExact(s, i + 1, j, p);
    }
  }

  /** Every character of `s[i..j]` is a space: what any run of `\s*` may cover. */
  ghost predicate AllSpaces(s: string, i: nat, j: nat)
    requires i <= j <= |s|
  {
    forall k | i <= k < j :: IsSpace(s[k])
  }

  /** Lazy `.*?c`: the first position at or after `i` holding `c`. */
  function FindChar(s: string, i: nat, c: char): (r: Option<nat>)
    requires i <= |s|
    ensures r.Some? ==> i <= r.value < |s| && s[r.value] == c
    ensures forall k | i <= k < |s| && (r.None? || k < r.value) :: s[k] != c
    decreases |s| - i
  {
    if i == |s| then None
    else if s[i] == c then Some(i)
    else FindChar(s, i + 1, c)
  }

  /** The text `t` occurs in `s` at position `i`. */
  predicate At(s: string, i: nat, t: string)
  {
    i + |t| <= |s| && s[i..i + |t|] == t
  }

  /** The names joined with ", ", as `getPath` builds them. */
  function Join(names: seq<string>): string
  {
    if |names| == 0 then ""
    else if |names| == 1 then names[0]
    else names[0] + ", " + Join(names[1..])
  }

  /** Prepending a name puts it before a separator, or alone when nothing follows it. */
  lemma JoinCons(n: string, names: seq<string>)
    ensures Join([n] + names) == if names == [] then n else n + ", " + Join(names)
  {
    assert ([n] + names)[1..] == names;
  }

  /** Appending a name appends it after a separator, or alone when nothing precedes it. */
  lemma {:induction false} JoinSnoc(names: seq<string>, n: string)
    ensures Join(names + [n]) == if names == [] then n else Join(names) + ", " + n
  {
    if |names| >= 1 {
      assert (names + [n])[1..] == names[1..] + [n];
      JoinSnoc(names[1..], n);
    }
  }
}
