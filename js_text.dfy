/**
 * The few JavaScript string operations the SASS strategy relies on:
 * `\s` and `String.prototype.trim`, `replace(/;/g, '')`, `indexOf` /
 * `replace` with a string pattern (including the `$`-patterns of the
 * replacement string) and `Array.prototype.join`.
 */
module JsText {
  import opened Wrappers

  /** A line terminator: the characters that `.` in a regular expression does not match. */
  predicate IsLineTerminator(c: char) {
    c == '\n' || c == '\r' || c == '\U{2028}' || c == '\U{2029}'
  }

  /** JavaScript white space or line terminator: what `\s` matches and `trim` strips. */
  predicate IsWhitespace(c: char) {
    IsLineTerminator(c) || c == '\t' || c == '\U{B}' || c == '\U{C}' || c == ' ' ||
    c == '\U{A0}' || c == '\U{FEFF}' || c == '\U{1680}' || ('\U{2000}' <= c <= '\U{200A}') ||
    c == '\U{202F}' || c == '\U{205F}' || c == '\U{3000}'
  }

  function TrimStart(s: string): (r: string)
    ensures |r| <= |s| && r == s[|s| - |r|..]
    ensures forall k :: 0 <= k < |s| - |r| ==> IsWhitespace(s[k])
    ensures r == [] || !IsWhitespace(r[0])
  {
    if s == [] || !IsWhitespace(s[0]) then s else TrimStart(s[1..])
  }

  function TrimEnd(s: string): (r: string)
    ensures |r| <= |s| && r == s[..|r|]
    ensures forall k :: |r| <= k < |s| ==> IsWhitespace(s[k])
    ensures r == [] || !IsWhitespace(r[|r| - 1])
  {
    if s == [] || !IsWhitespace(s[|s| - 1]) then s else TrimEnd(s[..|s| - 1])
  }

  /** `s.trim()`: white space is removed from both ends and only from the ends. */
  function Trim(s: string): (r: string)
    ensures |r| <= |s|
    ensures r == [] || (!IsWhitespace(r[0]) && !IsWhitespace(r[|r| - 1]))
    ensures (forall k :: 0 <= k < |s| ==> !IsWhitespace(s[k])) ==> r == s
    ensures (forall k :: 0 <= k < |s| ==> IsWhitespace(s[k])) ==> r == []
    ensures exists i, j :: Between(s, r, i, j)
  {
    TrimIsSlice(s);
    TrimEnd(TrimStart(s))
  }

  /** `TrimEnd(TrimStart(s))` is the slice of `s` between its leading and its trailing white space. */
  lemma TrimIsSlice(s: string)
    ensures exists i, j :: Between(s, TrimEnd(TrimStart(s)), i, j)
  {
    var t := TrimStart(s);
    var i := |s| - |t|;
    var r := TrimEnd(t);
    var j := i + |r|;
    assert r == s[i..j] by {
      assert t == s[i..] && r == t[..|r|];
    }
    assert forall k :: j <= k < |s| ==> IsWhitespace(s[k]) by {
      forall k | j <= k < |s| ensures IsWhitespace(s[k]) {
        assert t == s[i..] && s[k] == t[k - i];
      }
    }
    assert Between(s, r, i, j);
  }

  /** `r` is `s[i..j]` and only white space lies outside it. */
  ghost predicate Between(s: string, r: string, i: int, j: int) {
    0 <= i <= j <= |s| && r == s[i..j] &&
    (forall k :: 0 <= k < i ==> IsWhitespace(s[k])) && (forall k :: j <= k < |s| ==> IsWhitespace(s[k]))
  }

  /** `s.replace(new RegExp(c, 'g'), '')`: every `c` removed, every other character kept in order. */
  function RemoveAll(s: string, c: char): (r: string)
    ensures c !in r
    ensures |r| <= |s|
    ensures c !in s ==> r == s
    ensures forall x :: x != c ==> multiset(r)[x] == multiset(s)[x]
  {
    if s == [] then []
    else
      var rest := RemoveAll(s[1..], c);
      assert s == [s[0]] + s[1..];
      assert multiset(s) == multiset([s[0]]) + multiset(s[1..]);
      if s[0] == c then rest
      else
        assert multiset([s[0]] + rest) == multiset([s[0]]) + multiset(rest);
        [s[0]] + rest
  }

  /** Removal works character by character, so the characters kept stay in their order. */
  lemma {:induction false} RemoveAllKeepsOrder(a: string, b: string, c: char)
    ensures RemoveAll(a + b, c) == RemoveAll(a, c) + RemoveAll(b, c)
  {
    if a != [] {
      assert (a + b)[1..] == a[1..] + b;
      RemoveAllKeepsOrder(a[1..], b, c);
    } else {
      assert a + b == b;
    }
  }

  /** `pat` occurs in `s` at index `p`. */
  predicate OccursAt(s: string, pat: string, p: nat) {
    p + |pat| <= |s| && s[p..p + |pat|] == pat
  }

  function IndexOfFrom(s: string, pat: string, from: nat): (r: Option<nat>)
    decreases |s| - from
    ensures r.Some? ==> from <= r.value && OccursAt(s, pat, r.value)
    ensures forall p: nat :: from <= p && (r.None? || p < r.value) ==> !OccursAt(s, pat, p)
  {
    if from + |pat| > |s| then None
    else if s[from..from + |pat|] == pat then Some(from)
    else IndexOfFrom(s, pat, from + 1)
  }

  /** `s.indexOf(pat)`: the first index at which `pat` occurs, if any. */
  function IndexOf(s: string, pat: string): (r: Option<nat>)
    ensures r.Some? ==> OccursAt(s, pat, r.value)
    ensures forall p: nat :: (r.None? || p < r.value) ==> !OccursAt(s, pat, p)
  {
    IndexOfFrom(s, pat, 0)
  }

  /** No `$` in `rep` starts one of the patterns `$$`, `$&`, `` $` ``, `$'`. */
  predicate PatternFree(rep: string) {
    forall i :: 0 <= i < |rep| - 1 && rep[i] == '$' ==> rep[i + 1] !in "$&`'"
  }

  /**
   * The replacement text that `replace` inserts for a string pattern
   * (GetSubstitution in ECMA-262 without capture groups): `$$` is `$`,
   * `$&` the matched text, `` $` `` the text before it and `$'` the
   * text after it; every other character, `$` included, stands for itself.
   */
  function Expand(rep: string, matched: string, before: string, after: string): (r: string)
    decreases |rep|
    ensures PatternFree(rep) ==> r == rep
  {
    if rep == [] then []
    else if rep[0] == '$' && |rep| >= 2 && rep[1] in "$&`'" then
      var piece := match rep[1]
        case '$' => "$"
        case '&' => matched
        case '`' => before
        case _ => after;
      piece + Expand(rep[2..], matched, before, after)
    else
      assert PatternFree(rep) ==> PatternFree(rep[1..]) by {
        if PatternFree(rep) {
          forall i | 0 <= i < |rep[1..]| - 1 && rep[1..][i] == '$' ensures rep[1..][i + 1] !in "$&`'" {
            assert rep[1..][i] == rep[i + 1] && rep[1..][i + 1] == rep[i + 2];
          }
        }
      }
      [rep[0]] + Expand(rep[1..], matched, before, after)
  }

  /**
   * `s.replace(pat, rep)` with a string pattern: only the first occurrence is
   * replaced. Whatever `rep` holds, the text before and after that occurrence
   * is kept; a pattern-free `rep` is inserted as it is.
   */
  function ReplaceFirst(s: string, pat: string, rep: string): (r: string)
    ensures IndexOf(s, pat).None? ==> r == s
    ensures IndexOf(s, pat).Some? ==>
              var p := IndexOf(s, pat).value;
              var tail := |s| - (p + |pat|);
              tail <= |r| - p && r[..p] == s[..p] && r[|r| - tail..] == s[p + |pat|..]
    ensures IndexOf(s, pat).Some? && PatternFree(rep) ==>
              var p := IndexOf(s, pat).value;
              r == s[..p] + rep + s[p + |pat|..]
  {
    match IndexOf(s, pat)
    case None => s
    case Some(p) => s[..p] + Expand(rep, pat, s[..p], s[p + |pat|..]) + s[p + |pat|..]
  }

  /** `parts.join(sep)`. */
  function Join(parts: seq<string>, sep: string): (r: string)
    ensures |parts| == 1 ==> r == parts[0]
    ensures parts == [] ==> r == []
  {
    if parts == [] then []
    else if |parts| == 1 then parts[0]
    else parts[0] + sep + Join(parts[1..], sep)
  }

  /** One more part is added after the separator: the parts appear in order, one separator between neighbours. */
  lemma {:induction false} JoinSnoc(parts: seq<string>, sep: string, p: string)
    requires parts != []
    ensures Join(parts + [p], sep) == Join(parts, sep) + sep + p
  {
    if |parts| > 1 {
      assert (parts + [p])[1..] == parts[1..] + [p];
      JoinSnoc(parts[1..], sep, p);
    }
  }

  /** The length of a join: every part, and one separator between each two neighbours. */
  lemma {:induction false} JoinLength(parts: seq<string>, sep: string)
    requires parts != []
    ensures |Join(parts, sep)| == SumOfLengths(parts) + (|parts| - 1) * |sep|
  {
    if |parts| > 1 {
      JoinLength(parts[1..], sep);
    }
  }

  function SumOfLengths(parts: seq<string>): nat {
    if parts == [] then 0 else |parts[0]| + SumOfLengths(parts[1..])
  }
}
