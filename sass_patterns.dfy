/**
 * The four regular expressions of the SASS strategy
 * (src/lib/variables/strategies/sass-strategy.ts, lines 9-14) as explicit
 * scanners over a line of text. Each rule has a declarative predicate that
 * says which texts the regular expression accepts (`...MatchesAt`), a
 * scanner that computes the match the backtracking engine reports at one
 * position (`...At`), and a search that finds the leftmost match at or
 * after a cursor (`Find...`), as `exec` on a global expression does.
 *
 * The imported `EOL` pattern is the parameter `eol`: the end of the text,
 * or one character of `eol`, which the match consumes.
 */
module SassPatterns {
  import opened Wrappers
  import opened JsText

  /** `[_a-z]` under the `i` flag. */
  predicate IsIdentStart(c: char) {
    ('a' <= c <= 'z') || ('A' <= c <= 'Z') || c == '_'
  }

  /** `[\-_a-z\d]` under the `i` flag. */
  predicate IsIdentChar(c: char) {
    IsIdentStart(c) || ('0' <= c <= '9') || c == '-'
  }

  /** End of the longest run of identifier characters starting at `from`. */
  function IdentEnd(text: string, from: nat): (r: nat)
    requires from <= |text|
    decreases |text| - from
    ensures from <= r <= |text|
    ensures forall k :: from <= k < r ==> IsIdentChar(text[k])
    ensures r == |text| || !IsIdentChar(text[r])
  {
    if from == |text| || !IsIdentChar(text[from]) then from else IdentEnd(text, from + 1)
  }

  lemma {:induction false} IdentRunWithin(text: string, from: nat, j: nat)
    requires from <= j <= |text|
    requires forall k :: from <= k < j ==> IsIdentChar(text[k])
    ensures j <= IdentEnd(text, from)
    decreases j - from
  {
    if from < j { IdentRunWithin(text, from + 1, j); }
  }

  lemma {:induction false} IdentEndBefore(text: string, from: nat, p: nat)
    requires from <= p < |text| && !IsIdentChar(text[p])
    ensures IdentEnd(text, from) <= p
    decreases p - from
  {
    if from < p && IsIdentChar(text[from]) { IdentEndBefore(text, from + 1, p); }
  }

  /** End of the longest run of white space starting at `from` (what `\s*` takes). */
  function SpaceEnd(text: string, from: nat): (r: nat)
    requires from <= |text|
    decreases |text| - from
    ensures from <= r <= |text|
    ensures forall k :: from <= k < r ==> IsWhitespace(text[k])
    ensures r == |text| || !IsWhitespace(text[r])
  {
    if from == |text| || !IsWhitespace(text[from]) then from else SpaceEnd(text, from + 1)
  }

  lemma {:induction false} SpaceRunWithin(text: string, from: nat, j: nat)
    requires from <= j <= |text|
    requires forall k :: from <= k < j ==> IsWhitespace(text[k])
    ensures j <= SpaceEnd(text, from)
    decreases j - from
  {
    if from < j { SpaceRunWithin(text, from + 1, j); }
  }

  lemma {:induction false} SpaceEndBefore(text: string, from: nat, p: nat)
    requires from <= p < |text| && !IsWhitespace(text[p])
    ensures SpaceEnd(text, from) <= p
    decreases p - from
  {
    if from < p && IsWhitespace(text[from]) { SpaceEndBefore(text, from + 1, p); }
  }

  /** The `EOL` pattern holds at `j`: end of the text or a terminator character. */
  predicate EolAt(text: string, j: nat, eol: set<char>) {
    j == |text| || (j < |text| && text[j] in eol)
  }

  /** Where a match ends once the terminator at `j` has been consumed. */
  function EolEnd(text: string, j: nat): nat {
    if j < |text| then j + 1 else j
  }

  // ---------------------------------------------------------------------
  // REGEXP (global) and REGEXP_ONE (anchored): `(\$ident(?!:))EOL`
  // ---------------------------------------------------------------------

  datatype UsageMatch = UsageMatch(start: nat, name: string, end: nat)

  /** The usage rule accepts `text[i..j]` as the variable reference `$name`. */
  ghost predicate UsageMatchesAt(text: string, i: nat, j: nat, eol: set<char>) {
    i + 2 <= j <= |text| && text[i] == '$' && IsIdentStart(text[i + 1]) &&
    (forall k :: i + 2 <= k < j ==> IsIdentChar(text[k])) &&
    (j == |text| || text[j] != ':') && EolAt(text, j, eol)
  }

  /** A name may end at `j`: `(?!:)` and then `EOL` succeed there. */
  predicate NameMayEndAt(text: string, j: nat, eol: set<char>) {
    j <= |text| && (j == |text| || text[j] != ':') && EolAt(text, j, eol)
  }

  /** The largest `j` in `[lo, hi]` at which a name may end (the greedy engine tries longest first). */
  function LongestNameEnd(text: string, lo: nat, hi: nat, eol: set<char>): (r: Option<nat>)
    requires lo <= hi <= |text|
    decreases hi - lo
    ensures r.Some? ==> lo <= r.value <= hi && NameMayEndAt(text, r.value, eol)
    ensures forall j: nat :: (if r.Some? then r.value < j else lo <= j) && j <= hi ==> !NameMayEndAt(text, j, eol)
  {
    if NameMayEndAt(text, hi, eol) then Some(hi)
    else if hi == lo then None
    else LongestNameEnd(text, lo, hi - 1, eol)
  }

  /** The usage match that the expression reports when it is tried at index `i`. */
  function UsageAt(text: string, i: nat, eol: set<char>): (r: Option<UsageMatch>)
    ensures r.Some? ==>
              var j := i + |r.value.name|;
              r.value.start == i && UsageMatchesAt(text, i, j, eol) && r.value.name == text[i..j] &&
              r.value.end == EolEnd(text, j) && i < r.value.end <= |text|
    ensures forall j: nat :: UsageMatchesAt(text, i, j, eol) ==> r.Some? && j <= i + |r.value.name|
  {
    if i + 1 < |text| && text[i] == '$' && IsIdentStart(text[i + 1]) then
      var hi := IdentEnd(text, i + 2);
      assert forall j: nat :: UsageMatchesAt(text, i, j, eol) ==> j <= hi && NameMayEndAt(text, j, eol) by {
        forall j: nat | UsageMatchesAt(text, i, j, eol) ensures j <= hi {
          IdentRunWithin(text, i + 2, j);
        }
      }
      match LongestNameEnd(text, i + 2, hi, eol)
      case None => None
      case Some(j) => Some(UsageMatch(i, text[i..j], EolEnd(text, j)))
    else None
  }

  /** `REGEXP.exec(text)` with `lastIndex == from`: the leftmost usage match at or after `from`. */
  function FindUsage(text: string, from: nat, eol: set<char>): (r: Option<UsageMatch>)
    decreases |text| - from
    ensures r.Some? ==> from <= r.value.start && UsageAt(text, r.value.start, eol) == r
    ensures r.Some? ==> r.value.start < r.value.end <= |text|
    ensures forall i: nat :: from <= i && (r.None? || i < r.value.start) ==> UsageAt(text, i, eol).None?
  {
    if from >= |text| then None
    else match UsageAt(text, from, eol)
      case Some(m) => Some(m)
      case None => FindUsage(text, from + 1, eol)
  }

  // ---------------------------------------------------------------------
  // DECLARATION_REGEXP: `(?:(\$ident\s*):)EOL`
  // ---------------------------------------------------------------------

  /** A declaration match: the name, the index of its colon and the end of the match. */
  datatype DeclMatch = DeclMatch(start: nat, name: string, colon: nat, end: nat)

  /** The declaration rule accepts `$name` at `i..j`, white space up to the colon at `w`, then `EOL`. */
  ghost predicate DeclMatchesAt(text: string, i: nat, j: nat, w: nat, eol: set<char>) {
    i + 2 <= j <= w < |text| && text[i] == '$' && IsIdentStart(text[i + 1]) &&
    (forall k :: i + 2 <= k < j ==> IsIdentChar(text[k])) &&
    (forall k :: j <= k < w ==> IsWhitespace(text[k])) &&
    text[w] == ':' && EolAt(text, w + 1, eol)
  }

  /** A declaration match takes the whole identifier and then all the white space before the colon. */
  lemma DeclMatchUnique(text: string, i: nat, j: nat, w: nat, eol: set<char>)
    requires DeclMatchesAt(text, i, j, w, eol)
    ensures j == IdentEnd(text, i + 2) && w == SpaceEnd(text, j)
  {
    IdentRunWithin(text, i + 2, j);
    assert !IsIdentChar(text[j]) by {
      assert IsWhitespace(text[j]) || text[j] == ':';
    }
    IdentEndBefore(text, i + 2, j);
    SpaceRunWithin(text, j, w);
    SpaceEndBefore(text, j, w);
  }

  /**
   * The declaration match at `i`. Backtracking cannot change the outcome
   * here: a shorter name or a shorter run of white space would put an
   * identifier or space character where the colon must be, so the match,
   * when there is one, is unique. The name is group 1 trimmed, that is the
   * `$name` without the white space before the colon.
   */
  function DeclAt(text: string, i: nat, eol: set<char>): (r: Option<DeclMatch>)
    ensures r.Some? ==>
              var j := i + |r.value.name|;
              r.value.start == i && DeclMatchesAt(text, i, j, r.value.colon, eol) &&
              r.value.name == text[i..j] && r.value.end == EolEnd(text, r.value.colon + 1) &&
              i < r.value.end <= |text|
    ensures forall j: nat, w: nat :: DeclMatchesAt(text, i, j, w, eol) ==>
              r.Some? && j == i + |r.value.name| && w == r.value.colon
  {
    if i + 1 < |text| && text[i] == '$' && IsIdentStart(text[i + 1]) then
      var j := IdentEnd(text, i + 2);
      var w := SpaceEnd(text, j);
      assert forall j': nat, w': nat :: DeclMatchesAt(text, i, j', w', eol) ==> j' == j && w' == w by {
        forall j': nat, w': nat | DeclMatchesAt(text, i, j', w', eol) ensures j' == j && w' == w {
          DeclMatchUnique(text, i, j', w', eol);
        }
      }
      if w < |text| && text[w] == ':' && EolAt(text, w + 1, eol) then
        Some(DeclMatch(i, text[i..j], w, EolEnd(text, w + 1)))
      else None
    else None
  }

  /** `DECLARATION_REGEXP.exec(text)` with `lastIndex == from`. */
  function FindDecl(text: string, from: nat, eol: set<char>): (r: Option<DeclMatch>)
    decreases |text| - from
    ensures r.Some? ==> from <= r.value.start && DeclAt(text, r.value.start, eol) == r
    ensures r.Some? ==> r.value.start < r.value.end <= |text|
    ensures forall i: nat :: from <= i && (r.None? || i < r.value.start) ==> DeclAt(text, i, eol).None?
  {
    if from >= |text| then None
    else match DeclAt(text, from, eol)
      case Some(m) => Some(m)
      case None => FindDecl(text, from + 1, eol)
  }

  // ---------------------------------------------------------------------
  // FUNCTION_REGEXP: `((?:rgb|hsl)[a]?\((.*)\))(?:$|"|'|,| |;|\)|\r|\n)`
  // ---------------------------------------------------------------------

  /** A call match: group 2 (the argument list) is `text[argStart..argEnd]`. */
  datatype CallMatch = CallMatch(start: nat, argStart: nat, argEnd: nat, end: nat)

  /** The characters the function rule accepts after the closing parenthesis. */
  const CallTerminators: set<char> := {'"', '\'', ',', ' ', ';', ')', '\r', '\n'}

  /** A closing parenthesis at `k` that the function rule may end on. */
  predicate IsCloseAt(text: string, k: nat) {
    k < |text| && text[k] == ')' && (k + 1 == |text| || text[k + 1] in CallTerminators)
  }

  /**
   * `c` matches the letter `lower` under the `i` flag. Without the `u` flag
   * case folding never maps a character outside ASCII onto an ASCII letter,
   * so only the upper-case ASCII letter matches besides `lower` itself.
   */
  predicate LetterIs(c: char, lower: char)
    requires 'a' <= lower <= 'z'
  {
    c == lower || c as int == lower as int - 32
  }

  /** `rgb` or `hsl` at `i`, in any letter case. */
  predicate CallNameAt(text: string, i: nat) {
    i + 3 <= |text| &&
    ((LetterIs(text[i], 'r') && LetterIs(text[i + 1], 'g') && LetterIs(text[i + 2], 'b')) ||
     (LetterIs(text[i], 'h') && LetterIs(text[i + 1], 's') && LetterIs(text[i + 2], 'l')))
  }

  /** The function rule accepts a call at `i` whose `(` is at `open` and whose closing `)` is at `k`. */
  ghost predicate CallMatchesAt(text: string, i: nat, open: nat, k: nat) {
    open < k && IsCloseAt(text, k) && CallNameAt(text, i) &&
    (open == i + 3 || (open == i + 4 && LetterIs(text[i + 3], 'a'))) && text[open] == '(' &&
    (forall p :: open < p < k ==> !IsLineTerminator(text[p]))
  }

  /** The first line terminator at or after `from` (or the end): how far `.*` can reach. */
  function LineEnd(text: string, from: nat): (r: nat)
    requires from <= |text|
    decreases |text| - from
    ensures from <= r <= |text|
    ensures forall p :: from <= p < r ==> !IsLineTerminator(text[p])
    ensures r == |text| || IsLineTerminator(text[r])
  {
    if from == |text| || IsLineTerminator(text[from]) then from else LineEnd(text, from + 1)
  }

  /** The last closing parenthesis in `[lo, hi)` the rule may end on (greedy `.*`). */
  function LastClose(text: string, lo: nat, hi: nat): (r: Option<nat>)
    requires lo <= hi <= |text|
    decreases hi - lo
    ensures r.Some? ==> lo <= r.value < hi && IsCloseAt(text, r.value)
    ensures forall k: nat :: (if r.Some? then r.value < k else lo <= k) && k < hi ==> !IsCloseAt(text, k)
  {
    if hi == lo then None
    else if IsCloseAt(text, hi - 1) then Some(hi - 1)
    else LastClose(text, lo, hi - 1)
  }

  /** Where the `(` of a call at `i` must be: after the name and an optional `a`. */
  function OpenIndex(text: string, i: nat): nat {
    if i + 3 < |text| && LetterIs(text[i + 3], 'a') then i + 4 else i + 3
  }

  /** The call match that the expression reports when it is tried at index `i`. */
  function CallAt(text: string, i: nat): (r: Option<CallMatch>)
    ensures r.Some? ==>
              r.value.start == i && i + 4 <= r.value.argStart &&
              CallMatchesAt(text, i, r.value.argStart - 1, r.value.argEnd) &&
              r.value.end == EolEnd(text, r.value.argEnd + 1) &&
              r.value.argStart <= r.value.argEnd < r.value.end <= |text|
    ensures forall open: nat, k: nat :: CallMatchesAt(text, i, open, k) ==>
              r.Some? && open + 1 == r.value.argStart && k <= r.value.argEnd
  {
    if !CallNameAt(text, i) then None
    else
      var open := OpenIndex(text, i);
      if open >= |text| || text[open] != '(' then None
      else
        match LastClose(text, open + 1, LineEnd(text, open + 1))
        case None => None
        case Some(k) => Some(CallMatch(i, open + 1, k, EolEnd(text, k + 1)))
  }

  /** `FUNCTION_REGEXP.exec(text)` with `lastIndex == from`. */
  function FindCall(text: string, from: nat): (r: Option<CallMatch>)
    decreases |text| - from
    ensures r.Some? ==> from <= r.value.start && CallAt(text, r.value.start) == r
    ensures r.Some? ==> r.value.start + 4 <= r.value.argStart <= r.value.argEnd < r.value.end <= |text|
    ensures forall i: nat :: from <= i && (r.None? || i < r.value.start) ==> CallAt(text, i).None?
  {
    if from >= |text| then None
    else match CallAt(text, from)
      case Some(m) => Some(m)
      case None => FindCall(text, from + 1)
  }
}
