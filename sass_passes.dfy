/**
 * The three passes of the SASS strategy
 * (src/lib/variables/strategies/sass-strategy.ts) as functions of the
 * store's entries: usage resolution, single-token lookup, function-argument
 * substitution and declaration recording. The methods of `SassExtractor`
 * are proved to compute exactly these; the lemmas here state what the
 * passes promise.
 */
module SassPasses {
  import opened Wrappers
  import opened JsText
  import opened SassPatterns
  import opened Variables
  import opened VariableStore

  /** `entries[k]` is the most recent declaration of `name` visible from `fileName`. */
  predicate IsLastVisible(entries: seq<Variable>, k: nat, name: string, fileName: string) {
    k < |entries| && Visible(entries[k], name, fileName) &&
    forall j :: k < j < |entries| ==> !Visible(entries[j], name, fileName)
  }

  // ---------------------------------------------------------------------
  // Usage resolution (`_extractVariables`)
  // ---------------------------------------------------------------------

  /**
   * The color a usage of `name` in `fileName` resolves to: the closest
   * declaration in the file, and only when there is none the closest
   * declaration in the global scope.
   */
  function ResolveUsage(entries: seq<Variable>, fileName: string, name: string): (r: Option<Color>)
    ensures r.Some? <==> HasName(entries, name)
    ensures forall k: nat :: IsLastVisible(entries, k, name, fileName) ==> r == Some(entries[k].color)
    ensures (forall j :: 0 <= j < |entries| ==> !Visible(entries[j], name, fileName)) ==>
              forall k: nat :: IsLastVisible(entries, k, name, GlobalScope) ==> r == Some(entries[k].color)
  {
    match ClosestIndex(entries, name, fileName)
    case Some(k) =>
      assert entries[k] in entries;
      Some(entries[k].color)
    case None =>
      match ClosestIndex(entries, name, GlobalScope)
      case Some(k) =>
        assert entries[k] in entries;
        Some(entries[k].color)
      case None => None
  }

  /**
   * The entity emitted for one usage match: named and positioned at the
   * match, never a declaration, with the resolved color's values copied
   * (or no values at all when nothing resolves).
   */
  function UsageEntity(entries: seq<Variable>, fileName: string, m: UsageMatch): (v: Variable)
    ensures v.name == m.name && v.color.colorLabel == m.name && v.color.position == m.start && v.declaration.None?
    ensures ResolveUsage(entries, fileName, m.name).Some? ==>
              var c := ResolveUsage(entries, fileName, m.name).value;
              v.color.rgb == c.rgb && v.color.alpha == c.alpha && v.color.raw == c.raw
    ensures ResolveUsage(entries, fileName, m.name).None? ==>
              v.color.rgb.None? && v.color.alpha.None? && v.color.raw.None?
  {
    match ResolveUsage(entries, fileName, m.name)
    case Some(c) => Variable(m.name, Color(m.name, m.start, c.rgb, c.alpha, c.raw), None)
    case None => Variable(m.name, Color(m.name, m.start, None, None, None), None)
  }

  /**
   * `m` is one of the matches the global usage expression reports when
   * `exec` is called repeatedly from `lastIndex == from` until it fails.
   */
  ghost predicate ReportedFrom(text: string, from: nat, eol: set<char>, m: UsageMatch)
    decreases |text| - from
  {
    match FindUsage(text, from, eol)
    case None => false
    case Some(n) => n == m || ReportedFrom(text, n.end, eol, m)
  }

  /** `v` is the entity of a reported usage match of a known name. */
  ghost predicate ReportedEntity(entries: seq<Variable>, fileName: string, text: string, from: nat, eol: set<char>, v: Variable) {
    exists m :: ReportedFrom(text, from, eol, m) && HasName(entries, m.name) && v == UsageEntity(entries, fileName, m)
  }

  /** Entities appear in strictly increasing positions. */
  ghost predicate PositionsIncrease(vs: seq<Variable>) {
    forall k, l :: 0 <= k < l < |vs| ==> vs[k].color.position < vs[l].color.position
  }

  lemma PositionsIncreaseCons(v: Variable, rest: seq<Variable>)
    requires PositionsIncrease(rest)
    requires forall x :: x in rest ==> v.color.position < x.color.position
    ensures PositionsIncrease([v] + rest)
  {
    var r := [v] + rest;
    forall k, l | 0 <= k < l < |r| ensures r[k].color.position < r[l].color.position {
      assert r[l] == rest[l - 1] && r[l] in rest;
      if 0 < k { assert r[k] == rest[k - 1]; }
    }
  }

  /** The entities of one line from cursor `from` on: one per reported usage match of a known name. */
  function UsagesFrom(entries: seq<Variable>, fileName: string, text: string, from: nat, eol: set<char>): seq<Variable>
    decreases |text| - from
  {
    match FindUsage(text, from, eol)
    case None => []
    case Some(m) =>
      var rest := UsagesFrom(entries, fileName, text, m.end, eol);
      if HasName(entries, m.name) then [UsageEntity(entries, fileName, m)] + rest else rest
  }

  /**
   * The usage scan from `from` on yields exactly one entity per reported
   * usage match of a known name (none for unknown names), in increasing
   * positions.
   */
  lemma {:induction false} UsagesFromExact(entries: seq<Variable>, fileName: string, text: string, from: nat, eol: set<char>)
    decreases |text| - from
    ensures var r := UsagesFrom(entries, fileName, text, from, eol);
      (forall v :: v in r ==> from <= v.color.position && ReportedEntity(entries, fileName, text, from, eol, v)) &&
      (forall m :: ReportedFrom(text, from, eol, m) && HasName(entries, m.name) ==> UsageEntity(entries, fileName, m) in r) &&
      PositionsIncrease(r)
  {
    match FindUsage(text, from, eol)
    case None =>
    case Some(m) =>
      UsagesFromExact(entries, fileName, text, m.end, eol);
      var rest := UsagesFrom(entries, fileName, text, m.end, eol);
      assert forall v :: v in rest ==> ReportedEntity(entries, fileName, text, from, eol, v) by {
        forall v | v in rest ensures ReportedEntity(entries, fileName, text, from, eol, v) {
          var n :| ReportedFrom(text, m.end, eol, n) && HasName(entries, n.name) && v == UsageEntity(entries, fileName, n);
          assert ReportedFrom(text, from, eol, n);
        }
      }
      if HasName(entries, m.name) {
        var v := UsageEntity(entries, fileName, m);
        assert ReportedFrom(text, from, eol, m);
        PositionsIncreaseCons(v, rest);
        assert UsagesFrom(entries, fileName, text, from, eol) == [v] + rest;
      } else {
        assert UsagesFrom(entries, fileName, text, from, eol) == rest;
      }
  }

  /** One step of the usage scan: the match at the cursor contributes at most one entity. */
  lemma UsagesFromStep(entries: seq<Variable>, fileName: string, text: string, from: nat, eol: set<char>)
    requires FindUsage(text, from, eol).Some?
    ensures var m := FindUsage(text, from, eol).value;
      UsagesFrom(entries, fileName, text, from, eol) ==
        (if HasName(entries, m.name) then [UsageEntity(entries, fileName, m)] else []) +
        UsagesFrom(entries, fileName, text, m.end, eol)
  {
  }

  /**
   * The entities of one line: one per usage match the global expression
   * reports on it whose name is known, in the order of the matches.
   */
  function LineUsages(entries: seq<Variable>, fileName: string, text: string, eol: set<char>): (r: seq<Variable>)
    ensures forall v :: v in r ==> ReportedEntity(entries, fileName, text, 0, eol, v)
    ensures forall m :: ReportedFrom(text, 0, eol, m) && HasName(entries, m.name) ==> UsageEntity(entries, fileName, m) in r
    ensures PositionsIncrease(r)
  {
    UsagesFromExact(entries, fileName, text, 0, eol);
    UsagesFrom(entries, fileName, text, 0, eol)
  }

  /** What `_extractVariables` returns: one tagged result per input line, in order. */
  function UsageLines(entries: seq<Variable>, fileName: string, lines: seq<DocumentLine>, eol: set<char>): (r: seq<LineExtraction>)
    ensures |r| == |lines|
    ensures forall i :: 0 <= i < |lines| ==> r[i].line == lines[i].line
    ensures forall i, v :: 0 <= i < |lines| && v in r[i].colors ==> ReportedEntity(entries, fileName, lines[i].text, 0, eol, v)
    ensures forall i, m :: 0 <= i < |lines| && ReportedFrom(lines[i].text, 0, eol, m) && HasName(entries, m.name) ==>
              UsageEntity(entries, fileName, m) in r[i].colors
    ensures forall i :: 0 <= i < |lines| ==> PositionsIncrease(r[i].colors)
  {
    seq(|lines|, i requires 0 <= i < |lines| => LineExtraction(lines[i].line, LineUsages(entries, fileName, lines[i].text, eol)))
  }

  // ---------------------------------------------------------------------
  // Single-token lookup (`extractVariable`)
  // ---------------------------------------------------------------------

  /**
   * The color of `text` read as one variable reference: only when a
   * reference starts the text (REGEXP_ONE is anchored at the start only),
   * and only from a declaration visible in `fileName`.
   */
  function SingleTokenColor(entries: seq<Variable>, fileName: string, text: string, eol: set<char>): (r: Option<Color>)
    ensures UsageAt(text, 0, eol).None? ==> r.None?
    ensures UsageAt(text, 0, eol).Some? ==>
              var name := UsageAt(text, 0, eol).value.name;
              (r.Some? <==> exists j :: 0 <= j < |entries| && Visible(entries[j], name, fileName)) &&
              forall k: nat :: IsLastVisible(entries, k, name, fileName) ==> r == Some(entries[k].color)
  {
    match UsageAt(text, 0, eol)
    case None => None
    case Some(m) =>
      match ClosestIndex(entries, m.name, fileName)
      case None => None
      case Some(k) => Some(entries[k].color)
  }

  // ---------------------------------------------------------------------
  // Function-argument substitution (`extractFunction`)
  // ---------------------------------------------------------------------

  /** A missing raw text joins as the empty string, as `undefined` does in `Array.prototype.join`. */
  function RawText(raw: Option<string>): string {
    match raw
    case Some(s) => s
    case None => ""
  }

  /** The raw texts of the entities, in order. */
  function Raws(vars: seq<Variable>): (r: seq<string>)
    ensures |r| == |vars|
    ensures forall i :: 0 <= i < |vars| ==> r[i] == RawText(vars[i].color.raw)
  {
    if vars == [] then [] else [RawText(vars[0].color.raw)] + Raws(vars[1..])
  }

  /** Lines 90-93: the raw texts of the entities, joined with `,`. */
  function JoinedRaws(vars: seq<Variable>): string {
    Join(Raws(vars), ",")
  }

  /** Lines 86-93: what the argument list `args` of a call is replaced with. */
  function ArgumentValue(entries: seq<Variable>, fileName: string, args: string, eol: set<char>): string {
    JoinedRaws(UsagesFrom(entries, fileName, args, 0, eol))
  }

  /**
   * An argument list that is exactly one variable reference is replaced by
   * the raw text of the color the reference resolves to, and by nothing
   * when no declaration of the name is recorded.
   */
  lemma LoneReferenceValue(entries: seq<Variable>, fileName: string, name: string, eol: set<char>)
    requires |name| >= 2 && name[0] == '$' && IsIdentStart(name[1])
    requires forall k :: 2 <= k < |name| ==> IsIdentChar(name[k])
    ensures ArgumentValue(entries, fileName, name, eol) ==
            if HasName(entries, name) then RawText(ResolveUsage(entries, fileName, name).value.raw) else ""
  {
    IdentRunWithin(name, 2, |name|);
    assert LongestNameEnd(name, 2, |name|, eol) == Some(|name|);
    assert name[0..|name|] == name;
    var m := UsageMatch(0, name, |name|);
    assert UsageAt(name, 0, eol) == Some(m);
    assert FindUsage(name, 0, eol) == Some(m);
    assert FindUsage(name, |name|, eol) == None;
    if HasName(entries, name) {
      var v := UsageEntity(entries, fileName, m);
      assert UsagesFrom(entries, fileName, name, 0, eol) == [v];
      assert Raws([v]) == [RawText(v.color.raw)];
    } else {
      assert UsagesFrom(entries, fileName, name, 0, eol) == [];
    }
  }

  /** A call match whose argument list and end lie within `text`. */
  predicate CallWithin(text: string, m: CallMatch) {
    m.argStart <= m.argEnd < m.end <= |text|
  }

  /** The text with the argument list of call `m` replaced by its value. */
  function Rewritten(entries: seq<Variable>, fileName: string, text: string, m: CallMatch, eol: set<char>): string
    requires CallWithin(text, m)
  {
    Splice(text, m.argStart, m.argEnd, ArgumentValue(entries, fileName, text[m.argStart..m.argEnd], eol))
  }

  /** `text` with `text[a..b]` replaced by `v`. */
  function Splice(text: string, a: nat, b: nat, v: string): string
    requires a <= b <= |text|
  {
    text[..a] + v + text[b..]
  }

  /**
   * Where the scan resumes after rewriting call `m`: everything before it
   * is the text up to the call's terminator with the argument list
   * replaced, and everything after it is the original rest of the line.
   */
  function Resume(entries: seq<Variable>, fileName: string, text: string, m: CallMatch, eol: set<char>): (r: nat)
    requires CallWithin(text, m)
    ensures var t := Rewritten(entries, fileName, text, m, eol);
      r <= |t| &&
      t[..r] == text[..m.argStart] + ArgumentValue(entries, fileName, text[m.argStart..m.argEnd], eol) + text[m.argEnd..m.end] &&
      t[r..] == text[m.end..]
  {
    var value := ArgumentValue(entries, fileName, text[m.argStart..m.argEnd], eol);
    SpliceSplits(text, m.argStart, m.argEnd, m.end, value);
    m.end - (m.argEnd - m.argStart) + |value|
  }

  /** Replacing `text[a..b]` by `v` and cutting after the old index `e` keeps everything from `e` on. */
  lemma SpliceSplits(text: string, a: nat, b: nat, e: nat, v: string)
    requires a <= b <= e <= |text|
    ensures var t := text[..a] + v + text[b..];
      var r := e - (b - a) + |v|;
      r <= |t| && t[..r] == text[..a] + v + text[b..e] && t[r..] == text[e..]
  {
    assert text[b..] == text[b..e] + text[e..];
  }

  lemma PrefixKept(text: string, rewritten: string, r: string, from: nat, start: nat, resume: nat)
    requires from <= start <= |text| && start <= |rewritten| && rewritten[..start] == text[..start]
    requires from <= resume <= |r| && resume <= |rewritten| && r[..resume] == rewritten[..resume]
    ensures from <= |r| && r[..from] == text[..from]
  {
    assert r[..from] == r[..resume][..from];
    assert text[..from] == text[..start][..from];
    assert rewritten[..from] == rewritten[..start][..from];
    assert rewritten[..from] == rewritten[..resume][..from];
  }

  /**
   * The substitution pass from cursor `from` on: every call's argument list
   * is replaced, in place, by the joined raw texts of the usages it holds,
   * and the scan resumes right after the rewritten call. The text before
   * the cursor is never changed.
   */
  function SubstituteFrom(entries: seq<Variable>, fileName: string, text: string, from: nat, eol: set<char>): (r: string)
    requires from <= |text|
    decreases |text| - from
    ensures from <= |r| && r[..from] == text[..from]
  {
    match FindCall(text, from)
    case None => text
    case Some(m) =>
      var rewritten := Rewritten(entries, fileName, text, m, eol);
      var resume := Resume(entries, fileName, text, m, eol);
      var r := SubstituteFrom(entries, fileName, rewritten, resume, eol);
      assert rewritten[..m.argStart] == text[..m.argStart];
      PrefixKept(text, rewritten, r, from, m.argStart, resume);
      r
  }

  /** One step of the substitution scan: the call at the cursor is rewritten and the scan resumes after it. */
  lemma SubstituteFromStep(entries: seq<Variable>, fileName: string, text: string, from: nat, eol: set<char>, m: CallMatch)
    requires from <= |text| && FindCall(text, from) == Some(m)
    ensures CallWithin(text, m)
    ensures SubstituteFrom(entries, fileName, text, from, eol) ==
            SubstituteFrom(entries, fileName, Rewritten(entries, fileName, text, m, eol), Resume(entries, fileName, text, m, eol), eol)
  {
  }

  /**
   * The line after function-argument substitution: unchanged when it holds
   * no call; otherwise it starts with the text up to the first call's
   * terminator, in which only that call's argument list is replaced by its
   * value.
   */
  function SubstituteCalls(entries: seq<Variable>, fileName: string, text: string, eol: set<char>): (r: string)
    ensures FindCall(text, 0).None? ==> r == text
    ensures FindCall(text, 0).Some? ==>
              var m := FindCall(text, 0).value;
              var kept := text[..m.argStart] + ArgumentValue(entries, fileName, text[m.argStart..m.argEnd], eol) + text[m.argEnd..m.end];
              |kept| <= |r| && r[..|kept|] == kept
  {
    match FindCall(text, 0)
    case None => text
    case Some(m) =>
      var t := Rewritten(entries, fileName, text, m, eol);
      var resume := Resume(entries, fileName, text, m, eol);
      var r := SubstituteFrom(entries, fileName, t, resume, eol);
      assert r[..resume] == t[..resume];
      r
  }

  // ---------------------------------------------------------------------
  // Declaration recording (`__extractDeclarations`, `extractDeclarations`)
  // ---------------------------------------------------------------------

  /**
   * Line 32: the color of a declared value, tried in order: the literal
   * parser, the single-token lookup, and a raw-only placeholder whose text
   * is the value without its `;` characters.
   */
  function DeclaredColor(entries: seq<Variable>, fileName: string, raw: string, eol: set<char>,
                         parse: string -> Option<Color>): (c: Color)
    ensures parse(raw).Some? ==> c == parse(raw).value
    ensures parse(raw).None? && SingleTokenColor(entries, fileName, raw, eol).Some? ==>
              c == SingleTokenColor(entries, fileName, raw, eol).value
    ensures parse(raw).None? && SingleTokenColor(entries, fileName, raw, eol).None? ==>
              c == Placeholder(RemoveAll(raw, ';')) && c.raw.Some? && ';' !in c.raw.value
  {
    match parse(raw)
    case Some(c) => c
    case None =>
      match SingleTokenColor(entries, fileName, raw, eol)
      case Some(c) => c
      case None => Placeholder(RemoveAll(raw, ';'))
  }

  /**
   * Lines 33-38: redeclaring at a site the store already holds replaces that
   * entry's color in place; any other declaration is appended with its site.
   */
  function Declare(entries: seq<Variable>, name: string, fileName: string, line: int, color: Color): (r: seq<Variable>)
    ensures |r| == if HasSite(entries, name, fileName, line) then |entries| else |entries| + 1
    ensures !HasSite(entries, name, fileName, line) ==> r == entries + [Variable(name, color, Some(Site(fileName, line)))]
    ensures forall k :: 0 <= k < |entries| ==>
              r[k].name == entries[k].name && r[k].declaration == entries[k].declaration &&
              (r[k] == entries[k] || DeclaredAt(entries[k], name, fileName, line))
    ensures IndexAt(r, name, fileName, line).Some? && r[IndexAt(r, name, fileName, line).value].color == color
    ensures UniqueSites(entries) ==> UniqueSites(r)
    ensures AllDeclared(entries) ==> AllDeclared(r)
  {
    match IndexAt(entries, name, fileName, line)
    case Some(k) =>
      var r := entries[k := entries[k].(color := color)];
      assert forall j :: 0 <= j < |r| ==> (DeclaredAt(r[j], name, fileName, line) <==> DeclaredAt(entries[j], name, fileName, line));
      assert IndexAt(r, name, fileName, line) == Some(k);
      r
    case None =>
      var r := entries + [Variable(name, color, Some(Site(fileName, line)))];
      assert forall e :: e in entries ==> !DeclaredAt(e, name, fileName, line);
      assert forall j :: 0 <= j < |entries| ==> !DeclaredAt(r[j], name, fileName, line);
      assert r[|entries|] in r && DeclaredAt(r[|entries|], name, fileName, line);
      assert IndexAt(r, name, fileName, line) == Some(|entries|);
      r
  }

  /**
   * `after` only differs from `before` at the site `(fileName, line)`: the
   * entries of `before` keep their names and sites, entries of other sites
   * are unchanged, and everything appended is declared at that site.
   */
  ghost predicate ChangedOnlyAt(before: seq<Variable>, after: seq<Variable>, fileName: string, line: int) {
    |before| <= |after| &&
    (forall k :: 0 <= k < |before| ==> after[k].name == before[k].name && after[k].declaration == before[k].declaration) &&
    (forall k :: 0 <= k < |before| && before[k].declaration != Some(Site(fileName, line)) ==> after[k] == before[k]) &&
    (forall k :: |before| <= k < |after| ==> after[k].declaration == Some(Site(fileName, line)))
  }

  lemma ChangedOnlyAtTransitive(a: seq<Variable>, b: seq<Variable>, c: seq<Variable>, fileName: string, line: int)
    requires ChangedOnlyAt(a, b, fileName, line) && ChangedOnlyAt(b, c, fileName, line)
    ensures ChangedOnlyAt(a, c, fileName, line)
  {
    forall k | |a| <= k < |c| ensures c[k].declaration == Some(Site(fileName, line)) {
      if k < |b| {
        assert c[k].declaration == b[k].declaration;
      }
    }
  }

  /** One declaration only touches its own site. */
  lemma DeclareChangesOnlyAt(entries: seq<Variable>, name: string, fileName: string, line: int, color: Color)
    ensures ChangedOnlyAt(entries, Declare(entries, name, fileName, line, color), fileName, line)
  {
    var r := Declare(entries, name, fileName, line, color);
    forall k | |entries| <= k < |r| ensures r[k].declaration == Some(Site(fileName, line)) {
      assert !HasSite(entries, name, fileName, line) && k == |entries|;
    }
  }

  /**
   * The declaration pass over one (already substituted) line from cursor
   * `from` on. It only touches the line's own site and keeps the store's
   * invariant: one entry per site, every entry with its site.
   */
  function DeclareFrom(entries: seq<Variable>, fileName: string, line: int, text: string, from: nat, eol: set<char>,
                       parse: string -> Option<Color>): (r: seq<Variable>)
    decreases |text| - from
    ensures ChangedOnlyAt(entries, r, fileName, line)
    ensures UniqueSites(entries) && AllDeclared(entries) ==> UniqueSites(r) && AllDeclared(r)
  {
    match FindDecl(text, from, eol)
    case None => entries
    case Some(d) =>
      var raw := Trim(text[d.end..]);
      var color := DeclaredColor(entries, fileName, raw, eol, parse);
      var declared := Declare(entries, d.name, fileName, line, color);
      var r := DeclareFrom(declared, fileName, line, text, d.end, eol, parse);
      DeclareChangesOnlyAt(entries, d.name, fileName, line, color);
      ChangedOnlyAtTransitive(entries, declared, r, fileName, line);
      r
  }

  /**
   * `d` is one of the matches the declaration expression reports when
   * `exec` is called repeatedly from `lastIndex == from` until it fails.
   */
  ghost predicate ReportedDecl(text: string, from: nat, eol: set<char>, d: DeclMatch)
    decreases |text| - from
  {
    match FindDecl(text, from, eol)
    case None => false
    case Some(n) => n == d || ReportedDecl(text, n.end, eol, d)
  }

  /** A reported declaration lies within the text, at or after the cursor. */
  lemma {:induction false} ReportedDeclWithin(text: string, from: nat, eol: set<char>, d: DeclMatch)
    requires ReportedDecl(text, from, eol, d)
    decreases |text| - from
    ensures from <= d.start < d.end <= |text|
  {
    var n := FindDecl(text, from, eol).value;
    if n != d {
      ReportedDeclWithin(text, n.end, eol, d);
    }
  }

  /** Some declaration of `name` is reported from `from` on. */
  ghost predicate ReportsName(text: string, from: nat, eol: set<char>, name: string)
    decreases |text| - from
  {
    match FindDecl(text, from, eol)
    case None => false
    case Some(n) => n.name == name || ReportsName(text, n.end, eol, name)
  }

  /** The store the declaration pass holds when it reaches the reported declaration `d`. */
  ghost function StoreBefore(entries: seq<Variable>, fileName: string, line: int, text: string, from: nat, eol: set<char>,
                             parse: string -> Option<Color>, d: DeclMatch): seq<Variable>
    decreases |text| - from
  {
    match FindDecl(text, from, eol)
    case None => entries
    case Some(n) =>
      if n == d then entries
      else
        var declared := Declare(entries, n.name, fileName, line, DeclaredColor(entries, fileName, Trim(text[n.end..]), eol, parse));
        StoreBefore(declared, fileName, line, text, n.end, eol, parse, d)
  }

  /** Every declaration the pass reaches is in the store afterwards, at this line's site. */
  lemma {:induction false} DeclareFromRecordsAll(entries: seq<Variable>, fileName: string, line: int, text: string, from: nat,
                                                 eol: set<char>, parse: string -> Option<Color>, d: DeclMatch)
    requires ReportedDecl(text, from, eol, d)
    decreases |text| - from
    ensures HasSite(DeclareFrom(entries, fileName, line, text, from, eol, parse), d.name, fileName, line)
  {
    var n := FindDecl(text, from, eol).value;
    var declared := Declare(entries, n.name, fileName, line, DeclaredColor(entries, fileName, Trim(text[n.end..]), eol, parse));
    var r := DeclareFrom(declared, fileName, line, text, n.end, eol, parse);
    if n == d {
      var k := IndexAt(declared, d.name, fileName, line).value;
      assert DeclaredAt(r[k], d.name, fileName, line);
      assert r[k] in r;
    } else {
      DeclareFromRecordsAll(declared, fileName, line, text, n.end, eol, parse, d);
    }
  }

  /** Declaring one name leaves the entry of another name at the same site as it was. */
  lemma DeclareKeepsOtherName(entries: seq<Variable>, name: string, fileName: string, line: int, color: Color, other: string)
    requires other != name
    ensures var r := Declare(entries, name, fileName, line, color);
      forall k :: 0 <= k < |entries| && DeclaredAt(entries[k], other, fileName, line) ==> r[k] == entries[k]
  {
  }

  /** When no later declaration on the line names `name`, the entry of `name` at the line's site is left alone. */
  lemma {:induction false} DeclareFromKeepsName(entries: seq<Variable>, fileName: string, line: int, text: string, from: nat,
                                                eol: set<char>, parse: string -> Option<Color>, name: string)
    requires !ReportsName(text, from, eol, name)
    decreases |text| - from
    ensures var r := DeclareFrom(entries, fileName, line, text, from, eol, parse);
      forall k :: 0 <= k < |entries| && DeclaredAt(entries[k], name, fileName, line) ==> r[k] == entries[k]
  {
    match FindDecl(text, from, eol)
    case None =>
    case Some(n) =>
      var color := DeclaredColor(entries, fileName, Trim(text[n.end..]), eol, parse);
      var declared := Declare(entries, n.name, fileName, line, color);
      DeclareKeepsOtherName(entries, n.name, fileName, line, color, name);
      DeclareFromKeepsName(declared, fileName, line, text, n.end, eol, parse, name);
  }

  /** An entry keeps its place as the first at its site when the store only changes at sites. */
  lemma IndexAtKept(before: seq<Variable>, after: seq<Variable>, name: string, fileName: string, line: int)
    requires ChangedOnlyAt(before, after, fileName, line) && IndexAt(before, name, fileName, line).Some?
    ensures IndexAt(after, name, fileName, line) == IndexAt(before, name, fileName, line)
  {
    var k := IndexAt(before, name, fileName, line).value;
    assert DeclaredAt(after[k], name, fileName, line);
    assert forall j :: 0 <= j < k ==> DeclaredAt(after[j], name, fileName, line) == DeclaredAt(before[j], name, fileName, line);
    var k' := IndexAt(after, name, fileName, line).value;
    assert !(k' < k) && !(k < k');
  }

  /**
   * The last declaration of a name on a line wins: the entry at the line's
   * site holds the color declared by the reported declaration `d` of that
   * name after which the line declares the name no more, computed in the
   * store as the pass held it at `d`.
   */
  lemma {:induction false} DeclareFromLastWins(entries: seq<Variable>, fileName: string, line: int, text: string, from: nat,
                                               eol: set<char>, parse: string -> Option<Color>, d: DeclMatch)
    requires ReportedDecl(text, from, eol, d) && !ReportsName(text, d.end, eol, d.name)
    decreases |text| - from
    ensures d.end <= |text|
    ensures var r := DeclareFrom(entries, fileName, line, text, from, eol, parse);
      var before := StoreBefore(entries, fileName, line, text, from, eol, parse, d);
      IndexAt(r, d.name, fileName, line).Some? &&
      r[IndexAt(r, d.name, fileName, line).value].color == DeclaredColor(before, fileName, Trim(text[d.end..]), eol, parse)
  {
    ReportedDeclWithin(text, from, eol, d);
    var n := FindDecl(text, from, eol).value;
    var color := DeclaredColor(entries, fileName, Trim(text[n.end..]), eol, parse);
    var declared := Declare(entries, n.name, fileName, line, color);
    var r := DeclareFrom(declared, fileName, line, text, n.end, eol, parse);
    assert DeclareFrom(entries, fileName, line, text, from, eol, parse) == r;
    if n == d {
      var k := IndexAt(declared, d.name, fileName, line).value;
      DeclareFromKeepsName(declared, fileName, line, text, n.end, eol, parse, d.name);
      IndexAtKept(declared, r, d.name, fileName, line);
      assert r[k] == declared[k];
    } else {
      DeclareFromLastWins(declared, fileName, line, text, n.end, eol, parse, d);
    }
  }

  /**
   * `__extractDeclarations`: the declaration pass runs on the line after
   * substitution, touches only the line's own site and keeps the store's
   * invariant.
   */
  function DeclareLine(entries: seq<Variable>, fileName: string, line: DocumentLine, eol: set<char>,
                       parse: string -> Option<Color>): (r: seq<Variable>)
    ensures ChangedOnlyAt(entries, r, fileName, line.line)
    ensures UniqueSites(entries) && AllDeclared(entries) ==> UniqueSites(r) && AllDeclared(r)
  {
    DeclareFrom(entries, fileName, line.line, SubstituteCalls(entries, fileName, line.text, eol), 0, eol, parse)
  }

  /** `e` is declared at the site of one of `lines`. */
  ghost predicate OnLines(e: Variable, fileName: string, lines: seq<DocumentLine>) {
    exists i :: 0 <= i < |lines| && e.declaration == Some(Site(fileName, lines[i].line))
  }

  /** `after` only differs from `before` at the sites of `lines`, in the sense of `ChangedOnlyAt`. */
  ghost predicate ChangedOnlyOn(before: seq<Variable>, after: seq<Variable>, fileName: string, lines: seq<DocumentLine>) {
    |before| <= |after| &&
    (forall k :: 0 <= k < |before| ==> after[k].name == before[k].name && after[k].declaration == before[k].declaration) &&
    (forall k :: 0 <= k < |before| && !OnLines(before[k], fileName, lines) ==> after[k] == before[k]) &&
    (forall k :: |before| <= k < |after| ==> OnLines(after[k], fileName, lines))
  }

  lemma ChangedOnlyOnSnoc(entries: seq<Variable>, before: seq<Variable>, after: seq<Variable>, fileName: string,
                          lines: seq<DocumentLine>)
    requires lines != []
    requires ChangedOnlyOn(entries, before, fileName, lines[..|lines| - 1])
    requires ChangedOnlyAt(before, after, fileName, lines[|lines| - 1].line)
    ensures ChangedOnlyOn(entries, after, fileName, lines)
  {
    var n := |lines| - 1;
    forall e | OnLines(e, fileName, lines[..n]) ensures OnLines(e, fileName, lines) {
      var i :| 0 <= i < n && e.declaration == Some(Site(fileName, lines[..n][i].line));
      assert lines[..n][i] == lines[i];
    }
    forall k | 0 <= k < |entries| && !OnLines(entries[k], fileName, lines) ensures after[k] == entries[k] {
      assert entries[k].declaration != Some(Site(fileName, lines[n].line));
    }
    forall k | |entries| <= k < |after| ensures OnLines(after[k], fileName, lines) {
      if k < |before| {
        assert after[k].declaration == before[k].declaration;
        assert OnLines(before[k], fileName, lines[..n]);
      } else {
        assert after[k].declaration == Some(Site(fileName, lines[n].line));
      }
    }
  }

  /**
   * `extractDeclarations`: the lines in order, each seeing the declarations
   * of the lines before it. No recorded entry is dropped, renamed or moved
   * to another site, entries of sites outside `lines` are unchanged, every
   * new entry belongs to one of `lines`, and the store's invariant is kept.
   */
  function DeclareLines(entries: seq<Variable>, fileName: string, lines: seq<DocumentLine>, eol: set<char>,
                        parse: string -> Option<Color>): (r: seq<Variable>)
    decreases |lines|
    ensures ChangedOnlyOn(entries, r, fileName, lines)
    ensures UniqueSites(entries) && AllDeclared(entries) ==> UniqueSites(r) && AllDeclared(r)
  {
    if lines == [] then entries
    else
      var before := DeclareLines(entries, fileName, lines[..|lines| - 1], eol, parse);
      var r := DeclareLine(before, fileName, lines[|lines| - 1], eol, parse);
      ChangedOnlyOnSnoc(entries, before, r, fileName, lines);
      r
  }
}
