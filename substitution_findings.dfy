/**
 * The argument substitution of `extractFunction`
 * (src/lib/variables/strategies/sass-strategy.ts, lines 81-99) as the code
 * is written, next to the in-place substitution `SassPasses.SubstituteFrom`
 * that the rest of the model uses, with inputs on which the two differ.
 *
 * As written, the argument list `match[2]` is replaced with
 * `text.replace(match[2], value)`: a string pattern, so the FIRST occurrence
 * of the argument text anywhere in the line is rewritten and `$`-patterns in
 * the value are expanded, while the global expression's cursor stays at the
 * end of the call found in the text before the rewrite.
 */
module SubstitutionFindings {
  import opened Wrappers
  import opened JsText
  import opened SassPatterns
  import opened Variables
  import opened VariableStore
  import opened SassPasses

  /**
   * The loop of lines 85-96 as written, run for at most `fuel` iterations:
   * `None` when it has not finished by then.
   */
  function SubstituteAsWritten(entries: seq<Variable>, fileName: string, text: string, from: nat, eol: set<char>, fuel: nat): Option<string>
    decreases fuel
  {
    if fuel == 0 then None
    else match FindCall(text, from)
      case None => Some(text)
      case Some(m) => SubstituteAsWritten(entries, fileName, ReplacedAsWritten(entries, fileName, text, m, eol), m.end, eol, fuel - 1)
  }

  /** Line 94: `text.replace(match[2], value)`. */
  function ReplacedAsWritten(entries: seq<Variable>, fileName: string, text: string, m: CallMatch, eol: set<char>): string
    requires CallWithin(text, m)
  {
    var args := text[m.argStart..m.argEnd];
    ReplaceFirst(text, args, ArgumentValue(entries, fileName, args, eol))
  }

  /**
   * The rewrite as written agrees with the in-place rewrite when nothing can
   * go wrong: the argument text first occurs at the call's own argument
   * list and its value holds no replacement pattern.
   */
  lemma AsWrittenAgreesInPlace(entries: seq<Variable>, fileName: string, text: string, m: CallMatch, eol: set<char>)
    requires CallWithin(text, m)
    ensures var args := text[m.argStart..m.argEnd];
      IndexOf(text, args) == Some(m.argStart) && PatternFree(ArgumentValue(entries, fileName, args, eol)) ==>
        ReplacedAsWritten(entries, fileName, text, m, eol) == Rewritten(entries, fileName, text, m, eol)
  {
  }

  /** One iteration of the loop as written: the scan goes on from the end of the call in the old text. */
  lemma AsWrittenStep(entries: seq<Variable>, fileName: string, text: string, from: nat, eol: set<char>, fuel: nat, m: CallMatch)
    requires fuel > 0 && FindCall(text, from) == Some(m)
    ensures CallWithin(text, m)
    ensures SubstituteAsWritten(entries, fileName, text, from, eol, fuel) ==
            SubstituteAsWritten(entries, fileName, ReplacedAsWritten(entries, fileName, text, m, eol), m.end, eol, fuel - 1)
  {
  }

  /** With no call left from `from`, a run with any iteration left stops with the line. */
  lemma AsWrittenDone(entries: seq<Variable>, fileName: string, text: string, from: nat, eol: set<char>, fuel: nat)
    requires fuel > 0 && FindCall(text, from).None?
    ensures SubstituteAsWritten(entries, fileName, text, from, eol, fuel) == Some(text)
  {
  }

  /**
   * The iteration bound only cuts runs short: a run that has finished within
   * `fuel` iterations gives the same line under any larger bound.
   */
  lemma {:induction false} AsWrittenMoreFuel(entries: seq<Variable>, fileName: string, text: string, from: nat, eol: set<char>,
                                             fuel: nat, more: nat, line: string)
    requires fuel <= more
    decreases fuel
    ensures SubstituteAsWritten(entries, fileName, text, from, eol, fuel) == Some(line) ==>
            SubstituteAsWritten(entries, fileName, text, from, eol, more) == Some(line)
  {
    if fuel > 0 {
      var f, g := fuel - 1, more - 1;
      AsWrittenBound(entries, fileName, text, from, eol, fuel, f);
      AsWrittenBound(entries, fileName, text, from, eol, more, g);
      AsWrittenSameStep(entries, fileName, text, from, eol, f, g);
      if FindCall(text, from).Some? {
        var t: string, e: nat :| SubstituteAsWritten(entries, fileName, text, from, eol, f + 1) == SubstituteAsWritten(entries, fileName, t, e, eol, f)
                                 && SubstituteAsWritten(entries, fileName, text, from, eol, g + 1) == SubstituteAsWritten(entries, fileName, t, e, eol, g);
        AsWrittenMoreFuel(entries, fileName, t, e, eol, f, g, line);
      }
    }
  }

  /** A bound written as `f + 1` is the same bound. */
  lemma AsWrittenBound(entries: seq<Variable>, fileName: string, text: string, from: nat, eol: set<char>, fuel: nat, f: nat)
    requires fuel == f + 1
    ensures SubstituteAsWritten(entries, fileName, text, from, eol, fuel) == SubstituteAsWritten(entries, fileName, text, from, eol, f + 1)
  {
  }

  /** Runs with `f + 1` and `g + 1` iterations allowed take the same first step. */
  lemma AsWrittenSameStep(entries: seq<Variable>, fileName: string, text: string, from: nat, eol: set<char>, f: nat, g: nat)
    ensures FindCall(text, from).None? ==>
            SubstituteAsWritten(entries, fileName, text, from, eol, f + 1) == Some(text) == SubstituteAsWritten(entries, fileName, text, from, eol, g + 1)
    ensures FindCall(text, from).Some? ==>
            exists t: string, e: nat :: SubstituteAsWritten(entries, fileName, text, from, eol, f + 1) == SubstituteAsWritten(entries, fileName, t, e, eol, f)
                                     && SubstituteAsWritten(entries, fileName, text, from, eol, g + 1) == SubstituteAsWritten(entries, fileName, t, e, eol, g)
  {
    if FindCall(text, from).Some? {
      var m := FindCall(text, from).value;
      AsWrittenStep(entries, fileName, text, from, eol, f + 1, m);
      AsWrittenStep(entries, fileName, text, from, eol, g + 1, m);
      var t := ReplacedAsWritten(entries, fileName, text, m, eol);
      assert SubstituteAsWritten(entries, fileName, text, from, eol, f + 1) == SubstituteAsWritten(entries, fileName, t, m.end, eol, f);
    }
  }

  /** A scan that starts at the end of the line has nothing left to rewrite. */
  lemma SubstituteAtEnd(entries: seq<Variable>, fileName: string, text: string, eol: set<char>)
    ensures SubstituteFrom(entries, fileName, text, |text|, eol) == text
  {
    assert FindCall(text, |text|) == None;
  }

  /** `$a` first occurs in a line that starts with `rgb($a)` inside that call. */
  lemma FirstArgument(t: string)
    requires |t| >= 7 && t[..7] == "rgb($a)"
    ensures IndexOf(t, "$a") == Some(4)
  {
    assert t[0] == 'r' && t[1] == 'g' && t[2] == 'b' && t[3] == '(' && t[4] == '$' && t[5] == 'a';
    assert t[4..6] == "$a";
    assert IndexOfFrom(t, "$a", 4) == Some(4);
    assert t[3..5][0] == '(';
    assert IndexOfFrom(t, "$a", 3) == Some(4);
    assert t[2..4][0] == 'b';
    assert IndexOfFrom(t, "$a", 2) == Some(4);
    assert t[1..3][0] == 'g';
    assert IndexOfFrom(t, "$a", 1) == Some(4);
    assert t[0..2][0] == 'r';
  }

  /** A store holding one declaration of `name`, whose color has only a raw text. */
  function OneDeclaration(name: string, raw: string, fileName: string): seq<Variable> {
    [Variable(name, Placeholder(raw), Some(Site(fileName, 0)))]
  }

  /** A call whose whole argument list is one known two-character name is replaced by that name's raw text. */
  lemma LoneUsageValue(name: string, raw: string, fileName: string, eol: set<char>)
    requires |name| == 2 && name[0] == '$' && IsIdentStart(name[1])
    ensures ArgumentValue(OneDeclaration(name, raw, fileName), fileName, name, eol) == raw
  {
    var entries := OneDeclaration(name, raw, fileName);
    LoneReferenceValue(entries, fileName, name, eol);
    assert entries[0] in entries;
    assert IsLastVisible(entries, 0, name, fileName);
  }

  /** In `$w rgb($w)` the only call is `rgb($w)`, whose argument list is `$w`. */
  lemma CallInWRgbW()
    ensures FindCall("$w rgb($w)", 0) == Some(CallMatch(3, 7, 9, 10))
  {
    var t := "$w rgb($w)";
    assert !CallNameAt(t, 0) && !CallNameAt(t, 1) && !CallNameAt(t, 2);
    assert CallAt(t, 3) == Some(CallMatch(3, 7, 9, 10)) by {
      assert LineEnd(t, 7) == 10;
      assert IsCloseAt(t, 9);
      assert LastClose(t, 7, 10) == Some(9);
    }
  }

  /** The in-place rewrite of a call whose argument list has the value `value`. */
  lemma RewrittenWith(entries: seq<Variable>, fileName: string, text: string, m: CallMatch, eol: set<char>, value: string)
    requires CallWithin(text, m)
    requires ArgumentValue(entries, fileName, text[m.argStart..m.argEnd], eol) == value
    ensures Rewritten(entries, fileName, text, m, eol) == text[..m.argStart] + value + text[m.argEnd..]
    ensures Resume(entries, fileName, text, m, eol) == m.end - (m.argEnd - m.argStart) + |value|
  {
  }

  /**
   * The rewrite as written of a call whose argument list has the value
   * `value` and first occurs in the line at `p`.
   */
  lemma ReplacedWith(entries: seq<Variable>, fileName: string, text: string, m: CallMatch, eol: set<char>, value: string, p: nat)
    requires CallWithin(text, m)
    requires ArgumentValue(entries, fileName, text[m.argStart..m.argEnd], eol) == value
    requires IndexOf(text, text[m.argStart..m.argEnd]) == Some(p)
    ensures var args := text[m.argStart..m.argEnd];
      ReplacedAsWritten(entries, fileName, text, m, eol) ==
      text[..p] + Expand(value, args, text[..p], text[p + |args|..]) + text[p + |args|..]
  {
  }

  /** In `$w rgb($w)` the argument list `$w` first occurs at the start of the line. */
  lemma FirstOccurrenceOfW()
    ensures IndexOf("$w rgb($w)", "$w") == Some(0)
  {
    assert "$w rgb($w)"[0..2] == "$w";
  }

  /** The argument list of the call in `$w rgb($w)`, with `$w` declared as `red`, has the value `red`. */
  lemma ValueOfW(fileName: string, eol: set<char>)
    ensures CallWithin("$w rgb($w)", CallMatch(3, 7, 9, 10))
    ensures "$w rgb($w)"[7..9] == "$w"
    ensures ArgumentValue(OneDeclaration("$w", "red", fileName), fileName, "$w rgb($w)"[7..9], eol) == "red"
  {
    assert "$w rgb($w)"[7..9] == "$w";
    LoneUsageValue("$w", "red", fileName, eol);
  }

  /** The scan as written resumes at 10, where `red rgb($w)` holds no call. */
  lemma NoCallFromTen()
    ensures FindCall("red rgb($w)", 10) == None
  {
    assert !CallNameAt("red rgb($w)", 10);
  }

  /**
   * As written, with `$w` declared as `red`, the line `$w rgb($w)` becomes
   * `red rgb($w)`: the usage before the call is rewritten and the call is not.
   */
  lemma AsWrittenRewritesEarlierOccurrence(fileName: string, eol: set<char>, fuel: nat)
    requires fuel >= 2
    ensures SubstituteAsWritten(OneDeclaration("$w", "red", fileName), fileName, "$w rgb($w)", 0, eol, fuel) == Some("red rgb($w)")
  {
    var entries := OneDeclaration("$w", "red", fileName);
    var t := "$w rgb($w)";
    var m := CallMatch(3, 7, 9, 10);
    assert t[2..] == " rgb($w)";
    assert t[..0] + "red" + t[2..] == "red rgb($w)";
    CallInWRgbW();
    AsWrittenStep(entries, fileName, t, 0, eol, fuel, m);
    ValueOfW(fileName, eol);
    FirstOccurrenceOfW();
    ReplacedWith(entries, fileName, t, m, eol, "red", 0);
    assert PatternFree("red");
    NoCallFromTen();
  }

  /** The in-place substitution rewrites the call itself: `$w rgb($w)` becomes `$w rgb(red)`. */
  lemma CorrectedRewritesInPlace(fileName: string, eol: set<char>)
    ensures SubstituteCalls(OneDeclaration("$w", "red", fileName), fileName, "$w rgb($w)", eol) == "$w rgb(red)"
  {
    var entries := OneDeclaration("$w", "red", fileName);
    var t := "$w rgb($w)";
    var m := CallMatch(3, 7, 9, 10);
    assert t[..7] == "$w rgb(" && t[9..] == ")";
    assert t[..7] + "red" + t[9..] == "$w rgb(red)";
    CallInWRgbW();
    SubstituteFromStep(entries, fileName, t, 0, eol, m);
    ValueOfW(fileName, eol);
    RewrittenWith(entries, fileName, t, m, eol, "red");
    SubstituteAtEnd(entries, fileName, "$w rgb(red)", eol);
  }

  /** In `rgb($a)` the call spans the whole line and its argument list is `$a`. */
  lemma CallInRgbA()
    ensures FindCall("rgb($a)", 0) == Some(CallMatch(0, 4, 6, 7))
  {
    var t := "rgb($a)";
    assert LineEnd(t, 4) == 7;
    assert IsCloseAt(t, 6);
    assert LastClose(t, 4, 7) == Some(6);
  }

  /** The argument list of `rgb($a)`, with `$a` declared as `raw`, has the value `raw`. */
  lemma ValueOfA(raw: string, fileName: string, eol: set<char>)
    ensures CallWithin("rgb($a)", CallMatch(0, 4, 6, 7))
    ensures "rgb($a)"[4..6] == "$a"
    ensures ArgumentValue(OneDeclaration("$a", raw, fileName), fileName, "rgb($a)"[4..6], eol) == raw
  {
    assert "rgb($a)"[4..6] == "$a";
    LoneUsageValue("$a", raw, fileName, eol);
  }

  /** `$&` stands for the matched text. */
  lemma ExpandMatched(matched: string, before: string, after: string)
    ensures Expand("$&", matched, before, after) == matched
  {
    assert "$&"[2..] == [];
  }

  /** As written, the value `$&` of the argument list `$a` puts `$a` back. */
  lemma PatternPutsArgumentBack(fileName: string, eol: set<char>)
    ensures CallWithin("rgb($a)", CallMatch(0, 4, 6, 7))
    ensures ReplacedAsWritten(OneDeclaration("$a", "$&", fileName), fileName, "rgb($a)", CallMatch(0, 4, 6, 7), eol) == "rgb($a)"
  {
    var t := "rgb($a)";
    assert t[..4] == "rgb(" && t[6..] == ")";
    assert t[..4] + "$a" + t[6..] == t;
    ValueOfA("$&", fileName, eol);
    FirstArgument(t);
    ReplacedWith(OneDeclaration("$a", "$&", fileName), fileName, t, CallMatch(0, 4, 6, 7), eol, "$&", 4);
    ExpandMatched("$a", t[..4], t[6..]);
  }

  /**
   * As written, a raw text holding `$&` is read as a replacement pattern:
   * with `$a` declared as `$&`, the line `rgb($a)` is left unchanged.
   */
  lemma AsWrittenExpandsPatterns(fileName: string, eol: set<char>, fuel: nat)
    requires fuel >= 2
    ensures SubstituteAsWritten(OneDeclaration("$a", "$&", fileName), fileName, "rgb($a)", 0, eol, fuel) == Some("rgb($a)")
  {
    var entries := OneDeclaration("$a", "$&", fileName);
    CallInRgbA();
    AsWrittenStep(entries, fileName, "rgb($a)", 0, eol, fuel, CallMatch(0, 4, 6, 7));
    PatternPutsArgumentBack(fileName, eol);
    assert FindCall("rgb($a)", |"rgb($a)"|) == None;
  }

  /** The in-place substitution inserts the raw text literally: `rgb($a)` becomes `rgb($&)`. */
  lemma CorrectedInsertsLiterally(fileName: string, eol: set<char>)
    ensures SubstituteCalls(OneDeclaration("$a", "$&", fileName), fileName, "rgb($a)", eol) == "rgb($&)"
  {
    var entries := OneDeclaration("$a", "$&", fileName);
    var t := "rgb($a)";
    var m := CallMatch(0, 4, 6, 7);
    assert t[..4] == "rgb(" && t[6..] == ")";
    assert t[..4] + "$&" + t[6..] == "rgb($&)";
    CallInRgbA();
    SubstituteFromStep(entries, fileName, t, 0, eol, m);
    ValueOfA("$&", fileName, eol);
    RewrittenWith(entries, fileName, t, m, eol, "$&");
    SubstituteAtEnd(entries, fileName, "rgb($&)", eol);
  }

  // The raw text `$a) rgb($a` makes the loop as written run forever on `rgb($a)`.

  /** `n` copies of ` rgb($a)`. */
  function Copies(n: nat): string {
    if n == 0 then "" else " rgb($a)" + Copies(n - 1)
  }

  /** The line after `n` iterations of the loop as written. */
  function Grown(n: nat): string {
    "rgb($a)" + Copies(n)
  }

  /** Where the scan as written starts its `n`-th iteration: the end of the previous call. */
  function ScanStart(n: nat): nat {
    if n == 0 then 0 else 8 * n - 1
  }

  /** The call that the `n`-th iteration finds: the last one in `Grown(n)`. */
  function LastCall(n: nat): CallMatch {
    CallMatch(8 * n, 8 * n + 4, 8 * n + 6, 8 * n + 7)
  }

  lemma {:induction false} CopiesSnoc(n: nat)
    ensures |Copies(n)| == 8 * n
    ensures Copies(n + 1) == Copies(n) + " rgb($a)"
  {
    if n > 0 {
      CopiesSnoc(n - 1);
    }
  }

  /** `Grown(n + 1)` is `Grown(n)` with one more call appended. */
  lemma GrownSnoc(n: nat)
    ensures |Grown(n)| == 8 * n + 7
    ensures Grown(n + 1) == Grown(n) + " rgb($a)"
  {
    CopiesSnoc(n);
  }

  /** `$a) rgb($a` holds no replacement pattern. */
  lemma RawIsPatternFree()
    ensures PatternFree("$a) rgb($a")
  {
  }

  /** `Grown(n)` splits around its first argument list. */
  lemma GrownHead(n: nat)
    ensures |Grown(n)| >= 7 && Grown(n)[..7] == "rgb($a)"
    ensures Grown(n)[..4] == "rgb(" && Grown(n)[6..] == ")" + Copies(n)
  {
  }

  /** Replacing the first `$a` of `Grown(n)` by the raw text gives `Grown(n + 1)`. */
  lemma GrownReplace(n: nat)
    ensures ReplaceFirst(Grown(n), "$a", "$a) rgb($a") == Grown(n + 1)
  {
    var x := "rgb(" + "$a) rgb($a";
    assert x + ")" == "rgb($a)" + " rgb($a)";
    assert x + (")" + Copies(n)) == (x + ")") + Copies(n);
    assert "rgb($a)" + (" rgb($a)" + Copies(n)) == ("rgb($a)" + " rgb($a)") + Copies(n);
    GrownHead(n);
    FirstArgument(Grown(n));
    RawIsPatternFree();
  }

  /** The end of the line holding an appended call ` rgb($a)`, from inside its argument list. */
  lemma AppendedLineEnd(t: string, c: nat)
    requires c + 7 == |t| && t[c..] == "rgb($a)"
    ensures LineEnd(t, c + 4) == c + 7
  {
    assert t[c + 4] == '$' && t[c + 5] == 'a' && t[c + 6] == ')';
    assert LineEnd(t, c + 6) == c + 7;
  }

  /** The call found at the start of an appended ` rgb($a)`. */
  lemma AppendedCallAt(t: string, c: nat)
    requires c + 7 == |t| && t[c..] == "rgb($a)"
    ensures CallAt(t, c) == Some(CallMatch(c, c + 4, c + 6, c + 7))
  {
    assert t[c] == 'r' && t[c + 1] == 'g' && t[c + 2] == 'b' && t[c + 3] == '(';
    assert t[c + 6] == ')';
    AppendedLineEnd(t, c);
    assert IsCloseAt(t, c + 6);
    assert LastClose(t, c + 4, c + 7) == Some(c + 6);
  }

  /** A call ` rgb($a)` that ends a line is found by a scan that starts at its space. */
  lemma AppendedCall(t: string, c: nat)
    requires 1 <= c && c + 7 == |t| && t[c - 1..] == " rgb($a)"
    ensures FindCall(t, c - 1) == Some(CallMatch(c, c + 4, c + 6, c + 7))
  {
    assert t[c..] == t[c - 1..][1..];
    AppendedCallAt(t, c);
    assert FindCall(t, c) == Some(CallMatch(c, c + 4, c + 6, c + 7));
    assert !CallNameAt(t, c - 1) by {
      assert t[c - 1] == t[c - 1..][0];
    }
  }

  /** Each iteration of the loop as written finds the last call of the line. */
  lemma GrownNextCall(n: nat)
    ensures FindCall(Grown(n), ScanStart(n)) == Some(LastCall(n))
  {
    if n == 0 {
      assert Grown(0) == "rgb($a)";
      CallInRgbA();
    } else {
      GrownSnoc(n - 1);
      assert Grown(n)[8 * n - 1..] == " rgb($a)";
      AppendedCall(Grown(n), 8 * n);
    }
  }

  /** The argument list of the last call of `Grown(n)` is `$a`. */
  lemma LastArgument(n: nat)
    ensures CallWithin(Grown(n), LastCall(n))
    ensures Grown(n)[8 * n + 4..8 * n + 6] == "$a"
  {
    LastCallText(n);
    assert Grown(n)[8 * n + 4..8 * n + 6] == Grown(n)[8 * n..][4..6];
  }

  /** `Grown(n)` ends with the call `rgb($a)`, which starts at `8 * n`. */
  lemma LastCallText(n: nat)
    ensures |Grown(n)| == 8 * n + 7 && Grown(n)[8 * n..] == "rgb($a)"
  {
    GrownSnoc(n);
    if n > 0 {
      GrownSnoc(n - 1);
      assert Grown(n)[8 * n..] == Grown(n)[8 * n - 1..][1..];
    }
  }

  /** One iteration of the loop as written turns `Grown(n)` into `Grown(n + 1)`. */
  lemma GrownStep(fileName: string, eol: set<char>, n: nat)
    ensures CallWithin(Grown(n), LastCall(n))
    ensures ReplacedAsWritten(OneDeclaration("$a", "$a) rgb($a", fileName), fileName, Grown(n), LastCall(n), eol) == Grown(n + 1)
  {
    LastArgument(n);
    LoneUsageValue("$a", "$a) rgb($a", fileName, eol);
    GrownReplace(n);
  }

  /** One iteration of the loop as written, on `Grown(n)`. */
  lemma GrownIteration(fileName: string, eol: set<char>, n: nat, fuel: nat)
    requires fuel > 0
    ensures var entries := OneDeclaration("$a", "$a) rgb($a", fileName);
      SubstituteAsWritten(entries, fileName, Grown(n), ScanStart(n), eol, fuel) ==
      SubstituteAsWritten(entries, fileName, Grown(n + 1), ScanStart(n + 1), eol, fuel - 1)
  {
    GrownNextCall(n);
    AsWrittenStep(OneDeclaration("$a", "$a) rgb($a", fileName), fileName, Grown(n), ScanStart(n), eol, fuel, LastCall(n));
    GrownStep(fileName, eol, n);
  }

  /**
   * A loop as written that, from every line of a family, steps to the next
   * line of the family never settles, whatever the iteration bound.
   */
  lemma {:induction false} NeverSettlesAlong(entries: seq<Variable>, fileName: string, eol: set<char>,
                                             lines: nat -> string, starts: nat -> nat, n: nat, fuel: nat)
    requires forall i: nat, k: nat :: k > 0 ==>
               SubstituteAsWritten(entries, fileName, lines(i), starts(i), eol, k) ==
               SubstituteAsWritten(entries, fileName, lines(i + 1), starts(i + 1), eol, k - 1)
    decreases fuel
    ensures SubstituteAsWritten(entries, fileName, lines(n), starts(n), eol, fuel) == None
  {
    if fuel > 0 {
      NeverSettlesAlong(entries, fileName, eol, lines, starts, n + 1, fuel - 1);
    }
  }

  /**
   * As written, with `$a` declared as `$a) rgb($a`, the loop over `rgb($a)`
   * never finishes: each iteration grows the line by one call and the scan
   * finds that call again, whatever the iteration bound.
   */
  lemma AsWrittenNeverTerminates(fileName: string, eol: set<char>, fuel: nat)
    ensures SubstituteAsWritten(OneDeclaration("$a", "$a) rgb($a", fileName), fileName, "rgb($a)", 0, eol, fuel) == None
  {
    var entries := OneDeclaration("$a", "$a) rgb($a", fileName);
    forall i: nat, k: nat | k > 0
      ensures SubstituteAsWritten(entries, fileName, Grown(i), ScanStart(i), eol, k) ==
              SubstituteAsWritten(entries, fileName, Grown(i + 1), ScanStart(i + 1), eol, k - 1)
    {
      GrownIteration(fileName, eol, i, k);
    }
    NeverSettlesAlong(entries, fileName, eol, Grown, ScanStart, 0, fuel);
    assert Grown(0) == "rgb($a)";
  }

  /** The in-place substitution finishes on the same input, with the one call rewritten. */
  lemma CorrectedTerminates(fileName: string, eol: set<char>)
    ensures SubstituteCalls(OneDeclaration("$a", "$a) rgb($a", fileName), fileName, "rgb($a)", eol) == "rgb($a) rgb($a)"
  {
    var entries := OneDeclaration("$a", "$a) rgb($a", fileName);
    var m := CallMatch(0, 4, 6, 7);
    CallInRgbA();
    SubstituteFromStep(entries, fileName, "rgb($a)", 0, eol, m);
    InPlaceDoubling(fileName, eol);
    SubstituteAtEnd(entries, fileName, "rgb($a) rgb($a)", eol);
  }

  /** In place, the raw text `$a) rgb($a` becomes the argument list and the scan resumes after it. */
  lemma InPlaceDoubling(fileName: string, eol: set<char>)
    ensures CallWithin("rgb($a)", CallMatch(0, 4, 6, 7))
    ensures Rewritten(OneDeclaration("$a", "$a) rgb($a", fileName), fileName, "rgb($a)", CallMatch(0, 4, 6, 7), eol) == "rgb($a) rgb($a)"
    ensures Resume(OneDeclaration("$a", "$a) rgb($a", fileName), fileName, "rgb($a)", CallMatch(0, 4, 6, 7), eol) == 15
  {
    var v := "$a) rgb($a";
    var t := "rgb($a)";
    assert t[..4] == "rgb(" && t[6..] == ")";
    assert |v| == 10 && t[..4] + v + t[6..] == "rgb($a) rgb($a)";
    ValueOfA(v, fileName, eol);
    RewrittenWith(OneDeclaration("$a", v, fileName), fileName, t, CallMatch(0, 4, 6, 7), eol, v);
  }
}
