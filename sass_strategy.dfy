/**
 * `SassExtractor` (src/lib/variables/strategies/sass-strategy.ts): the
 * strategy object that owns a variable store and runs the declaration,
 * usage and function-argument passes over lines of a file. Each method is
 * proved to compute the corresponding function of module `SassPasses`.
 *
 * The color-literal parser (`ColorExtractor.extractOneColor`) and the
 * imported `EOL` terminator set are given to the constructor.
 */
module SassStrategy {
  import opened Wrappers
  import opened JsText
  import opened SassPatterns
  import opened Variables
  import opened VariableStore
  import opened SassPasses

  class SassExtractor {
    const name: string
    const store: VariablesStore
    const eol: set<char>
    const extractOneColor: string -> Option<Color>

    /** The store holds at most one declaration per `(name, fileName, line)`, each with its site. */
    ghost predicate Valid()
      reads store
    {
      UniqueSites(store.entries) && AllDeclared(store.entries)
    }

    constructor(eol: set<char>, extractOneColor: string -> Option<Color>)
      ensures Valid() && fresh(store) && store.entries == []
      ensures name == "SASS" && this.eol == eol && this.extractOneColor == extractOneColor
    {
      name := "SASS";
      store := new VariablesStore();
      this.eol := eol;
      this.extractOneColor := extractOneColor;
    }

    /** `extractDeclarations`: records the declarations of every line and returns the number of lines. */
    method ExtractDeclarations(fileName: string, fileLines: seq<DocumentLine>) returns (count: nat)
      requires Valid()
      modifies store
      ensures Valid()
      ensures count == |fileLines|
      ensures store.entries == DeclareLines(old(store.entries), fileName, fileLines, eol, extractOneColor)
    {
      for i := 0 to |fileLines|
        invariant Valid()
        invariant store.entries == DeclareLines(old(store.entries), fileName, fileLines[..i], eol, extractOneColor)
      {
        ExtractLineDeclarations(fileName, fileLines[i].text, fileLines[i].line);
        assert fileLines[..i + 1][..i] == fileLines[..i];
      }
      assert fileLines[..|fileLines|] == fileLines;
      count := |fileLines|;
    }

    /**
     * `__extractDeclarations`: substitutes the line's function arguments,
     * then records every declaration found in the rewritten text.
     */
    method ExtractLineDeclarations(fileName: string, text: string, line: int)
      requires Valid()
      modifies store
      ensures Valid()
      ensures store.entries == DeclareLine(old(store.entries), fileName, DocumentLine(line, text), eol, extractOneColor)
    {
      var e := ExtractFunction(fileName, [DocumentLine(line, text)]);
      var t := e[0].text;
      ghost var start := store.entries;
      var cursor := 0;
      var next := FindDecl(t, cursor, eol);
      while next.Some?
        invariant next == FindDecl(t, cursor, eol)
        invariant Valid()
        invariant DeclareFrom(store.entries, fileName, line, t, cursor, eol, extractOneColor) ==
                  DeclareFrom(start, fileName, line, t, 0, eol, extractOneColor)
        decreases |t| - cursor
      {
        var m := next.value;
        var varName := m.name;
        var raw := Trim(t[m.end..]);
        var color: Color;
        var parsed := extractOneColor(raw);
        if parsed.Some? {
          color := parsed.value;
        } else {
          var single := ExtractVariable(fileName, raw);
          if single.Some? {
            color := single.value;
          } else {
            color := Placeholder(RemoveAll(raw, ';'));
          }
        }
        ghost var before := store.entries;
        if store.HasAt(varName, fileName, line) {
          var k := store.FindDeclaration(varName, fileName, line).value;
          store.UpdateColor(k, color);
        } else {
          store.AddEntry(varName, Variable(varName, color, Some(Site(fileName, line))));
        }
        assert store.entries == Declare(before, varName, fileName, line, color);
        cursor := m.end;
        next := FindDecl(t, cursor, eol);
      }
    }

    /** `extractVariables`: the substituted text is computed and discarded; usages are read from the original lines. */
    method ExtractVariables(fileName: string, fileLines: seq<DocumentLine>) returns (r: seq<LineExtraction>)
      ensures r == UsageLines(store.entries, fileName, fileLines, eol)
    {
      var rewritten := ExtractFunction(fileName, fileLines);
      r := ExtractLineVariables(fileName, fileLines);
    }

    /** `_extractVariables`: one tagged result per line holding an entity per usage of a known name. */
    method ExtractLineVariables(fileName: string, fileLines: seq<DocumentLine>) returns (r: seq<LineExtraction>)
      ensures r == UsageLines(store.entries, fileName, fileLines, eol)
    {
      r := [];
      for i := 0 to |fileLines|
        invariant |r| == i
        invariant forall j :: 0 <= j < i ==>
                    r[j] == LineExtraction(fileLines[j].line, LineUsages(store.entries, fileName, fileLines[j].text, eol))
      {
        var colors := LineVariables(fileName, fileLines[i].text);
        r := r + [LineExtraction(fileLines[i].line, colors)];
      }
    }

    /** The inner loop of `_extractVariables`: walks the usage matches of one line. */
    method LineVariables(fileName: string, text: string) returns (colors: seq<Variable>)
      ensures colors == LineUsages(store.entries, fileName, text, eol)
    {
      colors := [];
      var cursor := 0;
      var next := FindUsage(text, cursor, eol);
      while next.Some?
        invariant next == FindUsage(text, cursor, eol)
        invariant colors + UsagesFrom(store.entries, fileName, text, cursor, eol) == LineUsages(store.entries, fileName, text, eol)
        decreases |text| - cursor
      {
        var m := next.value;
        var varName := m.name;
        UsagesFromStep(store.entries, fileName, text, cursor, eol);
        if store.Has(varName) {
          var variable := ResolveVariable(fileName, m);
          colors := colors + [variable];
        }
        cursor := m.end;
        next := FindUsage(text, cursor, eol);
      }
    }

    /** The entity built for one usage: the closest declaration in the file, else one of the global scope. */
    method ResolveVariable(fileName: string, m: UsageMatch) returns (variable: Variable)
      ensures variable == UsageEntity(store.entries, fileName, m)
    {
      var decoration := store.FindClosestDeclaration(m.name, fileName);
      if decoration.None? {
        decoration := store.FindClosestDeclaration(m.name, GlobalScope);
      }
      if decoration.Some? {
        var c := decoration.value.color;
        variable := Variable(m.name, Color(m.name, m.start, c.rgb, c.alpha, c.raw), None);
      } else {
        variable := Variable(m.name, Color(m.name, m.start, None, None, None), None);
      }
    }

    /** `extractVariable`: the color of a text that starts with one variable reference. */
    function ExtractVariable(fileName: string, text: string): Option<Color>
      reads store
    {
      SingleTokenColor(store.entries, fileName, text, eol)
    }

    /**
     * `extractFunction`: every `rgb`/`rgba`/`hsl`/`hsla` call has its argument
     * list replaced by the joined raw texts of the usages inside it.
     */
    method ExtractFunction(fileName: string, fileLines: seq<DocumentLine>) returns (r: seq<DocumentLine>)
      ensures |r| == |fileLines|
      ensures forall i :: 0 <= i < |fileLines| ==>
                r[i] == DocumentLine(fileLines[i].line, SubstituteCalls(store.entries, fileName, fileLines[i].text, eol))
    {
      r := [];
      for i := 0 to |fileLines|
        invariant |r| == i
        invariant forall j :: 0 <= j < i ==>
                    r[j] == DocumentLine(fileLines[j].line, SubstituteCalls(store.entries, fileName, fileLines[j].text, eol))
      {
        var text := LineFunctions(fileName, fileLines[i].line, fileLines[i].text);
        r := r + [DocumentLine(fileLines[i].line, text)];
      }
    }

    /** The inner loop of `extractFunction`: rewrites the calls of one line from left to right. */
    method LineFunctions(fileName: string, line: int, original: string) returns (text: string)
      ensures text == SubstituteCalls(store.entries, fileName, original, eol)
    {
      text := original;
      var cursor: nat := 0;
      var next := FindCall(text, cursor);
      while next.Some?
        invariant cursor <= |text|
        invariant next == FindCall(text, cursor)
        invariant SubstituteFrom(store.entries, fileName, text, cursor, eol) == SubstituteCalls(store.entries, fileName, original, eol)
        decreases |text| - cursor
      {
        var m := next.value;
        var args := text[m.argStart..m.argEnd];
        var variables := ExtractLineVariables(fileName, [DocumentLine(line, args)]);
        if |variables| > 0 {
          assert variables[0].colors == LineUsages(store.entries, fileName, args, eol);
          var value := JoinedRaws(variables[0].colors);
          assert value == ArgumentValue(store.entries, fileName, args, eol);
          var rewritten := text[..m.argStart] + value + text[m.argEnd..];
          var resume := m.end - |args| + |value|;
          SubstituteFromStep(store.entries, fileName, text, cursor, eol, m);
          assert rewritten == Rewritten(store.entries, fileName, text, m, eol);
          assert resume == Resume(store.entries, fileName, text, m, eol);
          text, cursor := rewritten, resume;
        } else {
          cursor := m.end;
        }
        next := FindCall(text, cursor);
      }
    }

    /** `variablesCount`: the number of distinct declarations recorded. */
    function VariablesCount(): (n: nat)
      requires Valid()
      reads store
      ensures n == |Declarations(store.entries)|
    {
      CountIsDeclarations(store.entries);
      store.Count()
    }

    /** `deleteVariable`: removes every declaration recorded at `(fileName, line)`, whatever its name. */
    method DeleteVariable(fileName: string, line: int) returns (removed: bool)
      requires Valid()
      modifies store
      ensures Valid()
      ensures store.entries == WithoutSite(old(store.entries), None, fileName, line)
      ensures removed <==> exists e :: e in old(store.entries) && e.declaration == Some(Site(fileName, line))
      ensures forall n :: !HasSite(store.entries, n, fileName, line)
    {
      WithoutSiteKeepsInvariant(store.entries, None, fileName, line);
      removed := store.Delete(None, fileName, line);
    }
  }
}
