/**
 * The variable store the strategy owns (src/lib/variables/variable-store.ts
 * is not part of this model). It is modelled as the sequence of recorded
 * declarations in discovery order, with the queries the strategy makes of
 * it: `has`, `findDeclaration`, `findClosestDeclaration`, `addEntry`,
 * `update` of a found declaration, `delete` and `count`.
 */
module VariableStore {
  import opened Wrappers
  import opened Variables

  /** The file name that stands for every file. */
  const GlobalScope: string := "."

  /** `e` is visible from `fileName`: declared in it, or `fileName` is the global scope. */
  predicate InScope(e: Variable, fileName: string) {
    fileName == GlobalScope || (e.declaration.Some? && e.declaration.value.fileName == fileName)
  }

  /** `e` declares `name` and is visible from `fileName`. */
  predicate Visible(e: Variable, name: string, fileName: string) {
    e.name == name && InScope(e, fileName)
  }

  /** `e` declares `name` at `(fileName, line)`. */
  predicate DeclaredAt(e: Variable, name: string, fileName: string, line: int) {
    e.name == name && e.declaration == Some(Site(fileName, line))
  }

  /** `has(name)`: some declaration of `name` is recorded. */
  predicate HasName(entries: seq<Variable>, name: string) {
    exists e :: e in entries && e.name == name
  }

  /** `has(name, fileName, line)`: a declaration of `name` is recorded at exactly that site. */
  predicate HasSite(entries: seq<Variable>, name: string, fileName: string, line: int) {
    exists e :: e in entries && DeclaredAt(e, name, fileName, line)
  }

  /** At most one entry per `(name, fileName, line)`. */
  ghost predicate UniqueSites(entries: seq<Variable>) {
    forall i, j :: 0 <= i < j < |entries| && entries[i].declaration.Some? ==>
      !(entries[i].name == entries[j].name && entries[i].declaration == entries[j].declaration)
  }

  /** Every recorded entry carries its declaration site. */
  ghost predicate AllDeclared(entries: seq<Variable>) {
    forall i :: 0 <= i < |entries| ==> entries[i].declaration.Some?
  }

  function IndexAtFrom(entries: seq<Variable>, name: string, fileName: string, line: int, from: nat): (r: Option<nat>)
    decreases |entries| - from
    ensures r.Some? ==> from <= r.value < |entries| && DeclaredAt(entries[r.value], name, fileName, line)
    ensures forall k :: from <= k < |entries| && (r.None? || k < r.value) ==> !DeclaredAt(entries[k], name, fileName, line)
  {
    if from >= |entries| then None
    else if DeclaredAt(entries[from], name, fileName, line) then Some(from)
    else IndexAtFrom(entries, name, fileName, line, from + 1)
  }

  /** `findDeclaration(name, fileName, line)`: the index of the declaration at exactly that site. */
  function IndexAt(entries: seq<Variable>, name: string, fileName: string, line: int): (r: Option<nat>)
    ensures r.Some? <==> HasSite(entries, name, fileName, line)
    ensures r.Some? ==> r.value < |entries| && DeclaredAt(entries[r.value], name, fileName, line)
    ensures r.Some? ==> forall k :: 0 <= k < r.value ==> !DeclaredAt(entries[k], name, fileName, line)
  {
    IndexAtFrom(entries, name, fileName, line, 0)
  }

  function LastVisible(entries: seq<Variable>, name: string, fileName: string, n: nat): (r: Option<nat>)
    requires n <= |entries|
    decreases n
    ensures r.Some? ==> r.value < n && Visible(entries[r.value], name, fileName)
    ensures forall k :: (if r.Some? then r.value + 1 else 0) <= k < n ==> !Visible(entries[k], name, fileName)
  {
    if n == 0 then None
    else if Visible(entries[n - 1], name, fileName) then Some(n - 1)
    else LastVisible(entries, name, fileName, n - 1)
  }

  /**
   * `findClosestDeclaration(name, fileName)`: the most recently recorded
   * declaration of `name` in `fileName` (in any file for the global scope);
   * `None` is the entity without a color that signals "unresolved".
   */
  function ClosestIndex(entries: seq<Variable>, name: string, fileName: string): (r: Option<nat>)
    ensures r.Some? ==> r.value < |entries| && Visible(entries[r.value], name, fileName)
    ensures r.Some? ==> forall k :: r.value < k < |entries| ==> !Visible(entries[k], name, fileName)
    ensures r.None? <==> forall k :: 0 <= k < |entries| ==> !Visible(entries[k], name, fileName)
  {
    LastVisible(entries, name, fileName, |entries|)
  }

  /** The entries that survive `delete(name, fileName, line)`; a `None` name matches every name. */
  function WithoutSite(entries: seq<Variable>, name: Option<string>, fileName: string, line: int): (r: seq<Variable>)
    ensures |r| <= |entries|
    ensures forall e :: e in r <==> e in entries && !Deleted(e, name, fileName, line)
  {
    if entries == [] then []
    else
      var rest := WithoutSite(entries[1..], name, fileName, line);
      assert forall e :: e in entries <==> e == entries[0] || e in entries[1..];
      if Deleted(entries[0], name, fileName, line) then rest else [entries[0]] + rest
  }

  /** Deletion filters entry by entry, so the entries that remain keep their order. */
  lemma {:induction false} WithoutSiteKeepsOrder(a: seq<Variable>, b: seq<Variable>, name: Option<string>, fileName: string, line: int)
    ensures WithoutSite(a + b, name, fileName, line) == WithoutSite(a, name, fileName, line) + WithoutSite(b, name, fileName, line)
  {
    if a != [] {
      assert (a + b)[1..] == a[1..] + b;
      WithoutSiteKeepsOrder(a[1..], b, name, fileName, line);
    } else {
      assert a + b == b;
    }
  }

  /** The invariant holds for the entries after the first. */
  lemma InvariantOfTail(entries: seq<Variable>)
    requires entries != [] && UniqueSites(entries) && AllDeclared(entries)
    ensures UniqueSites(entries[1..]) && AllDeclared(entries[1..])
  {
    var tail := entries[1..];
    forall i, j | 0 <= i < j < |tail| && tail[i].declaration.Some?
      ensures !(tail[i].name == tail[j].name && tail[i].declaration == tail[j].declaration)
    {
      assert tail[i] == entries[i + 1] && tail[j] == entries[j + 1];
    }
  }

  /** Putting in front an entry whose site no later entry shares keeps the invariant. */
  lemma InvariantOfCons(e: Variable, rest: seq<Variable>)
    requires UniqueSites(rest) && AllDeclared(rest) && e.declaration.Some?
    requires forall x :: x in rest ==> !(x.name == e.name && x.declaration == e.declaration)
    ensures UniqueSites([e] + rest) && AllDeclared([e] + rest)
  {
    var r := [e] + rest;
    forall i, j | 0 <= i < j < |r| && r[i].declaration.Some?
      ensures !(r[i].name == r[j].name && r[i].declaration == r[j].declaration)
    {
      if 0 < i {
        assert r[i] == rest[i - 1] && r[j] == rest[j - 1];
      } else {
        assert r[j] in rest;
      }
    }
    forall i | 0 <= i < |r| ensures r[i].declaration.Some? {
      if 0 < i { assert r[i] == rest[i - 1]; }
    }
  }

  /** The recorded declarations as `(name, site)` pairs. */
  ghost function Declarations(entries: seq<Variable>): set<(string, Option<Site>)> {
    set e | e in entries :: (e.name, e.declaration)
  }

  /** Under the invariant every entry is a different declaration, so `count` is the number of declarations. */
  lemma {:induction false} CountIsDeclarations(entries: seq<Variable>)
    requires UniqueSites(entries) && AllDeclared(entries)
    ensures |Declarations(entries)| == |entries|
  {
    if entries != [] {
      InvariantOfTail(entries);
      CountIsDeclarations(entries[1..]);
      HeadNotInTail(entries);
      DeclarationsOfCons(entries);
    }
  }

  /** The declarations of a store are its first entry's and those of the rest. */
  lemma DeclarationsOfCons(entries: seq<Variable>)
    requires entries != []
    ensures Declarations(entries) == {(entries[0].name, entries[0].declaration)} + Declarations(entries[1..])
  {
    var head, tail := (entries[0].name, entries[0].declaration), entries[1..];
    forall p ensures p in Declarations(entries) <==> p in {head} + Declarations(tail) {
      if p in Declarations(entries) {
        var e :| e in entries && (e.name, e.declaration) == p;
        if e != entries[0] {
          var k :| 0 <= k < |entries| && entries[k] == e;
          assert e == tail[k - 1];
        }
      }
      if p in Declarations(tail) {
        var e :| e in tail && (e.name, e.declaration) == p;
        assert e in entries;
      }
    }
  }

  /** Under the invariant the first entry's declaration does not recur later. */
  lemma HeadNotInTail(entries: seq<Variable>)
    requires entries != [] && UniqueSites(entries) && AllDeclared(entries)
    ensures (entries[0].name, entries[0].declaration) !in Declarations(entries[1..])
  {
    var tail := entries[1..];
    assert forall k :: 0 <= k < |tail| ==> tail[k] == entries[k + 1];
  }

  /** Deleting keeps the store's invariant: the survivors keep their order, so sites stay unique. */
  lemma {:induction false} WithoutSiteKeepsInvariant(entries: seq<Variable>, name: Option<string>, fileName: string, line: int)
    requires UniqueSites(entries) && AllDeclared(entries)
    ensures var r := WithoutSite(entries, name, fileName, line);
      UniqueSites(r) && AllDeclared(r)
  {
    if entries != [] {
      var tail := entries[1..];
      InvariantOfTail(entries);
      WithoutSiteKeepsInvariant(tail, name, fileName, line);
      var rest := WithoutSite(tail, name, fileName, line);
      if !Deleted(entries[0], name, fileName, line) {
        forall x | x in rest ensures !(x.name == entries[0].name && x.declaration == entries[0].declaration) {
          assert x in tail;
          var k :| 0 <= k < |tail| && tail[k] == x;
          assert entries[k + 1] == x;
        }
        InvariantOfCons(entries[0], rest);
      }
    }
  }

  /** `e` is removed by `delete(name, fileName, line)`. */
  predicate Deleted(e: Variable, name: Option<string>, fileName: string, line: int) {
    e.declaration == Some(Site(fileName, line)) && (name.None? || e.name == name.value)
  }

  class VariablesStore {
    /** The recorded declarations, in discovery order. */
    var entries: seq<Variable>

    constructor()
      ensures entries == []
    {
      entries := [];
    }

    /** `count`. */
    function Count(): nat
      reads this
    {
      |entries|
    }

    predicate Has(name: string)
      reads this
    {
      HasName(entries, name)
    }

    predicate HasAt(name: string, fileName: string, line: int)
      reads this
    {
      HasSite(entries, name, fileName, line)
    }

    function FindDeclaration(name: string, fileName: string, line: int): Option<nat>
      reads this
    {
      IndexAt(entries, name, fileName, line)
    }

    function FindClosestDeclaration(name: string, fileName: string): Option<Variable>
      reads this
    {
      match ClosestIndex(entries, name, fileName)
      case None => None
      case Some(k) => Some(entries[k])
    }

    /** `addEntry(name, variable)`: the declaration is appended. */
    method AddEntry(name: string, variable: Variable)
      requires variable.name == name
      modifies this
      ensures entries == old(entries) + [variable]
    {
      entries := entries + [variable];
    }

    /** `decoration.update(color)` on the declaration at index `k`: only its color changes. */
    method UpdateColor(k: nat, color: Color)
      requires k < |entries|
      modifies this
      ensures entries == old(entries)[k := old(entries)[k].(color := color)]
    {
      entries := entries[k := entries[k].(color := color)];
    }

    /** `delete(name, fileName, line)`: removes every matching declaration; reports whether any was removed. */
    method Delete(name: Option<string>, fileName: string, line: int) returns (removed: bool)
      modifies this
      ensures entries == WithoutSite(old(entries), name, fileName, line)
      ensures removed <==> exists e :: e in old(entries) && Deleted(e, name, fileName, line)
    {
      var kept := WithoutSite(entries, name, fileName, line);
      removed := exists e :: e in entries && Deleted(e, name, fileName, line);
      entries := kept;
    }
  }
}
