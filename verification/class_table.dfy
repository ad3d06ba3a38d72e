/**
 * The class table and the relations the checker derives from it:
 * nominal subtyping along parent links (`is_subtype`), assignment
 * compatibility (`compatible`) and member lookup along the inheritance
 * chain (`lookup_in_class_attrs`, `lookup_method`).
 */
module ClassTable {
  import opened Wrappers
  import opened Types
  import opened Syntax

  datatype AttrInfo = AttrInfo(ty: Type, isFinal: bool, isStatic: bool, init: Option<Expr>)

  /** Constructors are stored with their class as return type, destructors with no type. */
  datatype MethodInfo = MethodInfo(ret: Type, params: seq<Param>, isStatic: bool)

  datatype ClassInfo = ClassInfo(parent: Option<string>, attrs: map<string, AttrInfo>, methods: map<string, MethodInfo>)

  type Table = map<string, ClassInfo>

  // ---------------------------------------------------------------------
  // Parent chains
  // ---------------------------------------------------------------------

  /** The next class on a chain: the parent of a class the table knows, otherwise nothing. */
  function Step(table: Table, c: string): Option<string> {
    if c in table then table[c].parent else None
  }

  /**
   * The Python walks parent links with no bound. Every walk in this model
   * takes at most one step more than there are classes, which reaches the
   * root of every acyclic table.
   */
  function Bound(table: Table): nat { |table| + 1 }

  /** The names a walk from `c` visits in at most `fuel` steps, `c` first. */
  function Chain(table: Table, c: string, fuel: nat): (r: seq<string>)
    ensures |r| <= fuel
    ensures fuel > 0 ==> |r| > 0 && r[0] == c
    decreases fuel
  {
    if fuel == 0 then []
    else [c] + match Step(table, c) {
      case None => []
      case Some(p) => Chain(table, p, fuel - 1)
    }
  }

  /** The walk from `c` stops by itself within `fuel` steps. */
  predicate Complete(table: Table, c: string, fuel: nat)
    decreases fuel
  {
    fuel > 0 && match Step(table, c) {
      case None => true
      case Some(p) => Complete(table, p, fuel - 1)
    }
  }

  /** No parent chain runs in a cycle: every walk ends within the bound. */
  predicate Acyclic(table: Table) {
    forall c :: c in table ==> Complete(table, c, Bound(table))
  }

  // ---------------------------------------------------------------------
  // Subtyping and compatibility
  // ---------------------------------------------------------------------

  /** `is_subtype`: both are classes and `sup`'s name lies on `sub`'s parent chain. */
  predicate Subtype(table: Table, sub: Type, sup: Type) {
    sub.ClassT? && sup.ClassT? && sup.name in Chain(table, sub.name, Bound(table))
  }

  /**
   * `compatible(expected, actual)`: may a value of type `actual` stand where
   * `expected` is required. The error sentinel is compatible both ways so
   * that one error is not reported again by every enclosing construct.
   */
  predicate Compatible(table: Table, expected: Type, actual: Type) {
    if expected == ErrorT || actual == ErrorT then true
    else if expected == NoType then actual == NoType
    else if SameType(expected, actual) then true
    else if IsFloat(expected) && IsInt(actual) then true
    else if IsClass(actual) && IsClass(expected) then Subtype(table, actual, expected)
    else false
  }

  // ---------------------------------------------------------------------
  // Member lookup
  // ---------------------------------------------------------------------

  function FindAttrFrom(table: Table, cur: string, attr: string, fuel: nat): Option<AttrInfo>
    decreases fuel
  {
    if fuel == 0 || cur !in table then None
    else if attr in table[cur].attrs then Some(table[cur].attrs[attr])
    else match table[cur].parent {
      case None => None
      case Some(p) => FindAttrFrom(table, p, attr, fuel - 1)
    }
  }

  /** `lookup_in_class_attrs`: the first declaration of `attr` walking up from `cls`. */
  function FindAttr(table: Table, cls: string, attr: string): Option<AttrInfo> {
    if cls !in table then None else FindAttrFrom(table, cls, attr, Bound(table))
  }

  /** `lookup_method`'s walk, which stops at a class it has already visited. */
  function FindMethodFrom(table: Table, cur: Option<string>, name: string, visited: set<string>): Option<MethodInfo>
    decreases table.Keys - visited
  {
    match cur
    case None => None
    case Some(c) =>
      if c in visited || c !in table then None
      else if name in table[c].methods then Some(table[c].methods[name])
      else FindMethodFrom(table, table[c].parent, name, visited + {c})
  }

  /** `lookup_method`: the first declaration of `name` walking up from `cls`. */
  function FindMethod(table: Table, cls: string, name: string): Option<MethodInfo> {
    FindMethodFrom(table, Some(cls), name, {})
  }

  // ---------------------------------------------------------------------
  // The built-in IO class and the entry point
  // ---------------------------------------------------------------------

  /** The built-in `IO` class: static console reads and writes. */
  function IOClass(): ClassInfo {
    ClassInfo(None, map[], map[
      "writeInt" := MethodInfo(Prim(VoidK), [Param("x", Prim(IntK))], true),
      "writeFloat" := MethodInfo(Prim(VoidK), [Param("x", Prim(FloatK))], true),
      "writeString" := MethodInfo(Prim(VoidK), [Param("x", Prim(StringK))], true),
      "readInt" := MethodInfo(Prim(IntK), [], true),
      "readFloat" := MethodInfo(Prim(FloatK), [], true),
      "readString" := MethodInfo(Prim(StringK), [], true)
    ])
  }

  /** A table entry that qualifies as the program's entry point. */
  predicate IsEntry(m: MethodInfo) {
    m.isStatic && TypeName(m.ret) == "void" && |m.params| == 0
  }

  /** `_check_entry_point`: some class has a static, parameterless, void `main`. */
  predicate EntryPointExists(table: Table) {
    exists c :: c in table && "main" in table[c].methods && IsEntry(table[c].methods["main"])
  }

  // ---------------------------------------------------------------------
  // Lemmas about chains
  // ---------------------------------------------------------------------

  lemma {:induction false} ChainAt(table: Table, a: string, n: nat, i: nat)
    requires i < |Chain(table, a, n)|
    ensures Chain(table, a, n)[i..] == Chain(table, Chain(table, a, n)[i], n - i)
    decreases i
  {
    if i > 0 {
      var p := Step(table, a).value;
      ChainAt(table, p, n - 1, i - 1);
    }
  }

  lemma {:induction false} CompleteAt(table: Table, a: string, n: nat, i: nat)
    requires Complete(table, a, n)
    requires i < |Chain(table, a, n)|
    ensures Complete(table, Chain(table, a, n)[i], n - i)
    decreases i
  {
    if i > 0 {
      CompleteAt(table, Step(table, a).value, n - 1, i - 1);
    }
  }

  /** Once a walk has stopped, more fuel visits nothing further. */
  lemma {:induction false} CompleteStable(table: Table, c: string, n: nat, m: nat)
    requires Complete(table, c, n)
    requires n <= m
    ensures Chain(table, c, m) == Chain(table, c, n)
    decreases n
  {
    match Step(table, c)
    case None =>
    case Some(p) => CompleteStable(table, p, n - 1, m - 1);
  }

  /** A shorter walk visits a prefix of what a longer walk visits. */
  lemma {:induction false} ChainPrefix(table: Table, c: string, n: nat, m: nat)
    requires n <= m
    ensures Chain(table, c, n) <= Chain(table, c, m)
    decreases n
  {
    if n > 0 {
      match Step(table, c)
      case None =>
      case Some(p) => ChainPrefix(table, p, n - 1, m - 1);
    }
  }

  // ---------------------------------------------------------------------
  // Lemmas about subtyping and compatibility
  // ---------------------------------------------------------------------

  /** Every class is a subtype of itself and of its declared parent; nothing else is a subtype. */
  lemma SubtypeBasics(table: Table, a: string, t: Type, u: Type)
    ensures Subtype(table, ClassT(a), ClassT(a))
    ensures a in table && table[a].parent.Some? ==> Subtype(table, ClassT(a), ClassT(table[a].parent.value))
    ensures !t.ClassT? || !u.ClassT? ==> !Subtype(table, t, u)
  {
  }

  /** Subtyping is transitive on every table whose parent chains are acyclic. */
  lemma SubtypeTransitive(table: Table, a: Type, b: Type, c: Type)
    requires Acyclic(table)
    requires Subtype(table, a, b) && Subtype(table, b, c)
    ensures Subtype(table, a, c)
  {
    var N := Bound(table);
    var ch := Chain(table, a.name, N);
    var i :| 0 <= i < |ch| && ch[i] == b.name;
    assert Complete(table, a.name, N) by {
      if a.name !in table { assert Step(table, a.name) == None; }
    }
    CompleteAt(table, a.name, N, i);
    CompleteStable(table, b.name, N - i, N);
    ChainAt(table, a.name, N, i);
    assert c.name in ch[i..];
  }

  /** The cases of `compatible`, with `same_type` read as equality. */
  lemma CompatibleIff(table: Table, e: Type, a: Type)
    ensures Compatible(table, e, a) <==>
      || e == ErrorT || a == ErrorT
      || (e == a && ErrorFree(e))
      || (e == Prim(FloatK) && a == Prim(IntK))
      || (e.ClassT? && a.ClassT? && e.name in Chain(table, a.name, Bound(table)))
  {
    SameTypeIsEquality(e, a);
  }

  /** Widening goes from int to float only. */
  lemma CoercionOneWay(table: Table)
    ensures Compatible(table, Prim(FloatK), Prim(IntK))
    ensures !Compatible(table, Prim(IntK), Prim(FloatK))
  {
  }

  /** Every type free of the error sentinel is compatible with itself. */
  lemma CompatibleReflexive(table: Table, t: Type)
    requires ErrorFree(t)
    ensures Compatible(table, t, t)
  {
    SameTypeIsEquality(t, t);
  }

  /**
   * Compatibility composes: what fits a `b` slot, where a `b` fits an `a`
   * slot, fits the `a` slot, provided the middle type is a real type.
   */
  lemma CompatibleTransitive(table: Table, a: Type, b: Type, c: Type)
    requires Acyclic(table)
    requires b != ErrorT
    requires Compatible(table, a, b) && Compatible(table, b, c)
    ensures Compatible(table, a, c)
  {
    CompatibleIff(table, a, b);
    CompatibleIff(table, b, c);
    CompatibleIff(table, a, c);
    if a != ErrorT && c != ErrorT && a.ClassT? && b.ClassT? && c.ClassT? && a != b && b != c {
      SubtypeTransitive(table, c, b, a);
    }
  }

  // ---------------------------------------------------------------------
  // Lemmas about member lookup
  // ---------------------------------------------------------------------

  /** Class `c` is in the table and declares attribute `attr` itself. */
  predicate DeclaresAttr(table: Table, c: string, attr: string) {
    c in table && attr in table[c].attrs
  }

  /** Class `c` is in the table and declares method `name` itself. */
  predicate DeclaresMethod(table: Table, c: string, name: string) {
    c in table && name in table[c].methods
  }

  /** Position `i` of `ch` is the first class on `ch` that declares `attr`. */
  predicate NearestAttr(table: Table, ch: seq<string>, attr: string, i: int) {
    0 <= i < |ch| && DeclaresAttr(table, ch[i], attr) && forall j :: 0 <= j < i ==> !DeclaresAttr(table, ch[j], attr)
  }

  /** Position `i` of `ch` is the first class on `ch` that declares `name`. */
  predicate NearestMethod(table: Table, ch: seq<string>, name: string, i: int) {
    0 <= i < |ch| && DeclaresMethod(table, ch[i], name) && forall j :: 0 <= j < i ==> !DeclaresMethod(table, ch[j], name)
  }

  /** Reference definition: the declaration of `attr` in the first class of `ch` that has one. */
  function FirstAttrOn(table: Table, ch: seq<string>, attr: string): Option<AttrInfo>
    decreases |ch|
  {
    if |ch| == 0 then None
    else if DeclaresAttr(table, ch[0], attr) then Some(table[ch[0]].attrs[attr])
    else FirstAttrOn(table, ch[1..], attr)
  }

  /** Reference definition: the declaration of `name` in the first class of `ch` that has one. */
  function FirstMethodOn(table: Table, ch: seq<string>, name: string): Option<MethodInfo>
    decreases |ch|
  {
    if |ch| == 0 then None
    else if DeclaresMethod(table, ch[0], name) then Some(table[ch[0]].methods[name])
    else FirstMethodOn(table, ch[1..], name)
  }

  /** The reference search finds nothing exactly when no class on `ch` declares the name, and otherwise the nearest declaration. */
  lemma {:induction false} FirstAttrOnNearest(table: Table, ch: seq<string>, attr: string)
    ensures FirstAttrOn(table, ch, attr).None? <==> forall i :: 0 <= i < |ch| ==> !DeclaresAttr(table, ch[i], attr)
    ensures forall i :: NearestAttr(table, ch, attr, i) ==> FirstAttrOn(table, ch, attr) == Some(table[ch[i]].attrs[attr])
    ensures FirstAttrOn(table, ch, attr).Some? ==> exists i :: NearestAttr(table, ch, attr, i)
    decreases |ch|
  {
    if |ch| > 0 {
      var rest := ch[1..];
      FirstAttrOnNearest(table, rest, attr);
      assert forall i :: 1 <= i < |ch| ==> ch[i] == rest[i - 1];
      if DeclaresAttr(table, ch[0], attr) {
        assert NearestAttr(table, ch, attr, 0);
      } else {
        forall i | NearestAttr(table, ch, attr, i) ensures NearestAttr(table, rest, attr, i - 1) {
        }
        if FirstAttrOn(table, rest, attr).Some? {
          var k :| NearestAttr(table, rest, attr, k);
          assert NearestAttr(table, ch, attr, k + 1);
        }
      }
    }
  }

  lemma {:induction false} FirstMethodOnNearest(table: Table, ch: seq<string>, name: string)
    ensures FirstMethodOn(table, ch, name).None? <==> forall i :: 0 <= i < |ch| ==> !DeclaresMethod(table, ch[i], name)
    ensures forall i :: NearestMethod(table, ch, name, i) ==> FirstMethodOn(table, ch, name) == Some(table[ch[i]].methods[name])
    ensures FirstMethodOn(table, ch, name).Some? ==> exists i :: NearestMethod(table, ch, name, i)
    decreases |ch|
  {
    if |ch| > 0 {
      var rest := ch[1..];
      FirstMethodOnNearest(table, rest, name);
      assert forall i :: 1 <= i < |ch| ==> ch[i] == rest[i - 1];
      if DeclaresMethod(table, ch[0], name) {
        assert NearestMethod(table, ch, name, 0);
      } else {
        forall i | NearestMethod(table, ch, name, i) ensures NearestMethod(table, rest, name, i - 1) {
        }
        if FirstMethodOn(table, rest, name).Some? {
          var k :| NearestMethod(table, rest, name, k);
          assert NearestMethod(table, ch, name, k + 1);
        }
      }
    }
  }

  /** The attribute walk is the reference search over the chain it walks. */
  lemma {:induction false} FindAttrFromNearest(table: Table, cur: string, attr: string, fuel: nat)
    ensures FindAttrFrom(table, cur, attr, fuel) == FirstAttrOn(table, Chain(table, cur, fuel), attr)
    decreases fuel
  {
    if fuel > 0 {
      var ch := Chain(table, cur, fuel);
      if cur in table && attr !in table[cur].attrs && table[cur].parent.Some? {
        var p := table[cur].parent.value;
        FindAttrFromNearest(table, p, attr, fuel - 1);
        assert ch[1..] == Chain(table, p, fuel - 1);
      } else if !DeclaresAttr(table, cur, attr) {
        assert ch == [cur] && ch[1..] == [];
      }
    }
  }

  /**
   * Attribute lookup finds nothing exactly when no class on the parent
   * chain declares the name, and otherwise finds the declaration of the
   * nearest class that does; a class's own declaration hides its ancestors'.
   */
  lemma FindAttrIff(table: Table, cls: string, attr: string)
    ensures var ch := Chain(table, cls, Bound(table));
      && (FindAttr(table, cls, attr).None? <==> forall i :: 0 <= i < |ch| ==> !DeclaresAttr(table, ch[i], attr))
      && (forall i :: NearestAttr(table, ch, attr, i) ==> FindAttr(table, cls, attr) == Some(table[ch[i]].attrs[attr]))
      && (FindAttr(table, cls, attr).Some? ==> exists i :: NearestAttr(table, ch, attr, i))
    ensures cls in table && attr in table[cls].attrs ==> FindAttr(table, cls, attr) == Some(table[cls].attrs[attr])
  {
    var ch := Chain(table, cls, Bound(table));
    FindAttrFromNearest(table, cls, attr, Bound(table));
    FirstAttrOnNearest(table, ch, attr);
    if cls !in table {
      assert !DeclaresAttr(table, ch[0], attr);
    }
  }

  /**
   * The classes a method walk has already passed: each is a class that does
   * not declare `name` and whose parent was passed too or is `cur`, next.
   */
  predicate WalkedPast(table: Table, cur: string, name: string, visited: set<string>) {
    forall v :: v in visited ==>
      v in table && name !in table[v].methods && table[v].parent.Some? && table[v].parent.value in visited + {cur}
  }

  /** A chain that starts among the passed classes never leaves them, so declares nothing. */
  lemma {:induction false} VisitedChainSilent(table: Table, c: string, name: string, visited: set<string>, fuel: nat)
    requires c in visited && WalkedPast(table, c, name, visited)
    ensures FirstMethodOn(table, Chain(table, c, fuel), name) == None
    decreases fuel
  {
    if fuel > 0 {
      var p := table[c].parent.value;
      var ch := Chain(table, c, fuel);
      assert visited + {p} == visited;
      VisitedChainSilent(table, p, name, visited, fuel - 1);
      assert ch[1..] == Chain(table, p, fuel - 1);
    }
  }

  /**
   * The method walk, started with fuel to spare past the unvisited classes,
   * is the reference search over the chain: stopping at a visited class
   * loses nothing, since the chain from there only repeats passed classes.
   */
  lemma {:induction false} FindMethodFromNearest(table: Table, c: string, name: string, visited: set<string>, fuel: nat)
    requires fuel > |table.Keys - visited|
    requires WalkedPast(table, c, name, visited)
    ensures FindMethodFrom(table, Some(c), name, visited) == FirstMethodOn(table, Chain(table, c, fuel), name)
    decreases table.Keys - visited
  {
    var ch := Chain(table, c, fuel);
    if c in visited {
      VisitedChainSilent(table, c, name, visited, fuel);
    } else if c !in table {
      assert ch == [c] && ch[1..] == [];
    } else if name !in table[c].methods {
      match table[c].parent
      case None =>
        assert ch == [c] && ch[1..] == [];
      case Some(p) =>
        UnvisitedShrinks(table, visited, c);
        WalkedPastStep(table, c, name, visited);
        FindMethodFromNearest(table, p, name, visited + {c}, fuel - 1);
        assert ch[1..] == Chain(table, p, fuel - 1);
        assert FirstMethodOn(table, ch, name) == FirstMethodOn(table, ch[1..], name);
    }
  }

  /** Passing a class that does not declare `name` keeps the walk's invariant. */
  lemma WalkedPastStep(table: Table, c: string, name: string, visited: set<string>)
    requires WalkedPast(table, c, name, visited)
    requires c in table && name !in table[c].methods && table[c].parent.Some?
    ensures WalkedPast(table, table[c].parent.value, name, visited + {c})
  {
  }

  /** Visiting one more class of the table leaves one class fewer unvisited. */
  lemma UnvisitedShrinks(table: Table, visited: set<string>, c: string)
    requires c in table && c !in visited
    ensures |table.Keys - (visited + {c})| == |table.Keys - visited| - 1
  {
    var rest := table.Keys - (visited + {c});
    assert rest + {c} == table.Keys - visited && c !in rest;
  }

  /**
   * Method lookup finds nothing exactly when no class on the parent chain
   * declares the name, and otherwise finds the declaration of the nearest
   * class that does, even on a table whose parent links run in a cycle; a
   * class's own method hides its ancestors'.
   */
  lemma FindMethodIff(table: Table, cls: string, name: string)
    ensures var ch := Chain(table, cls, Bound(table));
      && (FindMethod(table, cls, name).None? <==> forall i :: 0 <= i < |ch| ==> !DeclaresMethod(table, ch[i], name))
      && (forall i :: NearestMethod(table, ch, name, i) ==> FindMethod(table, cls, name) == Some(table[ch[i]].methods[name]))
      && (FindMethod(table, cls, name).Some? ==> exists i :: NearestMethod(table, ch, name, i))
    ensures cls in table && name in table[cls].methods ==> FindMethod(table, cls, name) == Some(table[cls].methods[name])
  {
    assert |table.Keys - {}| < Bound(table) by {
      assert table.Keys - {} == table.Keys;
    }
    FindMethodFromNearest(table, cls, name, {}, Bound(table));
    FirstMethodOnNearest(table, Chain(table, cls, Bound(table)), name);
  }

  /** The entry-point test accepts exactly the static, parameterless `main` whose type reads `void`. */
  lemma EntryVoidForms(m: MethodInfo)
    ensures IsEntry(m) <==> m.isStatic && |m.params| == 0 && (m.ret == NoType || m.ret == Prim(VoidK) || m.ret == ClassT("void"))
  {
    VoidNamedIff(m.ret);
  }
}
