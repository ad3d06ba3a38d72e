/**
 * The first pass, `_build_class_table`: register every class, check that
 * every declared parent exists, then enter each class's attributes and
 * methods, raising at the first name declared twice.
 */
module Builder {
  import opened Wrappers
  import opened Types
  import opened Syntax
  import opened Diagnostics
  import opened ClassTable

  /** The table with the flag saying whether a `static void main()` was seen. */
  datatype Built = Built(table: Table, hasMain: bool)

  // ---------------------------------------------------------------------
  // Names
  // ---------------------------------------------------------------------

  function Elems<T>(s: seq<T>): set<T> {
    set x | x in s
  }

  predicate NoDuplicates<T(==)>(s: seq<T>) {
    forall i, j :: 0 <= i < j < |s| ==> s[i] != s[j]
  }

  /** The names `s` can be entered one after the other into a namespace that already holds `used`. */
  predicate FreshSeq<T(==)>(s: seq<T>, used: set<T>) {
    NoDuplicates(s) && forall i :: 0 <= i < |s| ==> s[i] !in used
  }

  /**
   * Position `j` of `s` holds the first name that cannot be entered: it is
   * already in `used` or repeats an earlier name of `s`.
   */
  predicate FirstClash<T(==)>(s: seq<T>, used: set<T>, j: int) {
    0 <= j < |s| && FreshSeq(s[..j], used) && s[j] in used + Elems(s[..j])
  }

  /** A name together with the namespace of the class entry it is declared in. */
  datatype Key = Key(kind: DeclKind, name: string)

  /** The attribute names and method keys an entry holds, each in its namespace. */
  function KeysOf(ci: ClassInfo): set<Key> {
    (set a | a in ci.attrs :: Key(AttributeKind, a)) + (set f | f in ci.methods :: Key(MethodKind, f))
  }

  function ClassNames(cs: seq<ClassDecl>): (r: seq<string>)
    ensures |r| == |cs|
    ensures forall i :: 0 <= i < |cs| ==> r[i] == cs[i].name
  {
    if |cs| == 0 then [] else [cs[0].name] + ClassNames(cs[1..])
  }

  function VarNames(vs: seq<VarInit>): (r: seq<string>)
    ensures |r| == |vs|
    ensures forall i :: 0 <= i < |vs| ==> r[i] == vs[i].name
  {
    if |vs| == 0 then [] else [vs[0].name] + VarNames(vs[1..])
  }

  /** The key a method-like member takes in the method namespace; a destructor is `~` and the class name. */
  function MethodKey(cname: string, m: Member): string
    requires !m.AttrMember?
  {
    match m
    case MethodMember(d) => d.name
    case CtorMember(k) => k.name
    case DtorMember(_) => "~" + cname
  }

  /** What the table records for a method-like member: constructors return their class, destructors nothing. */
  function MethodEntry(cname: string, m: Member): MethodInfo
    requires !m.AttrMember?
  {
    match m
    case MethodMember(d) => MethodInfo(d.ret, d.params, d.isStatic)
    case CtorMember(k) => MethodInfo(ClassT(cname), k.params, false)
    case DtorMember(_) => MethodInfo(NoType, [], false)
  }

  function AttrEntry(a: AttrDecl, v: VarInit): AttrInfo {
    AttrInfo(a.ty, a.isFinal, a.isStatic, v.init)
  }

  function MemberAttrNames(m: Member): seq<string> {
    if m.AttrMember? then VarNames(m.attr.attrs) else []
  }

  function MemberMethodKeys(cname: string, m: Member): seq<string> {
    if m.AttrMember? then [] else [MethodKey(cname, m)]
  }

  function AttrKeys(vs: seq<VarInit>): (r: seq<Key>)
    ensures |r| == |vs|
    ensures forall i :: 0 <= i < |vs| ==> r[i] == Key(AttributeKind, vs[i].name)
  {
    seq(|vs|, i requires 0 <= i < |vs| => Key(AttributeKind, vs[i].name))
  }

  /** What one member enters into its class, in order and tagged with the namespace. */
  function MemberKeys(cname: string, m: Member): seq<Key> {
    if m.AttrMember? then AttrKeys(m.attr.attrs) else [Key(MethodKind, MethodKey(cname, m))]
  }

  /** What the members of a class enter, in declaration order. */
  function EntryKeys(cname: string, ms: seq<Member>): seq<Key> {
    if |ms| == 0 then [] else MemberKeys(cname, ms[0]) + EntryKeys(cname, ms[1..])
  }

  /** The attribute names the members declare, in order. */
  function AttrNames(ms: seq<Member>): seq<string> {
    if |ms| == 0 then [] else MemberAttrNames(ms[0]) + AttrNames(ms[1..])
  }

  /** The method keys the members declare, in order. */
  function MethodKeys(cname: string, ms: seq<Member>): seq<string> {
    if |ms| == 0 then [] else MemberMethodKeys(cname, ms[0]) + MethodKeys(cname, ms[1..])
  }

  /** `main` as the builder recognises it: static, primitive `void`, no parameters. */
  predicate IsMainDecl(m: Member) {
    m.MethodMember? && m.mdecl.name == "main" && m.mdecl.isStatic && m.mdecl.ret == Prim(VoidK) && |m.mdecl.params| == 0
  }

  predicate DeclaresMain(c: ClassDecl) {
    exists j :: 0 <= j < |c.members| && IsMainDecl(c.members[j])
  }

  // ---------------------------------------------------------------------
  // The passes
  // ---------------------------------------------------------------------

  /** Pass one: classes registered in order with no members yet; a second use of a name is raised. */
  function RegisterFrom(t: Table, cs: seq<ClassDecl>): Result<Table>
    decreases |cs|
  {
    if |cs| == 0 then Ok(t)
    else if cs[0].name in t then Fail(Redeclared(ClassKind, cs[0].name))
    else RegisterFrom(t[cs[0].name := ClassInfo(cs[0].parent, map[], map[])], cs[1..])
  }

  /** Pass two: the first declared parent, in class order, that is not a class name. */
  function MissingParent(cs: seq<ClassDecl>, names: set<string>): Option<string>
    decreases |cs|
  {
    if |cs| == 0 then None
    else if cs[0].parent.Some? && cs[0].parent.value !in names then Some(cs[0].parent.value)
    else MissingParent(cs[1..], names)
  }

  function AttrVarsFrom(ci: ClassInfo, a: AttrDecl, vs: seq<VarInit>): Result<ClassInfo>
    decreases |vs|
  {
    if |vs| == 0 then Ok(ci)
    else if vs[0].name in ci.attrs then Fail(Redeclared(AttributeKind, vs[0].name))
    else AttrVarsFrom(ci.(attrs := ci.attrs[vs[0].name := AttrEntry(a, vs[0])]), a, vs[1..])
  }

  /**
   * One member entered into its class. Methods, constructors and the
   * destructor share one namespace and a clash among them is labelled
   * `Method` whatever the member is.
   */
  function AddMember(ci: ClassInfo, cname: string, m: Member): Result<ClassInfo> {
    if m.AttrMember? then AttrVarsFrom(ci, m.attr, m.attr.attrs)
    else if MethodKey(cname, m) in ci.methods then Fail(Redeclared(MethodKind, MethodKey(cname, m)))
    else Ok(ci.(methods := ci.methods[MethodKey(cname, m) := MethodEntry(cname, m)]))
  }

  function MembersFrom(ci: ClassInfo, cname: string, ms: seq<Member>): Result<ClassInfo>
    decreases |ms|
  {
    if |ms| == 0 then Ok(ci)
    else match AddMember(ci, cname, ms[0])
      case Fail(d) => Fail(d)
      case Ok(ci1) => MembersFrom(ci1, cname, ms[1..])
  }

  /** Pass three for one class: its members entered in order into the entry pass one made. */
  function ClassEntry(c: ClassDecl): Result<ClassInfo> {
    MembersFrom(ClassInfo(c.parent, map[], map[]), c.name, c.members)
  }

  function AddClasses(b: Built, cs: seq<ClassDecl>): Result<Built>
    decreases |cs|
  {
    if |cs| == 0 then Ok(b)
    else match ClassEntry(cs[0])
      case Fail(d) => Fail(d)
      case Ok(ci) => AddClasses(Built(b.table[cs[0].name := ci], b.hasMain || DeclaresMain(cs[0])), cs[1..])
  }

  /** `_build_class_table`. */
  function Build(cs: seq<ClassDecl>): Result<Built> {
    match RegisterFrom(map[], cs)
    case Fail(d) => Fail(d)
    case Ok(t) =>
      match MissingParent(cs, t.Keys)
      case Some(p) => Fail(UndeclaredClass(p))
      case None => AddClasses(Built(t, false), cs)
  }

  // ---------------------------------------------------------------------
  // Reference predicates
  // ---------------------------------------------------------------------

  predicate ParentsDeclared(cs: seq<ClassDecl>) {
    forall i :: 0 <= i < |cs| && cs[i].parent.Some? ==> cs[i].parent.value in Elems(ClassNames(cs))
  }

  /** Class `j` is the first, in declaration order, whose declared parent is not in `names`. */
  predicate FirstMissingParent(cs: seq<ClassDecl>, names: set<string>, j: int) {
    && 0 <= j < |cs| && cs[j].parent.Some? && cs[j].parent.value !in names
    && forall k :: 0 <= k < j ==> !(cs[k].parent.Some? && cs[k].parent.value !in names)
  }

  /** No attribute name and no method key is declared twice in the class. */
  predicate MembersFresh(c: ClassDecl) {
    NoDuplicates(AttrNames(c.members)) && NoDuplicates(MethodKeys(c.name, c.members))
  }

  // ---------------------------------------------------------------------
  // Lemmas about names
  // ---------------------------------------------------------------------

  lemma FreshConsSplit<T>(x: T, s: seq<T>, used: set<T>)
    requires FreshSeq([x] + s, used)
    ensures x !in used && FreshSeq(s, used + {x})
  {
    var xs := [x] + s;
    assert xs[0] == x;
    forall i | 0 <= i < |s| ensures s[i] !in used + {x} {
      assert s[i] == xs[i + 1];
      assert xs[0] != xs[i + 1];
    }
    forall i, j | 0 <= i < j < |s| ensures s[i] != s[j] {
      assert s[i] == xs[i + 1] && s[j] == xs[j + 1];
    }
  }

  lemma FreshConsJoin<T>(x: T, s: seq<T>, used: set<T>)
    requires x !in used && FreshSeq(s, used + {x})
    ensures FreshSeq([x] + s, used)
  {
    var xs := [x] + s;
    forall i, j | 0 <= i < j < |xs| ensures xs[i] != xs[j] {
      assert xs[j] == s[j - 1] && s[j - 1] !in used + {x};
      if i > 0 { assert xs[i] == s[i - 1]; } else { assert xs[i] == x; }
    }
    forall i | 0 <= i < |xs| ensures xs[i] !in used {
      if i > 0 { assert xs[i] == s[i - 1]; } else { assert xs[i] == x; }
    }
  }

  lemma FreshCons<T>(x: T, s: seq<T>, used: set<T>)
    ensures FreshSeq([x] + s, used) <==> x !in used && FreshSeq(s, used + {x})
  {
    if FreshSeq([x] + s, used) { FreshConsSplit(x, s, used); }
    if x !in used && FreshSeq(s, used + {x}) { FreshConsJoin(x, s, used); }
  }

  lemma {:induction false} FreshAppend<T>(s1: seq<T>, s2: seq<T>, used: set<T>)
    ensures FreshSeq(s1 + s2, used) <==> FreshSeq(s1, used) && FreshSeq(s2, used + Elems(s1))
    decreases |s1|
  {
    if |s1| == 0 {
      assert s1 + s2 == s2;
      assert Elems(s1) == {};
    } else {
      var x := s1[0];
      var t := s1[1..];
      assert s1 == [x] + t;
      assert s1 + s2 == [x] + (t + s2);
      FreshCons(x, t + s2, used);
      FreshCons(x, t, used);
      FreshAppend(t, s2, used + {x});
      assert used + {x} + Elems(t) == used + Elems(s1);
    }
  }

  lemma ElemsEmpty<T>(s: seq<T>)
    ensures Elems(s) == {} <==> |s| == 0
  {
    if |s| > 0 {
      assert s[0] in Elems(s);
    }
  }

  lemma ElemsAppend<T>(s1: seq<T>, s2: seq<T>)
    ensures Elems(s1 + s2) == Elems(s1) + Elems(s2)
  {
  }

  /** The first clash of `[x] + s` is `x` itself exactly when `x` is used; otherwise it is one of `s`'s. */
  lemma FirstClashCons<T>(x: T, s: seq<T>, used: set<T>, j: int)
    requires FirstClash([x] + s, used, j)
    ensures j == 0 <==> x in used
    ensures j > 0 ==> FirstClash(s, used + {x}, j - 1)
  {
    var xs := [x] + s;
    if j == 0 {
      assert xs[..j] == [];
      assert Elems(xs[..j]) == {};
    } else {
      assert xs[..j] == [x] + s[..j - 1];
      FreshCons(x, s[..j - 1], used);
      ElemsAppend([x], s[..j - 1]);
      assert Elems([x]) == {x};
      assert xs[j] == s[j - 1];
    }
  }

  /** A first clash in `s1 + s2` lies in `s1`, or else `s1` enters freely and the clash is `s2`'s. */
  lemma FirstClashAppend<T>(s1: seq<T>, s2: seq<T>, used: set<T>, j: int)
    requires FirstClash(s1 + s2, used, j)
    ensures j < |s1| ==> FirstClash(s1, used, j)
    ensures j >= |s1| ==> FreshSeq(s1, used) && FirstClash(s2, used + Elems(s1), j - |s1|)
  {
    var s := s1 + s2;
    if j < |s1| {
      assert s[..j] == s1[..j];
    } else {
      var k := j - |s1|;
      assert s[..j] == s1 + s2[..k];
      FreshAppend(s1, s2[..k], used);
      ElemsAppend(s1, s2[..k]);
    }
  }

  /** A first clash depends on the names already used, not on how that set is written. */
  lemma FirstClashSameUsed<T>(s: seq<T>, used: set<T>, used': set<T>, j: int)
    requires FirstClash(s, used, j) && used' == used
    ensures FirstClash(s, used', j)
  {
  }

  /** A sequence that cannot be entered has a first clash. */
  lemma {:induction false} FirstClashExists<T>(s: seq<T>, used: set<T>)
    ensures !FreshSeq(s, used) <==> exists j :: FirstClash(s, used, j)
    decreases |s|
  {
    if exists j :: FirstClash(s, used, j) {
      var j :| FirstClash(s, used, j);
      if s[j] in Elems(s[..j]) {
        var i :| 0 <= i < j && s[..j][i] == s[j];
        assert s[i] == s[j];
      }
    }
    if !FreshSeq(s, used) && |s| > 0 {
      var x, t := s[0], s[1..];
      assert s == [x] + t;
      FreshCons(x, t, used);
      if x in used {
        assert s[..0] == [];
        assert FirstClash(s, used, 0);
      } else {
        FirstClashExists(t, used + {x});
        var k :| FirstClash(t, used + {x}, k);
        assert s[..k + 1] == [x] + t[..k];
        FreshCons(x, t[..k], used);
        ElemsAppend([x], t[..k]);
        assert Elems([x]) == {x};
        assert FirstClash(s, used, k + 1);
      }
    }
  }

  lemma KeysOfAttr(ci: ClassInfo, n: string, e: AttrInfo)
    ensures Key(AttributeKind, n) in KeysOf(ci) <==> n in ci.attrs
    ensures KeysOf(ci.(attrs := ci.attrs[n := e])) == KeysOf(ci) + {Key(AttributeKind, n)}
  {
    var ci1 := ci.(attrs := ci.attrs[n := e]);
    forall k | k in KeysOf(ci1) ensures k in KeysOf(ci) + {Key(AttributeKind, n)} {
      if k.kind == AttributeKind && k.name != n { assert k.name in ci.attrs; }
    }
  }

  lemma KeysOfMethod(ci: ClassInfo, n: string, e: MethodInfo)
    ensures Key(MethodKind, n) in KeysOf(ci) <==> n in ci.methods
    ensures KeysOf(ci.(methods := ci.methods[n := e])) == KeysOf(ci) + {Key(MethodKind, n)}
  {
    var ci1 := ci.(methods := ci.methods[n := e]);
    forall k | k in KeysOf(ci1) ensures k in KeysOf(ci) + {Key(MethodKind, n)} {
      if k.kind == MethodKind && k.name != n { assert k.name in ci.methods; }
    }
  }

  // ---------------------------------------------------------------------
  // Lemmas about the passes
  // ---------------------------------------------------------------------

  /**
   * Pass one succeeds exactly when the class names are new and distinct,
   * and then registers all of them; otherwise it raises `Redeclared(Class)`
   * on the first name that was already registered.
   */
  lemma {:induction false} RegisterSpec(t: Table, cs: seq<ClassDecl>)
    ensures RegisterFrom(t, cs).Ok? <==> FreshSeq(ClassNames(cs), t.Keys)
    ensures RegisterFrom(t, cs).Fail? ==> RegisterFrom(t, cs).diag.Redeclared? && RegisterFrom(t, cs).diag.kind == ClassKind
    ensures forall j :: FirstClash(ClassNames(cs), t.Keys, j) ==> RegisterFrom(t, cs) == Fail(Redeclared(ClassKind, cs[j].name))
    ensures RegisterFrom(t, cs).Ok? ==> RegisterFrom(t, cs).value.Keys == t.Keys + Elems(ClassNames(cs))
    decreases |cs|
  {
    if |cs| > 0 {
      var names := ClassNames(cs);
      var rest := cs[1..];
      assert names == [cs[0].name] + ClassNames(rest);
      FreshCons(cs[0].name, ClassNames(rest), t.Keys);
      var t1 := t[cs[0].name := ClassInfo(cs[0].parent, map[], map[])];
      assert t1.Keys == t.Keys + {cs[0].name};
      RegisterSpec(t1, rest);
      ElemsAppend([cs[0].name], ClassNames(rest));
      assert Elems([cs[0].name]) == {cs[0].name};
      forall j | FirstClash(names, t.Keys, j) ensures RegisterFrom(t, cs) == Fail(Redeclared(ClassKind, cs[j].name)) {
        FirstClashCons(cs[0].name, ClassNames(rest), t.Keys, j);
        if j > 0 { assert cs[j] == rest[j - 1]; }
      }
    }
  }

  /** Pass two reports the parent of the first class, in declaration order, whose parent is not a class. */
  lemma {:induction false} MissingParentSpec(cs: seq<ClassDecl>, names: set<string>)
    ensures MissingParent(cs, names).None? <==> forall i :: 0 <= i < |cs| && cs[i].parent.Some? ==> cs[i].parent.value in names
    ensures MissingParent(cs, names).Some? ==>
      exists i :: 0 <= i < |cs| && cs[i].parent == MissingParent(cs, names) && cs[i].parent.value !in names
    ensures forall j :: FirstMissingParent(cs, names, j) ==> MissingParent(cs, names) == Some(cs[j].parent.value)
    decreases |cs|
  {
    if |cs| > 0 {
      MissingParentSpec(cs[1..], names);
      assert forall i :: 1 <= i < |cs| ==> cs[i] == cs[1..][i - 1];
      forall j | FirstMissingParent(cs, names, j) ensures MissingParent(cs, names) == Some(cs[j].parent.value) {
        if j > 0 { assert FirstMissingParent(cs[1..], names, j - 1); }
      }
      if MissingParent(cs, names).Some? && !(cs[0].parent.Some? && cs[0].parent.value !in names) {
        var i :| 0 <= i < |cs[1..]| && cs[1..][i].parent == MissingParent(cs, names) && cs[1..][i].parent.value !in names;
        assert cs[i + 1] == cs[1..][i];
      }
    }
  }

  /** `r` extends `ci`: same parent, and every attribute and method of `ci` kept as it was. */
  predicate KeepsOld(ci: ClassInfo, r: ClassInfo) {
    && r.parent == ci.parent
    && (forall k :: k in ci.attrs ==> k in r.attrs && r.attrs[k] == ci.attrs[k])
    && (forall k :: k in ci.methods ==> k in r.methods && r.methods[k] == ci.methods[k])
  }

  /** The entry `r` records member `m` under its name, as declared. */
  predicate HoldsMember(r: ClassInfo, cname: string, m: Member) {
    if m.AttrMember? then
      forall v :: 0 <= v < |m.attr.attrs| ==>
        m.attr.attrs[v].name in r.attrs && r.attrs[m.attr.attrs[v].name] == AttrEntry(m.attr, m.attr.attrs[v])
    else MethodKey(cname, m) in r.methods && r.methods[MethodKey(cname, m)] == MethodEntry(cname, m)
  }

  predicate HoldsMembers(r: ClassInfo, cname: string, ms: seq<Member>) {
    forall j :: 0 <= j < |ms| ==> HoldsMember(r, cname, ms[j])
  }

  lemma KeepsOldTransitive(a: ClassInfo, b: ClassInfo, c: ClassInfo)
    requires KeepsOld(a, b) && KeepsOld(b, c)
    ensures KeepsOld(a, c)
  {
  }

  lemma HoldsMemberKept(a: ClassInfo, b: ClassInfo, cname: string, m: Member)
    requires KeepsOld(a, b) && HoldsMember(a, cname, m)
    ensures HoldsMember(b, cname, m)
  {
  }

  /**
   * Attribute names entered in order: each must be new, and each gets its
   * entry; the first that is not raises `Redeclared(Attribute)` with its name.
   */
  lemma {:induction false} AttrVarsSpec(ci: ClassInfo, a: AttrDecl, vs: seq<VarInit>)
    ensures AttrVarsFrom(ci, a, vs).Ok? <==> FreshSeq(VarNames(vs), ci.attrs.Keys)
    ensures AttrVarsFrom(ci, a, vs).Fail? ==> AttrVarsFrom(ci, a, vs).diag.Redeclared? && AttrVarsFrom(ci, a, vs).diag.kind == AttributeKind
    ensures forall j :: FirstClash(VarNames(vs), ci.attrs.Keys, j) ==>
      AttrVarsFrom(ci, a, vs) == Fail(Redeclared(AttributeKind, vs[j].name))
    ensures AttrVarsFrom(ci, a, vs).Ok? ==>
      var r := AttrVarsFrom(ci, a, vs).value;
      && KeepsOld(ci, r) && r.methods == ci.methods
      && r.attrs.Keys == ci.attrs.Keys + Elems(VarNames(vs))
      && (forall v :: 0 <= v < |vs| ==> vs[v].name in r.attrs && r.attrs[vs[v].name] == AttrEntry(a, vs[v]))
    decreases |vs|
  {
    if |vs| > 0 {
      var names := VarNames(vs);
      assert names == [vs[0].name] + VarNames(vs[1..]);
      FreshCons(vs[0].name, VarNames(vs[1..]), ci.attrs.Keys);
      var ci1 := ci.(attrs := ci.attrs[vs[0].name := AttrEntry(a, vs[0])]);
      assert ci1.attrs.Keys == ci.attrs.Keys + {vs[0].name};
      AttrVarsSpec(ci1, a, vs[1..]);
      ElemsAppend([vs[0].name], VarNames(vs[1..]));
      assert Elems([vs[0].name]) == {vs[0].name};
      assert forall v :: 1 <= v < |vs| ==> vs[v] == vs[1..][v - 1];
      forall j | FirstClash(names, ci.attrs.Keys, j) ensures AttrVarsFrom(ci, a, vs) == Fail(Redeclared(AttributeKind, vs[j].name)) {
        FirstClashCons(vs[0].name, VarNames(vs[1..]), ci.attrs.Keys, j);
      }
    } else {
      assert Elems(VarNames(vs)) == {};
    }
  }

  /** The attribute pass read over namespace keys: what it enters, and the first key it cannot. */
  lemma {:induction false} AttrVarsKeys(ci: ClassInfo, a: AttrDecl, vs: seq<VarInit>)
    ensures AttrVarsFrom(ci, a, vs).Ok? <==> FreshSeq(AttrKeys(vs), KeysOf(ci))
    ensures AttrVarsFrom(ci, a, vs).Ok? ==> KeysOf(AttrVarsFrom(ci, a, vs).value) == KeysOf(ci) + Elems(AttrKeys(vs))
    ensures forall j :: FirstClash(AttrKeys(vs), KeysOf(ci), j) ==>
      AttrVarsFrom(ci, a, vs) == Fail(Redeclared(AttributeKind, vs[j].name))
    decreases |vs|
  {
    if |vs| > 0 {
      var x := Key(AttributeKind, vs[0].name);
      var ks := AttrKeys(vs);
      var rest := vs[1..];
      assert ks == [x] + AttrKeys(rest);
      FreshCons(x, AttrKeys(rest), KeysOf(ci));
      var ci1 := ci.(attrs := ci.attrs[vs[0].name := AttrEntry(a, vs[0])]);
      KeysOfAttr(ci, vs[0].name, AttrEntry(a, vs[0]));
      AttrVarsKeys(ci1, a, rest);
      ElemsAppend([x], AttrKeys(rest));
      assert Elems([x]) == {x};
      forall j | FirstClash(ks, KeysOf(ci), j) ensures AttrVarsFrom(ci, a, vs) == Fail(Redeclared(AttributeKind, vs[j].name)) {
        FirstClashCons(x, AttrKeys(rest), KeysOf(ci), j);
        if j > 0 { assert vs[j] == rest[j - 1]; }
      }
    } else {
      assert AttrKeys(vs) == [];
      assert Elems<Key>([]) == {};
    }
  }

  /**
   * One member is entered exactly when its names are new in their
   * namespaces; otherwise the first name that is not is raised as
   * `Redeclared`, labelled with its namespace.
   */
  lemma AddMemberOk(ci: ClassInfo, cname: string, m: Member)
    ensures AddMember(ci, cname, m).Ok? <==>
      FreshSeq(MemberAttrNames(m), ci.attrs.Keys) && FreshSeq(MemberMethodKeys(cname, m), ci.methods.Keys)
    ensures AddMember(ci, cname, m).Fail? ==>
      AddMember(ci, cname, m).diag.Redeclared? && AddMember(ci, cname, m).diag.kind in {AttributeKind, MethodKind}
    ensures AddMember(ci, cname, m).Ok? <==> FreshSeq(MemberKeys(cname, m), KeysOf(ci))
    ensures forall j :: FirstClash(MemberKeys(cname, m), KeysOf(ci), j) ==>
      AddMember(ci, cname, m) == Fail(Redeclared(MemberKeys(cname, m)[j].kind, MemberKeys(cname, m)[j].name))
  {
    if m.AttrMember? {
      AttrVarsSpec(ci, m.attr, m.attr.attrs);
      AttrVarsKeys(ci, m.attr, m.attr.attrs);
    } else {
      var k := MethodKey(cname, m);
      FreshCons(k, [], ci.methods.Keys);
      assert [k] + [] == [k];
      var x := Key(MethodKind, k);
      KeysOfMethod(ci, k, MethodEntry(cname, m));
      FreshCons(x, [], KeysOf(ci));
      assert [x] + [] == [x];
      forall j | FirstClash([x], KeysOf(ci), j) ensures x in KeysOf(ci) {
        assert [x][..j] == [];
        assert Elems<Key>([]) == {};
      }
    }
  }

  lemma AddMemberResult(ci: ClassInfo, cname: string, m: Member)
    requires AddMember(ci, cname, m).Ok?
    ensures var r := AddMember(ci, cname, m).value;
      && KeepsOld(ci, r) && HoldsMember(r, cname, m)
      && r.attrs.Keys == ci.attrs.Keys + Elems(MemberAttrNames(m))
      && r.methods.Keys == ci.methods.Keys + Elems(MemberMethodKeys(cname, m))
      && KeysOf(r) == KeysOf(ci) + Elems(MemberKeys(cname, m))
  {
    if m.AttrMember? {
      AttrVarsSpec(ci, m.attr, m.attr.attrs);
      AttrVarsKeys(ci, m.attr, m.attr.attrs);
    } else {
      assert Elems([MethodKey(cname, m)]) == {MethodKey(cname, m)};
      KeysOfMethod(ci, MethodKey(cname, m), MethodEntry(cname, m));
      assert Elems([Key(MethodKind, MethodKey(cname, m))]) == {Key(MethodKind, MethodKey(cname, m))};
    }
    assert Elems<string>([]) == {};
  }

  /**
   * The members of a class are entered exactly when no attribute name and
   * no method key repeats. Otherwise the first name, in declaration order,
   * that repeats one before it in its namespace is raised as `Redeclared`,
   * labelled with that namespace.
   */
  lemma {:induction false} MembersOk(ci: ClassInfo, cname: string, ms: seq<Member>)
    ensures MembersFrom(ci, cname, ms).Ok? <==>
      FreshSeq(AttrNames(ms), ci.attrs.Keys) && FreshSeq(MethodKeys(cname, ms), ci.methods.Keys)
    ensures MembersFrom(ci, cname, ms).Fail? ==>
      MembersFrom(ci, cname, ms).diag.Redeclared? && MembersFrom(ci, cname, ms).diag.kind in {AttributeKind, MethodKind}
    ensures MembersFrom(ci, cname, ms).Ok? <==> FreshSeq(EntryKeys(cname, ms), KeysOf(ci))
    ensures forall j :: FirstClash(EntryKeys(cname, ms), KeysOf(ci), j) ==>
      MembersFrom(ci, cname, ms) == Fail(Redeclared(EntryKeys(cname, ms)[j].kind, EntryKeys(cname, ms)[j].name))
    decreases |ms|
  {
    if |ms| > 0 {
      var m := ms[0];
      var mk, ek := MemberKeys(cname, m), EntryKeys(cname, ms[1..]);
      assert EntryKeys(cname, ms) == mk + ek;
      AddMemberOk(ci, cname, m);
      FreshAppend(MemberAttrNames(m), AttrNames(ms[1..]), ci.attrs.Keys);
      FreshAppend(MemberMethodKeys(cname, m), MethodKeys(cname, ms[1..]), ci.methods.Keys);
      FreshAppend(mk, ek, KeysOf(ci));
      if AddMember(ci, cname, m).Ok? {
        AddMemberResult(ci, cname, m);
        MembersOk(AddMember(ci, cname, m).value, cname, ms[1..]);
      }
      MembersClashStep(ci, cname, ms);
    } else {
      assert Elems<Key>([]) == {};
    }
  }

  /** The members' first clash, if any, is what their pass raises. */
  ghost predicate ClashRaised(ci: ClassInfo, cname: string, ms: seq<Member>) {
    forall j :: FirstClash(EntryKeys(cname, ms), KeysOf(ci), j) ==>
      MembersFrom(ci, cname, ms) == Fail(Redeclared(EntryKeys(cname, ms)[j].kind, EntryKeys(cname, ms)[j].name))
  }

  /** The first clash among the members, given where the first clash after the first member is raised. */
  lemma MembersClashStep(ci: ClassInfo, cname: string, ms: seq<Member>)
    requires |ms| > 0
    requires AddMember(ci, cname, ms[0]).Ok? ==> ClashRaised(AddMember(ci, cname, ms[0]).value, cname, ms[1..])
    ensures ClashRaised(ci, cname, ms)
  {
    forall j | FirstClash(EntryKeys(cname, ms), KeysOf(ci), j)
      ensures MembersFrom(ci, cname, ms) == Fail(Redeclared(EntryKeys(cname, ms)[j].kind, EntryKeys(cname, ms)[j].name))
    {
      if j < |MemberKeys(cname, ms[0])| {
        MembersClashFirst(ci, cname, ms, j);
      } else {
        MembersClashLater(ci, cname, ms, j);
      }
    }
  }

  /** A clash among the first member's keys is raised by that member. */
  lemma MembersClashFirst(ci: ClassInfo, cname: string, ms: seq<Member>, j: int)
    requires |ms| > 0 && FirstClash(EntryKeys(cname, ms), KeysOf(ci), j) && j < |MemberKeys(cname, ms[0])|
    ensures MembersFrom(ci, cname, ms) == Fail(Redeclared(EntryKeys(cname, ms)[j].kind, EntryKeys(cname, ms)[j].name))
  {
    var mk, ek := MemberKeys(cname, ms[0]), EntryKeys(cname, ms[1..]);
    assert EntryKeys(cname, ms) == mk + ek;
    FirstClashAppend(mk, ek, KeysOf(ci), j);
    AddMemberOk(ci, cname, ms[0]);
    assert (mk + ek)[j] == mk[j];
  }

  /** A clash after the first member's keys is the clash of the members after it. */
  lemma MembersClashLater(ci: ClassInfo, cname: string, ms: seq<Member>, j: int)
    requires |ms| > 0 && FirstClash(EntryKeys(cname, ms), KeysOf(ci), j) && j >= |MemberKeys(cname, ms[0])|
    requires AddMember(ci, cname, ms[0]).Ok? ==> ClashRaised(AddMember(ci, cname, ms[0]).value, cname, ms[1..])
    ensures MembersFrom(ci, cname, ms) == Fail(Redeclared(EntryKeys(cname, ms)[j].kind, EntryKeys(cname, ms)[j].name))
  {
    var mk, ek := MemberKeys(cname, ms[0]), EntryKeys(cname, ms[1..]);
    assert EntryKeys(cname, ms) == mk + ek;
    FirstClashAppend(mk, ek, KeysOf(ci), j);
    var k := j - |mk|;
    assert (mk + ek)[j] == ek[k];
    AddMemberKeys(ci, cname, ms[0]);
    var ci1 := AddMember(ci, cname, ms[0]).value;
    FirstClashSameUsed(ek, KeysOf(ci) + Elems(mk), KeysOf(ci1), k);
    assert ClashRaised(ci1, cname, ms[1..]);
    assert MembersFrom(ci1, cname, ms[1..]) == Fail(Redeclared(ek[k].kind, ek[k].name));
  }

  /** A member whose keys are new is entered, and the entry then holds its keys as well. */
  lemma AddMemberKeys(ci: ClassInfo, cname: string, m: Member)
    requires FreshSeq(MemberKeys(cname, m), KeysOf(ci))
    ensures AddMember(ci, cname, m).Ok?
    ensures KeysOf(AddMember(ci, cname, m).value) == KeysOf(ci) + Elems(MemberKeys(cname, m))
  {
    AddMemberOk(ci, cname, m);
    AddMemberResult(ci, cname, m);
  }

  /** Once entered, the entry holds every member under its name and nothing else. */
  lemma {:induction false} MembersResult(ci: ClassInfo, cname: string, ms: seq<Member>)
    requires MembersFrom(ci, cname, ms).Ok?
    ensures var r := MembersFrom(ci, cname, ms).value;
      KeepsOld(ci, r) && HoldsMembers(r, cname, ms)
    decreases |ms|
  {
    if |ms| > 0 {
      var m := ms[0];
      var rest := ms[1..];
      var ci1 := AddMember(ci, cname, m).value;
      var r := MembersFrom(ci, cname, ms).value;
      AddMemberResult(ci, cname, m);
      MembersResult(ci1, cname, rest);
      KeepsOldTransitive(ci, ci1, r);
      HoldsMemberKept(ci1, r, cname, m);
      assert forall j :: 1 <= j < |ms| ==> ms[j] == rest[j - 1];
    }
  }

  /** The members' pass adds exactly the members' attribute names and method keys. */
  lemma {:induction false} MembersKeys(ci: ClassInfo, cname: string, ms: seq<Member>)
    requires MembersFrom(ci, cname, ms).Ok?
    ensures var r := MembersFrom(ci, cname, ms).value;
      && r.attrs.Keys == ci.attrs.Keys + Elems(AttrNames(ms))
      && r.methods.Keys == ci.methods.Keys + Elems(MethodKeys(cname, ms))
    decreases |ms|
  {
    if |ms| == 0 {
      assert Elems<string>([]) == {};
    } else {
      var m := ms[0];
      AddMemberResult(ci, cname, m);
      MembersKeys(AddMember(ci, cname, m).value, cname, ms[1..]);
      ElemsAppend(MemberAttrNames(m), AttrNames(ms[1..]));
      ElemsAppend(MemberMethodKeys(cname, m), MethodKeys(cname, ms[1..]));
    }
  }

  /**
   * One class's entry: built exactly when its names are fresh, holding its
   * parent and every member; otherwise the first repeated name, in
   * declaration order and in its namespace, is raised.
   */
  lemma ClassEntrySpec(c: ClassDecl)
    ensures ClassEntry(c).Ok? <==> MembersFresh(c)
    ensures ClassEntry(c).Fail? ==> ClassEntry(c).diag.Redeclared? && ClassEntry(c).diag.kind in {AttributeKind, MethodKind}
    ensures forall j :: FirstClash(EntryKeys(c.name, c.members), {}, j) ==>
      ClassEntry(c) == Fail(Redeclared(EntryKeys(c.name, c.members)[j].kind, EntryKeys(c.name, c.members)[j].name))
    ensures ClassEntry(c).Ok? ==>
      var r := ClassEntry(c).value;
      && r.parent == c.parent && HoldsMembers(r, c.name, c.members)
      && r.attrs.Keys == Elems(AttrNames(c.members))
      && r.methods.Keys == Elems(MethodKeys(c.name, c.members))
  {
    var ci := ClassInfo(c.parent, map[], map[]);
    assert ci.attrs.Keys == {} && ci.methods.Keys == {};
    assert KeysOf(ci) == {};
    MembersOk(ci, c.name, c.members);
    if ClassEntry(c).Ok? {
      MembersResult(ci, c.name, c.members);
      MembersKeys(ci, c.name, c.members);
    }
  }

  /** Every class's entry is in the table as pass three builds it. */
  predicate HoldsClasses(table: Table, cs: seq<ClassDecl>) {
    forall i :: 0 <= i < |cs| ==> ClassEntry(cs[i]).Ok? && cs[i].name in table && table[cs[i].name] == ClassEntry(cs[i]).value
  }

  lemma DistinctCons(x: string, s: seq<string>)
    requires NoDuplicates([x] + s)
    ensures NoDuplicates(s) && x !in Elems(s)
    ensures Elems([x] + s) == {x} + Elems(s)
  {
    assert FreshSeq([x] + s, {});
    FreshConsSplit(x, s, {});
    ElemsAppend([x], s);
    assert Elems([x]) == {x};
  }

  lemma DistinctTail(cs: seq<ClassDecl>)
    requires |cs| > 0 && NoDuplicates(ClassNames(cs))
    ensures NoDuplicates(ClassNames(cs[1..]))
    ensures cs[0].name !in Elems(ClassNames(cs[1..]))
    ensures Elems(ClassNames(cs)) == {cs[0].name} + Elems(ClassNames(cs[1..]))
  {
    assert ClassNames(cs) == [cs[0].name] + ClassNames(cs[1..]);
    DistinctCons(cs[0].name, ClassNames(cs[1..]));
  }

  /** Class `i` is the first, in declaration order, whose entry cannot be built. */
  predicate FirstBadEntry(cs: seq<ClassDecl>, i: int) {
    0 <= i < |cs| && ClassEntry(cs[i]).Fail? && forall k :: 0 <= k < i ==> ClassEntry(cs[k]).Ok?
  }

  /** Pass three succeeds exactly when every entry can be built, and otherwise raises the first failing class's error. */
  lemma {:induction false} AddClassesOk(b: Built, cs: seq<ClassDecl>)
    ensures AddClasses(b, cs).Ok? <==> forall i :: 0 <= i < |cs| ==> ClassEntry(cs[i]).Ok?
    ensures AddClasses(b, cs).Fail? ==> exists i :: 0 <= i < |cs| && ClassEntry(cs[i]) == Fail(AddClasses(b, cs).diag)
    ensures forall i :: FirstBadEntry(cs, i) ==> AddClasses(b, cs) == Fail(ClassEntry(cs[i]).diag)
    decreases |cs|
  {
    if |cs| > 0 {
      var rest := cs[1..];
      assert forall i :: 1 <= i < |cs| ==> cs[i] == rest[i - 1];
      if ClassEntry(cs[0]).Ok? {
        var b1 := Built(b.table[cs[0].name := ClassEntry(cs[0]).value], b.hasMain || DeclaresMain(cs[0]));
        AddClassesOk(b1, rest);
        if AddClasses(b, cs).Fail? {
          var i :| 0 <= i < |rest| && ClassEntry(rest[i]) == Fail(AddClasses(b, cs).diag);
          assert cs[i + 1] == rest[i];
        }
        forall i | FirstBadEntry(cs, i) ensures AddClasses(b, cs) == Fail(ClassEntry(cs[i]).diag) {
          assert FirstBadEntry(rest, i - 1);
        }
      }
    }
  }

  lemma {:induction false} AddClassesKeys(b: Built, cs: seq<ClassDecl>)
    requires NoDuplicates(ClassNames(cs))
    requires AddClasses(b, cs).Ok?
    ensures var r := AddClasses(b, cs).value;
      && r.table.Keys == b.table.Keys + Elems(ClassNames(cs))
      && (forall k :: k in b.table && k !in Elems(ClassNames(cs)) ==> r.table[k] == b.table[k])
    decreases |cs|
  {
    if |cs| == 0 {
      assert Elems<string>([]) == {};
    } else {
      DistinctTail(cs);
      var b1 := Built(b.table[cs[0].name := ClassEntry(cs[0]).value], b.hasMain || DeclaresMain(cs[0]));
      AddClassesKeys(b1, cs[1..]);
    }
  }

  lemma {:induction false} AddClassesHolds(b: Built, cs: seq<ClassDecl>)
    requires NoDuplicates(ClassNames(cs))
    requires AddClasses(b, cs).Ok?
    ensures HoldsClasses(AddClasses(b, cs).value.table, cs)
    decreases |cs|
  {
    if |cs| > 0 {
      var c := cs[0];
      var rest := cs[1..];
      DistinctTail(cs);
      var ci := ClassEntry(c).value;
      var b1 := Built(b.table[c.name := ci], b.hasMain || DeclaresMain(c));
      AddClassesHolds(b1, rest);
      AddClassesKeys(b1, rest);
      var r := AddClasses(b, cs).value;
      forall i | 0 <= i < |cs|
        ensures ClassEntry(cs[i]).Ok? && cs[i].name in r.table && r.table[cs[i].name] == ClassEntry(cs[i]).value
      {
        if i > 0 { assert cs[i] == rest[i - 1]; }
      }
    }
  }

  lemma {:induction false} AddClassesMain(b: Built, cs: seq<ClassDecl>)
    requires AddClasses(b, cs).Ok?
    ensures AddClasses(b, cs).value.hasMain <==> b.hasMain || exists i :: 0 <= i < |cs| && DeclaresMain(cs[i])
    decreases |cs|
  {
    if |cs| > 0 {
      var rest := cs[1..];
      var b1 := Built(b.table[cs[0].name := ClassEntry(cs[0]).value], b.hasMain || DeclaresMain(cs[0]));
      AddClassesMain(b1, rest);
      if exists i :: 0 <= i < |rest| && DeclaresMain(rest[i]) {
        var i :| 0 <= i < |rest| && DeclaresMain(rest[i]);
        assert cs[i + 1] == rest[i];
      }
      if exists i :: 0 <= i < |cs| && DeclaresMain(cs[i]) {
        var i :| 0 <= i < |cs| && DeclaresMain(cs[i]);
        if i > 0 { assert cs[i] == rest[i - 1]; }
      }
    }
  }

  /**
   * The class table is built exactly when class names are distinct, every
   * declared parent is a class of the program and no class repeats an
   * attribute name or a method key.
   */
  lemma BuildOk(cs: seq<ClassDecl>)
    ensures Build(cs).Ok? <==>
      NoDuplicates(ClassNames(cs)) && ParentsDeclared(cs) && forall i :: 0 <= i < |cs| ==> MembersFresh(cs[i])
  {
    var t0: Table := map[];
    assert t0.Keys == {};
    RegisterSpec(t0, cs);
    forall i | 0 <= i < |cs| ensures ClassEntry(cs[i]).Ok? <==> MembersFresh(cs[i]) {
      ClassEntrySpec(cs[i]);
    }
    if RegisterFrom(t0, cs).Ok? {
      var t := RegisterFrom(t0, cs).value;
      MissingParentSpec(cs, t.Keys);
      AddClassesOk(Built(t, false), cs);
    }
  }

  /** A successful build is pass three run over the table of pass one. */
  lemma BuildUnfold(cs: seq<ClassDecl>)
    requires Build(cs).Ok?
    ensures RegisterFrom(map[], cs).Ok?
    ensures RegisterFrom(map[], cs).value.Keys == Elems(ClassNames(cs))
    ensures NoDuplicates(ClassNames(cs))
    ensures Build(cs) == AddClasses(Built(RegisterFrom(map[], cs).value, false), cs)
  {
    var t0: Table := map[];
    assert t0.Keys == {};
    RegisterSpec(t0, cs);
  }

  /**
   * The built table has one entry per class, made from that class's
   * members, and the main flag says whether some class declares
   * `static void main()`.
   */
  lemma BuildResult(cs: seq<ClassDecl>)
    requires Build(cs).Ok?
    ensures var b := Build(cs).value;
      && b.table.Keys == Elems(ClassNames(cs))
      && HoldsClasses(b.table, cs)
      && (b.hasMain <==> exists i :: 0 <= i < |cs| && DeclaresMain(cs[i]))
  {
    BuildUnfold(cs);
    var b0 := Built(RegisterFrom(map[], cs).value, false);
    AddClassesKeys(b0, cs);
    AddClassesHolds(b0, cs);
    AddClassesMain(b0, cs);
  }

  /**
   * A repeated class name is raised before a missing parent, and a missing
   * parent before any member clash; each is the first of its kind in
   * declaration order.
   */
  lemma BuildErrorOrder(cs: seq<ClassDecl>)
    ensures !NoDuplicates(ClassNames(cs)) ==>
      Build(cs).Fail? && Build(cs).diag.Redeclared? && Build(cs).diag.kind == ClassKind
    ensures forall j :: FirstClash(ClassNames(cs), {}, j) ==> Build(cs) == Fail(Redeclared(ClassKind, cs[j].name))
    ensures NoDuplicates(ClassNames(cs)) && !ParentsDeclared(cs) ==>
      Build(cs).Fail? && Build(cs).diag.UndeclaredClass? &&
      exists i :: 0 <= i < |cs| && cs[i].parent == Some(Build(cs).diag.name) && Build(cs).diag.name !in Elems(ClassNames(cs))
    ensures NoDuplicates(ClassNames(cs)) ==> forall j :: FirstMissingParent(cs, Elems(ClassNames(cs)), j) ==>
      Build(cs) == Fail(UndeclaredClass(cs[j].parent.value))
    ensures NoDuplicates(ClassNames(cs)) && ParentsDeclared(cs) ==> forall i :: FirstBadEntry(cs, i) ==>
      Build(cs) == Fail(ClassEntry(cs[i]).diag)
  {
    BuildRegisterStage(cs);
    if NoDuplicates(ClassNames(cs)) {
      BuildFirstParentMissing(cs);
      if !ParentsDeclared(cs) {
        BuildSomeParentMissing(cs);
      } else {
        BuildEntryStage(cs);
      }
    }
  }

  /** The first stage of `BuildErrorOrder`: repeated class names. */
  lemma BuildRegisterStage(cs: seq<ClassDecl>)
    ensures NoDuplicates(ClassNames(cs)) <==> RegisterFrom(map[], cs).Ok?
    ensures NoDuplicates(ClassNames(cs)) ==> RegisterFrom(map[], cs).value.Keys == Elems(ClassNames(cs))
    ensures !NoDuplicates(ClassNames(cs)) ==>
      Build(cs).Fail? && Build(cs).diag.Redeclared? && Build(cs).diag.kind == ClassKind
    ensures forall j :: FirstClash(ClassNames(cs), {}, j) ==> Build(cs) == Fail(Redeclared(ClassKind, cs[j].name))
  {
    var t0: Table := map[];
    assert t0.Keys == {};
    RegisterSpec(t0, cs);
  }

  /** With distinct names, registration succeeds and `Build` goes on to the parent check. */
  lemma RegisterDistinct(cs: seq<ClassDecl>)
    requires NoDuplicates(ClassNames(cs))
    ensures RegisterFrom(map[], cs).Ok?
    ensures RegisterFrom(map[], cs).value.Keys == Elems(ClassNames(cs))
    ensures Build(cs) ==
      match MissingParent(cs, Elems(ClassNames(cs)))
      case Some(p) => Fail(UndeclaredClass(p))
      case None => AddClasses(Built(RegisterFrom(map[], cs).value, false), cs)
  {
    var t0: Table := map[];
    assert t0.Keys == {};
    RegisterSpec(t0, cs);
  }

  /** The second stage of `BuildErrorOrder`: with distinct names, a parent that is not a class is reported. */
  lemma BuildSomeParentMissing(cs: seq<ClassDecl>)
    requires NoDuplicates(ClassNames(cs)) && !ParentsDeclared(cs)
    ensures Build(cs).Fail? && Build(cs).diag.UndeclaredClass?
    ensures exists i :: 0 <= i < |cs| && cs[i].parent == Some(Build(cs).diag.name) && Build(cs).diag.name !in Elems(ClassNames(cs))
  {
    BuildRegisterStage(cs);
    RegisteredParentMissing(cs);
  }

  /** As `BuildSomeParentMissing`, from the outcome of registration rather than from distinct names. */
  lemma RegisteredParentMissing(cs: seq<ClassDecl>)
    requires RegisterFrom(map[], cs).Ok? && RegisterFrom(map[], cs).value.Keys == Elems(ClassNames(cs))
    requires !ParentsDeclared(cs)
    ensures Build(cs).Fail? && Build(cs).diag.UndeclaredClass?
    ensures exists i :: 0 <= i < |cs| && cs[i].parent == Some(Build(cs).diag.name) && Build(cs).diag.name !in Elems(ClassNames(cs))
  {
    ParentMissingReported(cs, Build(cs), AddClasses(Built(RegisterFrom(map[], cs).value, false), cs));
  }

  /** A result that reports the missing parent, when some parent is missing, names a parent of some class that is not a class. */
  lemma ParentMissingReported(cs: seq<ClassDecl>, r: Result<Built>, rest: Result<Built>)
    requires !ParentsDeclared(cs)
    requires r == match MissingParent(cs, Elems(ClassNames(cs)))
      case Some(p) => Fail(UndeclaredClass(p))
      case None => rest
    ensures r.Fail? && r.diag.UndeclaredClass?
    ensures exists i :: 0 <= i < |cs| && cs[i].parent == Some(r.diag.name) && r.diag.name !in Elems(ClassNames(cs))
  {
    MissingParentSome(cs, Elems(ClassNames(cs)));
  }

  /** When some class has a parent outside `names`, pass two reports the parent of such a class. */
  lemma {:induction false} MissingParentSome(cs: seq<ClassDecl>, names: set<string>)
    requires exists i :: 0 <= i < |cs| && cs[i].parent.Some? && cs[i].parent.value !in names
    ensures MissingParent(cs, names).Some? && MissingParent(cs, names).value !in names
    ensures exists i :: 0 <= i < |cs| && cs[i].parent == MissingParent(cs, names)
    decreases |cs|
  {
    if !(cs[0].parent.Some? && cs[0].parent.value !in names) {
      var i :| 0 <= i < |cs| && cs[i].parent.Some? && cs[i].parent.value !in names;
      assert cs[1..][i - 1] == cs[i];
      MissingParentSome(cs[1..], names);
      var k :| 0 <= k < |cs[1..]| && cs[1..][k].parent == MissingParent(cs[1..], names);
      assert cs[k + 1] == cs[1..][k];
    }
  }

  /** The second stage of `BuildErrorOrder`: the first class whose parent is not a class is the one reported. */
  lemma BuildFirstParentMissing(cs: seq<ClassDecl>)
    requires NoDuplicates(ClassNames(cs))
    ensures forall j :: FirstMissingParent(cs, Elems(ClassNames(cs)), j) ==> Build(cs) == Fail(UndeclaredClass(cs[j].parent.value))
  {
    RegisterDistinct(cs);
    MissingParentSpec(cs, Elems(ClassNames(cs)));
  }

  /** The last stage of `BuildErrorOrder`: with distinct names and declared parents, the class entries. */
  lemma BuildEntryStage(cs: seq<ClassDecl>)
    requires NoDuplicates(ClassNames(cs)) && ParentsDeclared(cs)
    ensures forall i :: FirstBadEntry(cs, i) ==> Build(cs) == Fail(ClassEntry(cs[i]).diag)
  {
    RegisterDistinct(cs);
    MissingParentSpec(cs, Elems(ClassNames(cs)));
    AddClassesOk(Built(RegisterFrom(map[], cs).value, false), cs);
  }

  // ---------------------------------------------------------------------
  // The main flag and the entry-point test
  // ---------------------------------------------------------------------

  /** Every method of the class names a return type other than an absent one or a class called `void`. */
  predicate ParsedReturns(c: ClassDecl) {
    forall j :: 0 <= j < |c.members| && c.members[j].MethodMember? ==>
      c.members[j].mdecl.ret != NoType && c.members[j].mdecl.ret != ClassT("void")
  }

  predicate ParsedReturnTypes(cs: seq<ClassDecl>) {
    forall i :: 0 <= i < |cs| ==> ParsedReturns(cs[i])
  }

  lemma {:induction false} KeyInMethodKeys(cname: string, ms: seq<Member>, k: string)
    ensures k in Elems(MethodKeys(cname, ms)) <==> exists j :: 0 <= j < |ms| && !ms[j].AttrMember? && MethodKey(cname, ms[j]) == k
    decreases |ms|
  {
    if |ms| > 0 {
      KeyInMethodKeys(cname, ms[1..], k);
      ElemsAppend(MemberMethodKeys(cname, ms[0]), MethodKeys(cname, ms[1..]));
      assert forall j :: 1 <= j < |ms| ==> ms[j] == ms[1..][j - 1];
      if exists j :: 0 <= j < |ms[1..]| && !ms[1..][j].AttrMember? && MethodKey(cname, ms[1..][j]) == k {
        var j :| 0 <= j < |ms[1..]| && !ms[1..][j].AttrMember? && MethodKey(cname, ms[1..][j]) == k;
        assert ms[j + 1] == ms[1..][j];
      }
    } else {
      assert Elems<string>([]) == {};
    }
  }

  /** A `static void main()` the builder flags is an entry point in its class's entry. */
  lemma MainDeclIsEntry(c: ClassDecl)
    requires ClassEntry(c).Ok? && DeclaresMain(c)
    ensures "main" in ClassEntry(c).value.methods && IsEntry(ClassEntry(c).value.methods["main"])
  {
    ClassEntrySpec(c);
    var j :| 0 <= j < |c.members| && IsMainDecl(c.members[j]);
    assert HoldsMember(ClassEntry(c).value, c.name, c.members[j]);
    VoidNamedIff(Prim(VoidK));
  }

  /** An entry point in a class's entry comes from a `static void main()` the builder flags, when return types are parsed ones. */
  lemma EntryIsMainDecl(c: ClassDecl)
    requires ClassEntry(c).Ok? && ParsedReturns(c)
    requires "main" in ClassEntry(c).value.methods && IsEntry(ClassEntry(c).value.methods["main"])
    ensures DeclaresMain(c)
  {
    var r := ClassEntry(c).value;
    ClassEntrySpec(c);
    KeyInMethodKeys(c.name, c.members, "main");
    var j :| 0 <= j < |c.members| && !c.members[j].AttrMember? && MethodKey(c.name, c.members[j]) == "main";
    var m := c.members[j];
    assert HoldsMember(r, c.name, m);
    assert m.MethodMember?;
    VoidNamedIff(m.mdecl.ret);
    assert IsMainDecl(m);
  }

  /**
   * For programs whose methods all name a parsed return type, the flag the
   * builder sets and the later entry-point test over the table agree.
   */
  lemma MainFlagMatchesEntryPoint(cs: seq<ClassDecl>)
    requires Build(cs).Ok?
    requires ParsedReturnTypes(cs)
    ensures Build(cs).value.hasMain <==> EntryPointExists(Build(cs).value.table)
  {
    BuildResult(cs);
    var t := Build(cs).value.table;
    if Build(cs).value.hasMain {
      MainFlagGivesEntry(cs, t);
    }
    if EntryPointExists(t) {
      EntryGivesMainFlag(cs, t);
    }
  }

  lemma MainFlagGivesEntry(cs: seq<ClassDecl>, t: Table)
    requires HoldsClasses(t, cs)
    requires exists i :: 0 <= i < |cs| && DeclaresMain(cs[i])
    ensures EntryPointExists(t)
  {
    var i :| 0 <= i < |cs| && DeclaresMain(cs[i]);
    MainDeclIsEntry(cs[i]);
    assert t[cs[i].name] == ClassEntry(cs[i]).value;
  }

  lemma EntryGivesMainFlag(cs: seq<ClassDecl>, t: Table)
    requires ParsedReturnTypes(cs)
    requires t.Keys == Elems(ClassNames(cs))
    requires HoldsClasses(t, cs)
    requires EntryPointExists(t)
    ensures exists i :: 0 <= i < |cs| && DeclaresMain(cs[i])
  {
    var c :| c in t && "main" in t[c].methods && IsEntry(t[c].methods["main"]);
    var names := ClassNames(cs);
    assert c in Elems(names);
    var i :| 0 <= i < |names| && names[i] == c;
    assert t[c] == ClassEntry(cs[i]).value;
    EntryIsMainDecl(cs[i]);
  }

  /** The two tests differ on a `main` whose return type is a class called `void`. */
  lemma MainFlagStricterThanEntryPoint()
    ensures var cs := [ClassDecl("A", None, [MethodMember(MethodDecl(true, ClassT("void"), "main", [], Block([], [])))])];
      Build(cs).Ok? && !Build(cs).value.hasMain && EntryPointExists(Build(cs).value.table)
  {
    var m := MethodMember(MethodDecl(true, ClassT("void"), "main", [], Block([], [])));
    var cs := [ClassDecl("A", None, [m])];
    assert ClassNames(cs) == ["A"];
    assert AttrNames(cs[0].members) == [];
    assert MethodKeys("A", cs[0].members) == ["main"];
    BuildOk(cs);
    BuildResult(cs);
    assert !IsMainDecl(m);
    assert !DeclaresMain(cs[0]);
    var t := Build(cs).value.table;
    ClassEntrySpec(cs[0]);
    assert HoldsMember(t["A"], "A", m);
    assert IsEntry(t["A"].methods["main"]);
  }
}
