/**
 * The type model of the OPLang static checker: the values the checker
 * computes for expressions and compares against declared types
 * (src/semantics/static_checker.py, `type_name`, `is_*_type`, `same_type`).
 */
module Types {

  datatype PrimKind = IntK | FloatK | BoolK | StringK | VoidK

  /**
   * Besides the declared types (primitive, array, class, reference), the
   * checker passes around four other values in the same place:
   * `NoType` is Python's `None` (an absent, i.e. void, type), `NilT` is the
   * `nil` literal node that `visitNilLiteral` hands back, `EmptyArrayT` is
   * the empty array literal node that `visitArrayLiteral` hands back, and
   * `ErrorT` is the `ERROR` sentinel that stops errors from cascading.
   */
  datatype Type =
    | Prim(kind: PrimKind)
    | ArrayT(elem: Type, size: nat)
    | ClassT(name: string)
    | RefT(ref: Type)
    | NoType
    | NilT
    | EmptyArrayT
    | ErrorT

  // ---------------------------------------------------------------------
  // Rendering of a type as the checker names it
  // ---------------------------------------------------------------------

  function DigitChar(d: nat): (c: char)
    requires d < 10
    ensures '0' <= c <= '9' && c as int - '0' as int == d
  {
    ('0' as int + d) as char
  }

  /** The number a string of decimal digits denotes, most significant digit first. */
  function DigitsValue(s: string): nat
    requires forall i :: 0 <= i < |s| ==> '0' <= s[i] <= '9'
    decreases |s|
  {
    if |s| == 0 then 0 else DigitsValue(s[..|s| - 1]) * 10 + (s[|s| - 1] as int - '0' as int)
  }

  /**
   * Decimal rendering of an array size, as Python's f-string gives it: the
   * digits denote `n`, with no leading zero.
   */
  function NatToString(n: nat): (s: string)
    ensures |s| > 0
    ensures forall i :: 0 <= i < |s| ==> '0' <= s[i] <= '9'
    ensures DigitsValue(s) == n
    ensures s[0] == '0' ==> s == "0"
    decreases n
  {
    if n < 10 then [DigitChar(n)]
    else
      var s := NatToString(n / 10) + [DigitChar(n % 10)];
      assert s[..|s| - 1] == NatToString(n / 10);
      s
  }

  function PrimName(k: PrimKind): string {
    match k
    case IntK => "int"
    case FloatK => "float"
    case BoolK => "boolean"
    case StringK => "string"
    case VoidK => "void"
  }

  /**
   * `type_name`: `void` for an absent type, the class name for a class,
   * `elem[size]` for an array and `t&` for a reference. The two AST nodes
   * that stand in for types are rendered by the node classes themselves,
   * which are not part of this model; the strings below stand for them.
   */
  function TypeName(t: Type): string {
    match t
    case Prim(k) => PrimName(k)
    case ArrayT(e, n) => TypeName(e) + "[" + NatToString(n) + "]"
    case ClassT(n) => n
    case RefT(r) => TypeName(r) + "&"
    case NoType => "void"
    case NilT => "NilLiteral(nil)"
    case EmptyArrayT => "ArrayLiteral({})"
    case ErrorT => "<error>"
  }

  function LowerChar(c: char): char {
    if 'A' <= c <= 'Z' then (c as int + 32) as char else c
  }

  /** Python's `str.lower()` restricted to ASCII letters. */
  function Lower(s: string): (r: string)
    ensures |r| == |s|
    ensures forall i :: 0 <= i < |s| ==> r[i] == LowerChar(s[i])
  {
    if |s| == 0 then [] else [LowerChar(s[0])] + Lower(s[1..])
  }

  // ---------------------------------------------------------------------
  // Classifiers (`is_int_type`, `is_float_type`, ...)
  // ---------------------------------------------------------------------

  predicate IsInt(t: Type) { t == Prim(IntK) }
  predicate IsFloat(t: Type) { t == Prim(FloatK) }
  predicate IsString(t: Type) { t == Prim(StringK) }
  predicate IsNumeric(t: Type) { IsInt(t) || IsFloat(t) }
  predicate IsArray(t: Type) { t.ArrayT? }
  predicate IsClass(t: Type) { t.ClassT? }

  /**
   * `is_bool_type` as written: Python reads `A and B or C` as
   * `(A and B) or C`, so the test `type_name(t).lower() == "bool"` is applied
   * to every type, primitive or not.
   */
  predicate IsBoolAsWritten(t: Type) {
    (t.Prim? && Lower(TypeName(t)) == "boolean") || Lower(TypeName(t)) == "bool"
  }

  /** `is_bool_type` as evidently intended: only the primitive boolean type. */
  predicate IsBool(t: Type) { t == Prim(BoolK) }

  /** The test `type_name(t) != "void"` made by the method-call statement. */
  predicate IsVoidNamed(t: Type) { TypeName(t) == "void" }

  // ---------------------------------------------------------------------
  // Structural equality (`same_type`)
  // ---------------------------------------------------------------------

  /** A type that nowhere along its array spine is the error sentinel. */
  predicate ErrorFree(t: Type) {
    match t
    case ErrorT => false
    case ArrayT(e, _) => ErrorFree(e)
    case _ => true
  }

  /**
   * `same_type` with the array element read from the one element field the
   * rest of the checker uses. Two reference types are compared by the types
   * they refer to, as values, not through their rendered names.
   */
  predicate SameType(a: Type, b: Type) {
    if a == ErrorT || b == ErrorT then false
    else match (a, b)
      case (NoType, NoType) => true
      case (Prim(p), Prim(q)) => p == q
      case (ClassT(x), ClassT(y)) => x == y
      case (ArrayT(e1, n1), ArrayT(e2, n2)) => SameType(e1, e2) && n1 == n2
      case (RefT(x), RefT(y)) => x == y
      case (NilT, NilT) => true
      case (EmptyArrayT, EmptyArrayT) => true
      case _ => false
  }

  /**
   * `same_type` as written: the element types of two arrays are read from
   * attributes (`eleType`, `elementType`) that array type nodes do not
   * carry, so both come back as `None`, and `same_type(None, None)` holds:
   * only the sizes are compared.
   */
  predicate SameTypeAsWritten(a: Type, b: Type) {
    if a == ErrorT || b == ErrorT then false
    else match (a, b)
      case (NoType, NoType) => true
      case (Prim(p), Prim(q)) => p == q
      case (ClassT(x), ClassT(y)) => x == y
      case (ArrayT(_, n1), ArrayT(_, n2)) => SameType(NoType, NoType) && n1 == n2
      case (RefT(x), RefT(y)) => x == y
      case (NilT, NilT) => true
      case (EmptyArrayT, EmptyArrayT) => true
      case _ => false
  }

  // ---------------------------------------------------------------------
  // Lemmas
  // ---------------------------------------------------------------------

  /** `same_type` is structural equality on every type free of the error sentinel. */
  lemma {:induction false} SameTypeIsEquality(a: Type, b: Type)
    ensures SameType(a, b) <==> a == b && ErrorFree(a)
  {
    match (a, b)
    case (ArrayT(e1, _), ArrayT(e2, _)) => SameTypeIsEquality(e1, e2);
    case _ =>
  }

  /** Consequently `same_type` is symmetric and transitive. */
  lemma SameTypeSymmetricTransitive(a: Type, b: Type, c: Type)
    ensures SameType(a, b) ==> SameType(b, a)
    ensures SameType(a, b) && SameType(b, c) ==> SameType(a, c)
  {
    SameTypeIsEquality(a, b);
    SameTypeIsEquality(b, a);
    SameTypeIsEquality(b, c);
    SameTypeIsEquality(a, c);
  }

  /** As written, two arrays of the same size are the same type whatever their elements. */
  lemma SameTypeAsWrittenIgnoresElements(e1: Type, e2: Type, n: nat)
    ensures SameTypeAsWritten(ArrayT(e1, n), ArrayT(e2, n))
    ensures e1 != e2 ==> !SameType(ArrayT(e1, n), ArrayT(e2, n))
  {
    SameTypeIsEquality(ArrayT(e1, n), ArrayT(e2, n));
  }

  lemma LowerLastChar(s: string)
    requires |s| > 0
    ensures Lower(s)[|s| - 1] == LowerChar(s[|s| - 1])
  {
  }

  /** Lower-casing leaves a string without upper-case letters unchanged. */
  lemma LowerOfLowercase(s: string)
    requires forall i :: 0 <= i < |s| ==> !('A' <= s[i] <= 'Z')
    ensures Lower(s) == s
  {
  }

  /** The names that end in a bracket or an ampersand are never `void`, `bool` or `boolean`. */
  lemma {:induction false} TypeNameShape(t: Type)
    ensures t.ArrayT? ==> |TypeName(t)| > 0 && TypeName(t)[|TypeName(t)| - 1] == ']'
    ensures t.RefT? ==> |TypeName(t)| > 0 && TypeName(t)[|TypeName(t)| - 1] == '&'
  {
  }

  /** The names `type_name` gives that read as `void`. */
  lemma VoidNamedIff(t: Type)
    ensures IsVoidNamed(t) <==> t == NoType || t == Prim(VoidK) || t == ClassT("void")
  {
    TypeNameShape(t);
    if t.Prim? {
      assert PrimName(t.kind) == "void" <==> t.kind == VoidK;
    }
  }

  /**
   * What `is_bool_type` accepts as written: the primitive boolean type, and
   * also every class whose name lower-cases to `bool`.
   */
  lemma BoolAsWrittenIff(t: Type)
    ensures IsBoolAsWritten(t) <==> IsBool(t) || (t.ClassT? && Lower(t.name) == "bool")
  {
    match t
    case ArrayT(_, _) => SuffixedNotBool(t);
    case RefT(_) => SuffixedNotBool(t);
    case Prim(k) => PrimBoolAsWritten(k);
    case NoType => assert Lower("void")[0] == 'v';
    case _ =>
  }

  /** Array and reference types fail the boolean test as written: their names end in `]` or `&`. */
  lemma SuffixedNotBool(t: Type)
    requires t.ArrayT? || t.RefT?
    ensures !IsBoolAsWritten(t)
  {
    var n := TypeName(t);
    TypeNameShape(t);
    LowerLastChar(n);
    assert Lower(n)[|n| - 1] != 'l';
  }

  /** Among the primitive types only `boolean` passes the boolean test as written. */
  lemma PrimBoolAsWritten(k: PrimKind)
    ensures IsBoolAsWritten(Prim(k)) <==> k == BoolK
  {
    if k == BoolK {
      LowerOfLowercase("boolean");
    } else if k == VoidK {
      assert Lower("void")[0] == 'v';
    }
  }

  /** A class named `Bool` passes the boolean test as written, and not as intended. */
  lemma BoolClassAcceptedAsWritten()
    ensures IsBoolAsWritten(ClassT("Bool"))
    ensures !IsBool(ClassT("Bool"))
  {
    assert Lower("Bool") == "bool";
  }
}
