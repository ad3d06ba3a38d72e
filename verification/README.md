# OPLang static checker, modelled in Dafny

This project models the core of the static checker of the OPLang compiler,
`StaticChecker` in `src/semantics/static_checker.py`. The checker makes two passes
over a parsed program:

1. It builds a **class table**. Every class is registered with its parent
   and its members: attributes, methods, constructors, and destructors stored
   as `~Name`. A second declaration raises `Redeclared`, and an unknown parent
   raises `UndeclaredClass`. A flag records whether a `static void main()` was seen.
2. It walks every class body with a stack of **scopes** and checks the types
   of expressions and statements. Most errors are *emitted* (appended to the
   error list, with checking continuing). Some are *raised* and stop the run
   at once.

The error sentinel `ERROR` exists so that one error is reported once.

The model is split by concern:

| file | module | what it holds |
|---|---|---|
| `types.dfy` | `Types` | the type values, `type_name`, the `is_*` classifiers and `same_type` |
| `syntax.dfy` | `Syntax`, `Diagnostics` | the syntax tree and the diagnostics |
| `class_table.dfy` | `ClassTable` | the class table's entries, parent-chain walks, attribute and method lookup, `is_subtype` and `compatible` |
| `operators.dfy` | `Operators` | binary and unary operator typing |
| `constant_expr.dfy` | `ConstantExpr` | `_contains_non_constant_expr` |
| `expressions.dfy` | `Expressions` | expression typing, see below |
| `statements.dfy` | `Statements` | the outcome of each statement visitor, as a reference function |
| `builder.dfy` | `Builder` | `_build_class_table` as a function, with its specification lemmas |
| `checker.dfy` | `Checker` | the `StaticChecker` class itself, see below |

Expression typing is pure: every visitor returns either `Done(type, emitted)`
or `Raised(emitted, diagnostic)`.

In `checker.dfy`, the `StaticChecker` class has the object's mutable fields:
the class table, the main flag, the scope stack, the current class, method
and return type, the loop depth and the error list. Its methods update
those fields in place. The visitors of expressions and of assignment, `if`,
`for`, `return`, call, variable and attribute statements are each proved
against the matching reference function in `Statements` or `Expressions`.
The visitors that nest statements (blocks, methods, constructors,
destructors, class bodies and the program) state only that no error is
dropped and that the state they change is restored. The loops are proved
by invariants against their reference functions: the postfix chain,
variable declarations, attribute declarations, parameter lists, method
lookup and the class-table passes.

The `check` entry point differs from the prose description of the language
in two places. The model follows the code in both:

- **`IO` injection.** The built-in `IO` class is described as always present.
  In the code, `check` builds the class table before `visitProgram`.
  `visitProgram` adds `IO` only when the table is still empty, which happens
  only for a program that declares no classes. So, unless the program
  declares a class `IO` of its own, every call through `io` in a program
  with classes reports `UndeclaredMethod`. When the built-in `IO` is present,
  its methods are static, so a call through the instance `io` reports
  `IllegalMemberAccess`. This is stated by `Checker.IOInjectedOnlyWithoutClasses`
  and `Checker.IOCallThroughInstance`.
- **The entry point.** The main flag set by `_build_class_table` requires a
  return type that is parsed as the primitive `void`. `_check_entry_point`
  also accepts a class type named `void` and an absent type.
  `check` uses only the flag. `Builder.MainFlagStricterThanEntryPoint` shows
  a program on which the two tests disagree.

## Model

| member | source | states |
|---|---|---|
| Types.NatToString | src/semantics/static_checker.py:186-218 | an array size is rendered as decimal digits, with no leading zero, whose value is the size |
| Types.Lower | src/semantics/static_checker.py:220-230 | lower-casing keeps the length and lower-cases each ASCII letter in place |
| Types.SameTypeIsEquality | src/semantics/static_checker.py:238-258 | `same_type` (with array elements compared) holds exactly for two equal types free of `ERROR` |
| Types.SameTypeSymmetricTransitive | src/semantics/static_checker.py:238-258 | `same_type` is symmetric and transitive |
| Types.SameTypeAsWrittenIgnoresElements | src/semantics/static_checker.py:250-256 | as written, two arrays of equal size are the same type even when their element types differ, which the intended test rejects |
| Types.TypeNameShape | src/semantics/static_checker.py:186-218 | an array type's name ends in `]` and a reference type's name in `&` |
| Types.VoidNamedIff | src/semantics/static_checker.py:186-218 | the types whose name reads `void` are exactly the absent type, primitive `void` and a class named `void` |
| Types.BoolAsWrittenIff | src/semantics/static_checker.py:226-227 | `is_bool_type` as written accepts exactly primitive `boolean` and every class whose name lower-cases to `bool` |
| Types.SuffixedNotBool | src/semantics/static_checker.py:226-227 | array and reference types never pass `is_bool_type` as written |
| Types.PrimBoolAsWritten | src/semantics/static_checker.py:226-227 | among primitive types only `boolean` passes `is_bool_type` as written |
| Types.BoolClassAcceptedAsWritten | src/semantics/static_checker.py:226-227 | a class named `Bool` passes `is_bool_type` as written but is not a boolean |
| ClassTable.Chain | src/semantics/static_checker.py:260-272 | a parent walk starts at the given class and visits at most one name per step |
| ClassTable.ChainPrefix | src/semantics/static_checker.py:260-272 | a shorter walk visits a prefix of what a longer one visits |
| ClassTable.CompleteStable | src/semantics/static_checker.py:260-272 | once a walk reaches a root, more steps visit nothing new |
| ClassTable.SubtypeBasics | src/semantics/static_checker.py:260-272 | a class is a subtype of itself and of its parent; only class types are subtypes |
| ClassTable.SubtypeTransitive | src/semantics/static_checker.py:260-272 | on an acyclic table, subtyping is transitive |
| ClassTable.CompatibleIff | src/semantics/static_checker.py:274-288 | `compatible` holds exactly when: either side is `ERROR`; the types are equal; an int meets a float slot; or the expected class is on the actual class's parent chain |
| ClassTable.CoercionOneWay | src/semantics/static_checker.py:283-285 | int widens to float and not the other way |
| ClassTable.CompatibleReflexive | src/semantics/static_checker.py:274-288 | every type free of `ERROR` is compatible with itself |
| ClassTable.CompatibleTransitive | src/semantics/static_checker.py:274-288 | on an acyclic table, compatibility composes through a middle type that is not `ERROR` |
| ClassTable.FirstAttrOnNearest | src/semantics/static_checker.py:161-172 | the reference search finds nothing exactly when no class on the chain declares the attribute, and otherwise the declaration in the nearest class that does |
| ClassTable.FirstMethodOnNearest | src/semantics/static_checker.py:174-184 | the reference search finds nothing exactly when no class on the chain declares the method, and otherwise the declaration in the nearest class that does |
| ClassTable.FindAttrFromNearest | src/semantics/static_checker.py:161-172 | the bounded upward attribute walk returns what the reference search over the walked chain returns |
| ClassTable.FindAttrIff | src/semantics/static_checker.py:161-172 | attribute lookup is empty exactly when no class on the parent chain declares the name; otherwise it is the nearest declaration, so a class's own hides its ancestors' |
| ClassTable.VisitedChainSilent | src/semantics/static_checker.py:174-184 | from a class the method walk has already passed, the chain declares no such method |
| ClassTable.FindMethodFromNearest | src/semantics/static_checker.py:174-184 | the visited-set walk, given more steps than unvisited classes, returns what the reference search over the chain returns |
| ClassTable.FindMethodIff | src/semantics/static_checker.py:174-184 | method lookup is empty exactly when no class on the parent chain declares the name; otherwise it is the nearest declaration, so a class's own hides its ancestors' |
| ClassTable.EntryVoidForms | src/semantics/static_checker.py:448-459 | the entry-point test accepts exactly a static, parameterless method whose return type reads `void` |
| Operators.ErrorPropagates | src/semantics/static_checker.py:1014-1015 | an `ERROR` operand makes a binary or unary expression `ERROR` with no new report |
| Operators.BinaryResultPrimitive | src/semantics/static_checker.py:1010-1048 | a binary operator yields `ERROR` (exactly when an operand is `ERROR`) or a primitive int, float, boolean or string |
| Operators.ArithmeticTyping | src/semantics/static_checker.py:1017-1023 | int with int gives int; any other pair of numbers gives float; anything else is a mismatch |
| Operators.ComparisonTyping | src/semantics/static_checker.py:1025-1029 | comparisons take two numbers and give boolean, else a mismatch |
| Operators.EqualityTyping | src/semantics/static_checker.py:1031-1037 | `==`/`!=` accept equal types, an int against a float, or `nil` against an object or array, and give boolean |
| Operators.EqualitySymmetric | src/semantics/static_checker.py:1031-1037 | equality typing does not depend on operand order |
| Operators.NumericSymmetric | src/semantics/static_checker.py:1017-1029 | arithmetic and comparison typing do not depend on operand order |
| Operators.LogicalAndConcatTyping | src/semantics/static_checker.py:1039-1048 | `&&`/`\|\|` need two booleans; `^` needs two strings and gives string |
| Operators.UnaryTyping | src/semantics/static_checker.py:1051-1064 | `+`/`-` keep a numeric type; `!` maps boolean to boolean; anything else is a mismatch |
| ConstantExpr.NonConstantIffLeaf | src/semantics/static_checker.py:104-121 | an expression is non-constant exactly when one of its leaves is not a primitive literal |
| ConstantExpr.NonConstantIffLeafAll | src/semantics/static_checker.py:104-121 | a list has a non-constant element exactly when one of its leaves is not a primitive literal |
| ConstantExpr.ConstantCases | src/semantics/static_checker.py:104-121 | operators and array literals over constants are constant; `nil`, names, parentheses and `this` are not |
| Expressions.UnifyElements | src/semantics/static_checker.py:679-694 | the element loop of an array literal computes the reference unification of the element types |
| Expressions.LookupInnermost | src/semantics/static_checker.py:154-159 | lookup fails exactly when no scope binds the name; otherwise it returns the innermost binding |
| Expressions.IdentifierResolution | src/semantics/static_checker.py:633-646 | a name has the type of its innermost binding in any scope, else of the current class's own attribute, else it names the class; it raises `UndeclaredIdentifier` exactly when it is none of these; nothing is emitted |
| Expressions.UnifySound | src/semantics/static_checker.py:679-694 | a unified element type fits the first element and is a common type of all elements |
| Expressions.UnifyComplete | src/semantics/static_checker.py:679-694 | whenever a common type exists, unification succeeds |
| Expressions.UnifyNil | src/semantics/static_checker.py:679-694 | elements that are all `nil` unify to `nil` |
| Expressions.ArrayLiteralTyping | src/semantics/static_checker.py:673-694 | a non-empty literal is an array of its length over the common element type (over `nil` when every element is `nil`), emitting only its elements' reports; it is `IllegalArrayLiteral` exactly when no common type exists |
| Expressions.PostfixMemberRule | src/semantics/static_checker.py:1100-1115 | `.m` on a non-object is a mismatch; on an object, no declaration on the chain is `UndeclaredAttribute(m)`, a static first declaration found is `IllegalMemberAccess`, and an instance one gives its type with no report |
| Expressions.PostfixIndexRule | src/semantics/static_checker.py:1117-1125 | a raise in the index is passed on; `[i]` gives the element type for an array indexed by an int, and is a mismatch otherwise |
| Expressions.PostfixCallRule | src/semantics/static_checker.py:1127-1162 | `.f(args)` on a non-object is a mismatch; on an object, no `f` on the chain is `UndeclaredMethod(f)`, a static first declaration found is `IllegalMemberAccess`, one whose parameters do not take the arguments is a mismatch, and otherwise the call has its return type |
| Expressions.ArgsAgainstAccepts | src/semantics/static_checker.py:785-816 | the arguments pass exactly when they type without a raise and each fits its parameter, emitting only their own reports |
| Expressions.ArgsAgainstFirstMisfit | src/semantics/static_checker.py:785-816 | at the first argument that does not fit, the check stops with one mismatch after the reports of the arguments up to it |
| Expressions.ObjectCreationRule | src/semantics/static_checker.py:785-816 | `new C(args)`: an unknown class is `UndeclaredClass`; without a constructor only no arguments type; a wrong arity is a mismatch; a matching arity creates the object exactly when every argument fits, else the first misfit is a mismatch |
| Expressions.LegacyIndexNeverTyped | src/semantics/static_checker.py:697-712 | the legacy array-access visitor never yields a real type, even for an int array indexed by an int |
| Expressions.ErrorIsReported | src/semantics/static_checker.py:633-877 | in a well-formed environment, an expression typed `ERROR` always emitted a diagnostic, and any other type is free of `ERROR` |
| Expressions.ErrorIsReportedAll | src/semantics/static_checker.py:673-694 | the same holds for every element of an argument or element list |
| Expressions.ArgsRejectionReported | src/semantics/static_checker.py:1127-1162 | rejected arguments always emit a diagnostic |
| Expressions.PostfixReported | src/semantics/static_checker.py:1092-1164 | a postfix chain on a real type ends in `ERROR` only after a report |
| Builder.FirstClashExists | src/semantics/static_checker.py:389-446 | a list of names is not fresh exactly when some position is the first to repeat a used or earlier name |
| Builder.RegisterSpec | src/semantics/static_checker.py:389-396 | registration succeeds exactly when the class names are distinct; otherwise it raises `Redeclared(Class, n)` for the first repeated name `n`; the table's keys are the names |
| Builder.MissingParentSpec | src/semantics/static_checker.py:399-402 | the parent check finds nothing exactly when every named parent is declared, and otherwise the parent of the first class, in declaration order, whose parent is undeclared |
| Builder.AttrVarsSpec | src/semantics/static_checker.py:405-420 | an attribute declaration enters each name, keeping older entries; it raises `Redeclared(Attribute, n)` exactly on a repeated name, `n` the first one |
| Builder.AttrVarsKeys | src/semantics/static_checker.py:405-420 | read over namespaced keys, the attribute pass adds exactly the attributes' keys, or raises on the first key already present |
| Builder.AddMemberOk | src/semantics/static_checker.py:405-446 | a member enters exactly when its names are fresh in their namespaces, else `Redeclared` names the first clashing name with its namespace |
| Builder.AddMemberResult | src/semantics/static_checker.py:405-446 | an entered member keeps older entries, holds the member, and adds exactly its names |
| Builder.MembersOk | src/semantics/static_checker.py:405-446 | all members enter exactly when no attribute name and no method key repeats; otherwise `Redeclared` names the first repeat, in declaration order, with its namespace |
| Builder.MembersResult | src/semantics/static_checker.py:405-446 | after all members, older entries are kept and every member is held |
| Builder.MembersKeys | src/semantics/static_checker.py:405-446 | after all members, the keys are the old keys plus the members' names |
| Builder.ClassEntrySpec | src/semantics/static_checker.py:405-446 | a class entry is built exactly when its members are fresh, holding its parent and exactly its members' names; otherwise the first repeated name is raised |
| Builder.AddClassesOk | src/semantics/static_checker.py:405-446 | the member pass succeeds exactly when every class's entry does, and otherwise raises the failure of the first class whose entry fails |
| Builder.AddClassesKeys | src/semantics/static_checker.py:405-446 | the member pass fills exactly the declared classes and leaves the other entries alone |
| Builder.AddClassesHolds | src/semantics/static_checker.py:405-446 | after the member pass, every declared class holds its members |
| Builder.AddClassesMain | src/semantics/static_checker.py:433-435 | the main flag is set exactly when some class declares `static void main()` |
| Builder.BuildOk | src/semantics/static_checker.py:382-446 | the table is built exactly when names are distinct, parents are declared and members are fresh |
| Builder.BuildResult | src/semantics/static_checker.py:382-446 | a built table has exactly the declared classes, each holding its members, and the flag matches a declared main |
| Builder.BuildErrorOrder | src/semantics/static_checker.py:382-446 | the first repeated class name is raised first; with distinct names, the first class's undeclared parent; with declared parents, the first failing class entry |
| Builder.KeyInMethodKeys | src/semantics/static_checker.py:405-446 | a method key is present exactly when a method, constructor or destructor produces it |
| Builder.MainDeclIsEntry | src/semantics/static_checker.py:433-459 | a declared `static void main()` passes the entry-point test |
| Builder.EntryIsMainDecl | src/semantics/static_checker.py:433-459 | with parsed return types, an entry that passes the test comes from a declared `static void main()` |
| Builder.MainFlagMatchesEntryPoint | src/semantics/static_checker.py:433-459 | with parsed return types, the main flag agrees with `_check_entry_point` |
| Builder.MainFlagGivesEntry | src/semantics/static_checker.py:433-459 | a declared main makes the entry-point test pass on a table that holds the classes |
| Builder.EntryGivesMainFlag | src/semantics/static_checker.py:433-459 | with parsed return types, a passing entry-point test comes from a declared main |
| Builder.MainFlagStricterThanEntryPoint | src/semantics/static_checker.py:433-459 | a `main` returning a class named `void` passes the entry-point test but does not set the flag |
| Statements.WithOpenScope | src/semantics/static_checker.py:137-138 | a declaration first opens a scope when there is none, and otherwise keeps the stack |
| Statements.AttrDeclFromOutcome | src/semantics/static_checker.py:524-545 | the attribute loop from any position, with any log so far, equals that log followed by the outcome of the rest |
| Statements.VarDeclFromRun | src/semantics/static_checker.py:606-626 | the variable loop from any position equals the reference run of the remaining variables after the log so far |
| Statements.VarDeclKeepsOuter | src/semantics/static_checker.py:606-626 | a declaration changes only the innermost scope |
| Statements.DeclareThenLookup | src/semantics/static_checker.py:135-159 | a declaration fails exactly on a name of the innermost scope; otherwise it binds only that name and changes only the innermost scope |
| Statements.ShadowingAllowed | src/semantics/static_checker.py:135-143 | a name of an outer scope may be declared again in an inner scope and then resolves to the new binding |
| Statements.AssignConstantRule | src/semantics/static_checker.py:880-926 | assigning a name emits `CannotAssignToConstant` exactly when it is a final local, or a final attribute outside the constructor |
| Statements.AssignUndeclaredRule | src/semantics/static_checker.py:880-926 | assigning a name that is neither local nor an attribute emits exactly `UndeclaredIdentifier` after the right side's reports |
| Statements.AssignTypeRule | src/semantics/static_checker.py:880-926 | assigning to a postfix target emits a mismatch exactly when the right side is not compatible; `ERROR` on either side emits nothing new |
| Statements.AssignIdTypeRule | src/semantics/static_checker.py:880-926 | a named target is checked against the local it resolves to, else against the attribute found on the class chain: the constant report if any, then a mismatch exactly when the right side is not compatible |
| Statements.IfConditionRule | src/semantics/static_checker.py:929-944 | the condition is accepted exactly when it is boolean; any other type but `ERROR` emits a mismatch |
| Statements.LoopVarRule | src/semantics/static_checker.py:947-976 | an undeclared loop variable is bound as an int; a declared one is accepted exactly when it is an int |
| Statements.BoundsRule | src/semantics/static_checker.py:947-976 | the loop bounds emit nothing beyond their own reports exactly when both are int; `ERROR` is not exempt |
| Statements.ReturnRule | src/semantics/static_checker.py:987-1007 | outside a method nothing is checked; `nil` needs a class or array; a value must be compatible with the return type; a bare return fits exactly a void type |
| Statements.InvokeRule | src/semantics/static_checker.py:1167-1170 | a call statement emits nothing new exactly when its type is void or `ERROR` |
| Statements.InitRule | src/semantics/static_checker.py:606-626 | an initialiser is accepted exactly when it is compatible (and constant for a final); otherwise it raises `IllegalConstantExpression` or the matching mismatch |
| Statements.ConstantInitAccepted | src/semantics/static_checker.py:606-626 | a compatible initialiser built from primitive literals is accepted for a constant |
| Statements.AttrInitRule | src/semantics/static_checker.py:524-545 | a constant attribute emits `IllegalConstantExpression` and then the mismatch as they apply; a variable one emits nothing new exactly when compatible |
| Statements.AttrDeclWithoutInits | src/semantics/static_checker.py:524-545 | attributes without initialisers emit nothing |
| Statements.ParamsFromSpec | src/semantics/static_checker.py:590-604 | parameters emit nothing exactly when their names are fresh, bind each name as final of its type, and keep older bindings |
| Statements.VarDeclWithoutInits | src/semantics/static_checker.py:606-626 | variables without initialisers are declared exactly when their names are fresh in the innermost scope, else `Redeclared(Variable, n)` is raised for the first repeated name `n`, with nothing emitted |
| Statements.VarDeclBinds | src/semantics/static_checker.py:606-626 | after a declaration each variable resolves to its declared type and finality, and other names are unchanged |
| Statements.BareReturnInVoidMethod | src/semantics/static_checker.py:1005-1007 | as written, a bare `return;` in a `void` method is a mismatch; the corrected rule accepts it |
| Checker.StaticChecker.constructor | src/semantics/static_checker.py:77-98 | a new checker has an empty table, no scopes, no current class or method, depth 0 and no errors |
| Checker.StaticChecker.Emit | src/semantics/static_checker.py:123-126 | emitting appends the diagnostic |
| Checker.StaticChecker.EnterScope | src/semantics/static_checker.py:128-129 | pushes an empty scope |
| Checker.StaticChecker.ExitScope | src/semantics/static_checker.py:131-133 | pops the innermost scope when there is one |
| Checker.StaticChecker.DeclareLocal | src/semantics/static_checker.py:135-143 | the scope stack becomes the reference declaration, or `Redeclared(Variable)` is raised with the stack unchanged |
| Checker.StaticChecker.DeclareParam | src/semantics/static_checker.py:145-152 | binds the parameter as final, or emits `Redeclared(Parameter)` and leaves the scope unchanged |
| Checker.StaticChecker.DeclareParams | src/semantics/static_checker.py:553-557 | the parameter loop leaves the innermost scope and the errors equal to the reference parameter pass |
| Checker.StaticChecker.Lookup | src/semantics/static_checker.py:154-159 | the loop over the reversed stack returns the reference lookup |
| Checker.StaticChecker.LookupInClassAttrs | src/semantics/static_checker.py:161-172 | the chain loop returns the reference attribute lookup |
| Checker.StaticChecker.LookupMethod | src/semantics/static_checker.py:174-184 | the visited-set loop returns the reference method lookup |
| Checker.StaticChecker.IsSubtype | src/semantics/static_checker.py:260-272 | the parent loop decides the reference subtype relation |
| Checker.StaticChecker.BuildClassTable | src/semantics/static_checker.py:382-446 | the loops raise exactly the reference builder's error, or leave its table and main flag |
| Checker.StaticChecker.VisitExpr | src/semantics/static_checker.py:633-877 | appends exactly the reference typing's reports and returns its type or its raise |
| Checker.StaticChecker.VisitPostfix | src/semantics/static_checker.py:1092-1164 | appends exactly the reference postfix typing's reports and returns its type or its raise |
| Checker.StaticChecker.VisitOps | src/semantics/static_checker.py:1099-1164 | the loop over the postfix operators agrees with the reference chain |
| Checker.StaticChecker.VisitStmt | src/semantics/static_checker.py:1071-1079 | never drops an error; a statement that does not raise restores the scopes and loop depth |
| Checker.StaticChecker.VisitBlock | src/semantics/static_checker.py:1071-1079 | a block runs in its own scope and, when nothing is raised, leaves the scopes and loop depth as they were |
| Checker.StaticChecker.VisitAssign | src/semantics/static_checker.py:880-926 | appends exactly the reference assignment outcome's reports, and raises what it raises |
| Checker.StaticChecker.VisitTarget | src/semantics/static_checker.py:883-926 | checks the target against the right side's type as the reference does |
| Checker.StaticChecker.VisitIdTarget | src/semantics/static_checker.py:886-926 | a name target appends exactly the reference reports |
| Checker.StaticChecker.VisitPostfixTarget | src/semantics/static_checker.py:917-926 | a postfix target appends exactly the reference reports, and raises what it raises |
| Checker.StaticChecker.VisitIf | src/semantics/static_checker.py:929-944 | reports the condition as the reference does; a raise in the condition is passed on; a rejected condition skips both branches |
| Checker.StaticChecker.VisitFor | src/semantics/static_checker.py:947-976 | reports the loop variable and bounds as the reference does, and passes on a raise in the bounds |
| Checker.StaticChecker.VisitLoopVar | src/semantics/static_checker.py:951-965 | binds or checks the loop variable in the fresh scope as the reference does |
| Checker.StaticChecker.VisitBounds | src/semantics/static_checker.py:967-972 | appends exactly the reference bounds outcome's reports, and raises what it raises |
| Checker.StaticChecker.VisitStop | src/semantics/static_checker.py:968-972 | types the upper bound and reports as the reference does |
| Checker.StaticChecker.VisitJump | src/semantics/static_checker.py:978-984 | `break`/`continue` outside a loop emit `MustInLoop`, and inside one nothing |
| Checker.StaticChecker.VisitReturn | src/semantics/static_checker.py:987-1007 | appends exactly the (corrected) reference return outcome's reports |
| Checker.StaticChecker.VisitInvoke | src/semantics/static_checker.py:1167-1170 | appends exactly the reference call-statement outcome's reports |
| Checker.StaticChecker.VisitVarDecl | src/semantics/static_checker.py:606-626 | the variable loop leaves the scopes and errors of the reference run and raises what it raises |
| Checker.StaticChecker.DeclareVar | src/semantics/static_checker.py:611-626 | one variable is declared and initialised as the reference step says |
| Checker.StaticChecker.VisitAttrDecl | src/semantics/static_checker.py:524-545 | the attribute loop appends exactly the reference outcome's reports |
| Checker.StaticChecker.VisitVarInit | src/semantics/static_checker.py:617-626 | a variable initialiser is reported or raised as the reference does |
| Checker.StaticChecker.VisitAttrInit | src/semantics/static_checker.py:530-545 | an attribute initialiser is reported as the reference does |
| Checker.StaticChecker.VisitMethodDecl | src/semantics/static_checker.py:547-562 | reports the parameters as the reference does, then restores the scopes, depth, method and return type |
| Checker.StaticChecker.VisitCtor | src/semantics/static_checker.py:564-579 | like a method returning the class; restores the state afterwards |
| Checker.StaticChecker.VisitDtor | src/semantics/static_checker.py:581-588 | a void body in its own scope; restores the state afterwards |
| Checker.StaticChecker.VisitMember | src/semantics/static_checker.py:517-520 | sends a member to its visitor, never dropping an error |
| Checker.StaticChecker.VisitClassDecl | src/semantics/static_checker.py:510-522 | visits the members in a scope binding `this`, then clears the current class |
| Checker.StaticChecker.VisitProgram | src/semantics/static_checker.py:482-508 | on an empty table, builds it and adds `IO` unless declared; a table already present is kept |
| Checker.StaticChecker.Check | src/semantics/static_checker.py:63-75 | no program gives `NoEntryPoint`; a builder error is raised; otherwise the visit's reports are followed by `NoEntryPoint` exactly when no main was flagged |
| Checker.BuildKeys | src/semantics/static_checker.py:389-396 | the built table's keys are the declared class names |
| Checker.IOInjectedOnlyWithoutClasses | src/semantics/static_checker.py:486-499 | after `check` builds the table, the built-in `IO` is added exactly for a program with no classes; otherwise the table holds only the declared classes, so `IO` is there only when the program declares it |
| Checker.DeclaredTableNonEmpty | src/semantics/static_checker.py:389-396 | the built table is empty exactly when no class is declared |
| Checker.IOCallThroughInstance | src/semantics/static_checker.py:501-502 | a call through `io` reports `UndeclaredMethod` when no class `IO` is in the table, and `IllegalMemberAccess` for a method of the built-in `IO` |

## Left out

- The visitor dispatch by reflection (`visit`, `safe_visit`, `_call_camel`) and the snake_case aliases are not modelled. The model calls each visitor directly.
- `_populate_class_members` and `check_program` are not modelled. `check` does not call them.
- The debug prints are not modelled. This includes the one in `visitVariableDecl` that indexes the first variable, which fails on an empty list.
- The syntax-tree and error node classes appear only as datatypes. The lexer, parser and test harness are not part of this model.
- Floating-point literal values are not modelled. Only their type matters here.
- Reference types (`&`) are a type of their own. The code compares two of them by their rendered names; the model compares the referenced types as values. The two differ only when a class is named like a primitive type or `void` (a reference to class `int` renders as `int&`, like a reference to the primitive). Aliasing through a reference is not modelled.
- ClassTable.Chain: the walks stop after one step more than there are classes. The code loops forever on a cyclic parent chain. Every acyclic chain is covered.
- The checker's state after a raise is not specified. A raise ends the run, and only the raised diagnostic is observable.
- `_check_entry_point` appears only as the predicate `EntryPointExists`, because `check` does not call it.
- `in_constant_init` is not modelled. Nothing reads it.
- `visitParameter` is modelled by `DeclareParam` and `DeclareParams`. `visitConstructorDecl` sends each parameter there with the same effect.
- Statements.VarDeclRun: requires an open scope. Every caller has entered the method scope.
- Checker.StaticChecker.VisitStmt: states only that no error is dropped and that the scopes and loop depth are restored. The report list of a nested statement is stated by the visitor of its kind.
- Checker.StaticChecker.VisitBlock: states only that no error is dropped and that the scopes and depth are restored, not the list itself.
- Checker.StaticChecker.VisitIf: states the condition's reports and the restoration, not the reports of the branches.
- Checker.StaticChecker.VisitFor: states the loop variable's and bounds' reports and the restoration, not the body's reports.
- Checker.StaticChecker.VisitMethodDecl: states the parameters' reports and the restoration, not the body's reports.
- Checker.StaticChecker.VisitCtor: states the parameters' reports and the restoration, not the body's reports.
- Checker.StaticChecker.VisitDtor: states only that no error is dropped and that the state is restored.
- Checker.StaticChecker.VisitMember: states only that no error is dropped and that the scopes and depth are restored.
- Checker.StaticChecker.VisitClassDecl: states only that no error is dropped and that the state is restored.
- Checker.StaticChecker.VisitProgram: states how the table is built and kept, not the list of reports.
- Checker.StaticChecker.Check: states the visit's reports through a ghost value rather than a reference function for whole programs.

## Findings

| source | as written | input that shows it | evidently intended | confidence | as-written member | corrected member |
|---|---|---|---|---|---|---|
| src/semantics/static_checker.py:250-256 | `same_type` reads the array element type from attribute names the array node does not have, so it compares two missing elements as equal | `int[2]` against `boolean[2]` | arrays are the same type only when their element types are | not executed | Types.SameTypeAsWrittenIgnoresElements | Types.SameTypeIsEquality |
| src/semantics/static_checker.py:226-227 | `and` binds tighter than `or`, so any type whose name lower-cases to `bool` passes `is_bool_type` | a class named `Bool` used as an `if` condition or an `&&` operand | only the primitive `boolean` is boolean | not executed | Types.BoolClassAcceptedAsWritten | Operators.LogicalAndConcatTyping |
| src/semantics/static_checker.py:1005-1007 | a bare `return;` has no type, and `compatible(void, None)` is false, so it is reported | `return;` inside a `void` method | a bare return is accepted in a void method | not executed | Statements.BareReturnInVoidMethod | Statements.ReturnRule |
