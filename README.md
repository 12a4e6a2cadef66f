# Name checker: scopes, inheritance diagnostics and `this`

This project models the name-checking pass of a small Java-like compiler
(`src/NameChecker/NameChecker.java`). The pass walks each class declaration.
While it walks, it does four things:

- It keeps a chain of scopes. The class's field table is the root frame.
  Blocks, `for` and `switch` statements, methods and constructors each push
  a frame and pop it again. Constructors push two frames: one for the
  parameters and one for the body.
- It binds local and parameter declarations in the innermost frame.
- It gives every visited `this` expression the type of the class being
  checked.
- It checks the inheritance rules and fills the class's constructor list.
  The rules are: the superclass is a class, is not the class itself, and
  has no private default constructor; each implemented interface is an
  interface.

It also models the class-hierarchy test `isSuper`. The search order
documented for `getMethod` and `getField` is modelled too: the class
itself, then its superclass, then its interfaces.

The files:

- `ast.dfy` (module `Ast`): the syntax tree.
  - Nodes are values.
  - A `This` expression and a `ClassDecl` are classes, because the pass
    updates them in place. It sets the type of a `This`. It sets the
    `constructors` and `allMethods` of a `ClassDecl`.
  - Superclass and interface references are type names. The declaration a
    name denotes is the class table's entry under that name.
- `hierarchy.dfy` (module `Hierarchy`):
  - the class table;
  - ancestry (`Reaches`: a path of superclass and interface edges);
  - `IsSuper`;
  - the documented search of `getMethod` and `getField`.
- `scopes.dfy` (module `Scopes`): the scope chain.
  - A chain is a sequence of frames, outermost first, and `[]` is the null
    scope.
  - Putting into the innermost frame is `Declare`/`Extend`. Resolution,
    innermost first, is `Lookup`.
- `namechecker.dfy` (module `NameChecker`):
  - the diagnostics the class visitor reports, as functions of the class
    table;
  - the class `NameChecker`, whose fields are the current scope, the
    current class, the diagnostics reported so far, and a record of the
    hierarchy validations called.

Each visitor is a method proved against a specification:

- A construct that opens a scope gives back the chain exactly as it found
  it.
- A sequence of nodes leaves the innermost frame extended by the
  declarations it met (`BindingsSeq`).
- After a visit, every reachable `this` has the type of the current class
  (`AllTyped`).

`Error.error` is modelled as appending a tagged `Diagnostic` to a list.
`Utilities.Error` is not part of this model, so this assumes that the error
routine returns and the pass goes on reporting. If it stops the program
instead, only the first report is ever made. `EarlyFirstReport` states
which report that is when the superclass is an interface or the class
itself: those reports come before line 194 reads the superclass's
"<init>" group, so they need only resolved references. `FirstReport`
states it for the remaining rules, where that group is read.

Where the source's comments and its code disagree:

- The body of `getMethod`/`getField` (lines 28-40) is a stub that returns
  `null`. Here the model departs from the code: `GetMethod`/`GetField`
  state the search order the comment at lines 14-27 documents, as a
  documented contract.
- `getClassHierarchyMethods` (line 45) has an empty body, so the list it is
  given stays empty. The comment at lines 42-43 describes a sequence of all
  the hierarchy's methods. The model follows the code: `allMethods` becomes
  the empty sequence, as line 227 then makes it.
- The comment in `visitNameExpr` (lines 267-276) expects the scope lookup to
  yield the `LocalDecl`. The code binds the checker object instead (see
  Findings). The checker's `asWritten` switch picks the binding. With
  `asWritten` set, the model follows the code. With it unset, the model
  binds the declaration. The scope-balance and typing results of every
  visitor are proved for both settings.

## Model

| member | source | states |
|---|---|---|
| Hierarchy.IsSuper | src/NameChecker/NameChecker.java:65-77 | the result is true exactly when `sup` is `sub` itself or an ancestor of `sub` through superclass and interface edges, whenever no ancestor of `sub` lies on a cycle |
| Hierarchy.ReachesRefl | src/NameChecker/NameChecker.java:66-67 | every declaration is its own super, which is the first case of `isSuper` |
| Hierarchy.ReachesUp | src/NameChecker/NameChecker.java:69-74 | an ancestor of the superclass or of an interface is an ancestor of the class, which is the recursive case of `isSuper` |
| Hierarchy.ReachesDown | src/NameChecker/NameChecker.java:69-76 | a strict ancestor is always reached through some parent, so answering false after all parents fail is correct |
| Hierarchy.NotReachedThroughParents | src/NameChecker/NameChecker.java:76 | when no parent reaches `sup` and `sup` is not `sub`, `sup` is not an ancestor |
| Hierarchy.ReachesTrans | src/NameChecker/NameChecker.java:65-77 | the super relation `isSuper` decides is transitive |
| Hierarchy.ReachesLowersRank | src/NameChecker/NameChecker.java:69-74 | under a rank of `sub`, every ancestor of `sub` has a rank no higher than `sub`'s, and a strict ancestor a strictly lower one |
| Hierarchy.RankedParent | src/NameChecker/NameChecker.java:69-73 | a rank of a class ranks its superclass and each interface, each strictly lower, so every recursive call of `isSuper` is on a smaller rank |
| Hierarchy.RankedAncestor | src/NameChecker/NameChecker.java:69-74 | a rank of a class is a rank of each of its ancestors |
| Hierarchy.ReachesAntisymmetric | src/NameChecker/NameChecker.java:65-77 | when the ancestors of `b` are acyclic, two declarations that are each other's super are the same |
| Hierarchy.CyclicHierarchyIsUnranked | src/NameChecker/NameChecker.java:69-74 | when an ancestor of `root` lies on a cycle (as with `class A extends A`), there is no rank of `root`, so `IsSuper` is not modelled for such a `sub` |
| Hierarchy.PathLowersRank | src/NameChecker/NameChecker.java:69-74 | the rank falls by at least one along each superclass or interface edge of a path |
| Hierarchy.SearchSound | src/NameChecker/NameChecker.java:14-27 | whatever the documented search finds is declared by the class or one of its ancestors |
| Hierarchy.SearchComplete | src/NameChecker/NameChecker.java:14-27 | the documented search finds nothing only when neither the class nor any ancestor declares the name |
| Hierarchy.SearchInterfacesSound | src/NameChecker/NameChecker.java:22 | a hit among the interfaces is declared by an ancestor |
| Hierarchy.SearchInterfacesComplete | src/NameChecker/NameChecker.java:22 | a miss among the interfaces means no ancestor through any of them declares the name |
| Hierarchy.GetMethod | src/NameChecker/NameChecker.java:14-32 | the class's own overload group wins; any group found belongs to the class or an ancestor; nothing is found exactly when no ancestor declares the method name |
| Hierarchy.GetField | src/NameChecker/NameChecker.java:34-40 | the same three properties for fields |
| Scopes.FieldFrame | src/NameChecker/NameChecker.java:171-175 | in the root frame alone, a name resolves exactly when it is a field of the class, and then to that field's declaration |
| Scopes.FieldsResolveAtRoot | src/NameChecker/NameChecker.java:171-175 | with the field table as root frame, a field name no inner frame declares resolves to the field, with no separate field-table lookup |
| Scopes.LookupDeclared | src/NameChecker/NameChecker.java:252 | right after a put, the name resolves to what was put |
| Scopes.LookupOtherName | src/NameChecker/NameChecker.java:252 | a put changes the resolution of no other name |
| Scopes.LookupThroughEmptyFrame | src/NameChecker/NameChecker.java:115 | opening a fresh frame changes no resolution |
| Scopes.LookupFindsInnermost | src/NameChecker/NameChecker.java:171-175 | a name resolves exactly when some frame has it, and then to the innermost such frame, outer frames being shadowed |
| Scopes.ExtendKeepsEnclosingFrames | src/NameChecker/NameChecker.java:252 | a put keeps the depth and every enclosing frame, and only adds names to the innermost frame |
| Scopes.ExtendTwice | src/NameChecker/NameChecker.java:252 | two successive puts have the effect of one put of both |
| Scopes.ExtendFreshFrame | src/NameChecker/NameChecker.java:115-117 | what is put into a freshly opened frame is exactly the contents of that frame |
| NameChecker.NameChecker.constructor | src/NameChecker/NameChecker.java:107-110 | a new checker holds the given class table, has a null scope and no current class, and has reported nothing; `asWritten` chooses between the source's binding and the corrected one |
| NameChecker.NameChecker.NewScope | src/NameChecker/NameChecker.java:115 | opening a scope appends one empty innermost frame to the chain |
| NameChecker.NameChecker.CloseScope | src/NameChecker/NameChecker.java:117 | closing a scope drops the innermost frame and nothing else |
| NameChecker.NameChecker.Put | src/NameChecker/NameChecker.java:252 | `currentScope.put` (here and at line 260) adds the binding to the innermost frame only |
| NameChecker.NameChecker.Visit | src/NameChecker/NameChecker.java:113-165 | dispatch: the chain afterwards is the old chain with the node's declarations added to the innermost frame, bound as `asWritten` says, and every `this` reached is typed |
| NameChecker.NameChecker.VisitSequence | src/NameChecker/NameChecker.java:136 | visiting a sequence in order adds its declarations to the innermost frame, later ones winning, and types every `this` in it |
| NameChecker.NameChecker.VisitBlock | src/NameChecker/NameChecker.java:113-119 | the chain after a block is exactly the chain before it; every `this` inside is typed |
| NameChecker.NameChecker.VisitForStat | src/NameChecker/NameChecker.java:122-129 | the chain after a `for` is exactly the chain before it; every `this` inside is typed |
| NameChecker.NameChecker.VisitConstructorDecl | src/NameChecker/NameChecker.java:132-145 | two frames are opened and both closed, so the chain is restored; every `this` in parameters, invocation and body is typed |
| NameChecker.NameChecker.VisitInvocationAndBody | src/NameChecker/NameChecker.java:135-141 | run in a fresh body frame directly inside the frame holding the parameters, the invocation's and the body's declarations go into the body frame only; the parameter frame and every enclosing frame are unchanged |
| NameChecker.NameChecker.VisitMethodDecl | src/NameChecker/NameChecker.java:148-155 | the chain after a method is exactly the chain before it; every `this` in parameters and body is typed |
| NameChecker.NameChecker.VisitSwitchStat | src/NameChecker/NameChecker.java:158-165 | the chain after a `switch` is exactly the chain before it; every `this` inside is typed |
| NameChecker.NameChecker.VisitLocalDecl | src/NameChecker/NameChecker.java:249-254 | corrected: the local is put into the innermost frame and its name then resolves to the declaration itself |
| NameChecker.NameChecker.VisitLocalDeclAsWritten | src/NameChecker/NameChecker.java:252 | as written: the name is bound to the checker object in the innermost frame |
| NameChecker.NameChecker.VisitParamDecl | src/NameChecker/NameChecker.java:257-262 | corrected: the parameter is put into the innermost frame and its name then resolves to the declaration itself |
| NameChecker.NameChecker.VisitParamDeclAsWritten | src/NameChecker/NameChecker.java:260 | as written: the name is bound to the checker object in the innermost frame |
| NameChecker.AsWrittenDeclarationIsLost | src/NameChecker/NameChecker.java:252 | with the code as written, a declared name never resolves to its declaration right after it is declared |
| NameChecker.NameChecker.VisitThis | src/NameChecker/NameChecker.java:316-321 | the `this` gets a class type named after the current class whose declaration is the current class |
| NameChecker.NameChecker.CheckSuperclass | src/NameChecker/NameChecker.java:180-198 | the reports before the body are exactly the superclass diagnostics, in source order |
| NameChecker.NameChecker.CheckInterfaces | src/NameChecker/NameChecker.java:205-210 | one report per implemented interface that is a class, in declaration order, and nothing else |
| NameChecker.NameChecker.Validate | src/NameChecker/NameChecker.java:212-225 | the hierarchy validations are called in source order, the abstract-implementation check only for a concrete class |
| NameChecker.NameChecker.CollectConstructors | src/NameChecker/NameChecker.java:229-238 | each entry of the "<init>" group is appended once, in enumeration order, and nothing else |
| NameChecker.NameChecker.VisitClassDecl | src/NameChecker/NameChecker.java:168-246 | afterwards the scope is null and the current class is `cd`; the reports are exactly `ClassDiagnostics`; every `this` in the body is typed; `allMethods` is the empty collected list; the constructor list gains the "<init>" group's entries |
| NameChecker.NameChecker.FinishClass | src/NameChecker/NameChecker.java:203-238 | after the members, the scope is null, the interfaces are checked, the validations are called and the constructors are collected |
| NameChecker.ClassDiagnosticsEmpty | src/NameChecker/NameChecker.java:180-210 | the class visitor reports nothing exactly when all inheritance rules hold |
| NameChecker.SuperclassDiagnosticsExact | src/NameChecker/NameChecker.java:180-198 | each broken superclass rule is reported exactly once, a respected one never, and a class without a superclass gets no superclass report |
| NameChecker.InterfaceDiagnosticsExact | src/NameChecker/NameChecker.java:205-210 | an implemented class is reported once per occurrence in the implements list, an interface never |
| NameChecker.InterfaceDiagnosticsCount | src/NameChecker/NameChecker.java:206-210 | the interface loop reports only "cannot implement class" for this class, once per occurrence of a class in the list |
| NameChecker.InterfaceDiagnosticsEmpty | src/NameChecker/NameChecker.java:206-210 | the interface loop reports nothing exactly when every listed type is an interface |
| NameChecker.InterfaceDiagnosticsFirst | src/NameChecker/NameChecker.java:206-210 | the first interface report names the first listed type that is a class |
| NameChecker.EarlyFirstReport | src/NameChecker/NameChecker.java:180-190 | for any class whose references resolve, the reports before the "<init>" group is read are non-empty exactly when the superclass is an interface or the class itself, and the first is "inherits from interface" in the one case and "extends itself" in the other |
| NameChecker.EarlyDiagnosticsFirst | src/NameChecker/NameChecker.java:180-197 | where the superclass's "<init>" group is read as well, the reports of lines 181-190 are the first reports of the class |
| NameChecker.FirstReport | src/NameChecker/NameChecker.java:180-210 | the first report is the first broken rule in the order of the source: superclass is an interface, extends itself, private default constructor, then the first implemented class |
| NameChecker.EntriesOfEnumeration | src/NameChecker/NameChecker.java:230-238 | whatever the enumeration order, the appended constructors are exactly the group's entries, each once |
| NameChecker.EntriesMembers | src/NameChecker/NameChecker.java:233-236 | the i-th appended constructor is the entry under the i-th enumerated key |
| NameChecker.DistinctLength | src/NameChecker/NameChecker.java:233-234 | an enumeration that repeats no key has as many elements as it has keys |
| NameChecker.Validations | src/NameChecker/NameChecker.java:214-225 | hierarchy methods first, return types second, unique fields last, and the abstract-implementation check present exactly for a class that is neither an interface nor abstract |

## Left out

- Debug output (`println`) is not modelled: it has no effect on the checked
  state.
- `Utilities.Error`, `Utilities.SymbolTable`, `Utilities.Visitor`,
  `Utilities.Rewrite` and the `AST` classes are not part of this model.
  - An error report is an appended `Diagnostic` carrying the names in its
    message. The message text is not modelled. The model assumes the error
    routine returns; `EarlyFirstReport` and `FirstReport` cover the case
    where it stops.
  - A symbol table is a Dafny `map`. Its `newScope`, `closeScope` and `put`
    are `NewScope`, `CloseScope` and `Put` on a sequence of frames.
  - The default traversal of the visitor base class visits children in
    order. Its details are not modelled.
- The tree rewrite at line 243 (`Rewrite().go`) is not modelled: its code
  is not part of this model.
- The bodies of `getClassHierarchyMethods`, `checkReturnTypesOfIdenticalMethods`,
  `checkImplementationOfAbstractClasses` and `checkUniqueFields`
  (lines 45-86) are empty in the source. Only their calls are recorded, in
  the ghost `validations` trace.
- `visitNameExpr`, `visitInvocation` and `visitFieldRef` (lines 265-305)
  have empty bodies. `visitClassType` (lines 308-313) discards its lookup.
  None of them changes state, so none is modelled.
  - `visitInvocation` and `visitFieldRef` are declared without parameters
    (lines 287, 297), so they override nothing. Invocations and field
    references go through the default traversal, which visits their
    targets. That is why the `this` in `this.m()` or `this.f` is typed, and
    why the model treats them as `Other` nodes whose parts are visited.
- `Hierarchy.GetMethod`, `Hierarchy.GetField`: the source bodies return `null`
  unconditionally. The model states the documented search order instead,
  on a value class table.
- Hierarchy.IsSuper requires a rank of `sub`: no ancestor of `sub` may lie
  on a cycle. Classes elsewhere in the table may.
  - The source answers some queries on a cyclic ancestry. With
    `class A extends A`, `isSuper(A, A)` returns true at line 66. With
    `class B extends A` as well, `isSuper(A, B)` returns true at line 69.
  - It diverges only when `sup` is not found before the cycle is entered.
  - The model excludes every query whose `sub` has a cyclic ancestry,
    including those the source answers. `CyclicHierarchyIsUnranked` states
    which queries those are. `GetMethod` and `GetField` carry the same
    requirement.
- Null dereferences and failing casts are stated as preconditions
  (`ClassVisitDefined`, `currentClass.Some?`, a non-null scope), not
  modelled as exceptions. They cover:
  - a missing "<init>" group in the superclass (line 194);
  - an entry that is not a `ConstructorDecl` (lines 195, 235);
  - a null current class in `visitThis` (line 317).
- The root frame is modelled as a copy of the field table. In the source it
  is the field table object itself (line 175), so a put into the root frame
  would also write the field table. No visitor puts into the root frame,
  because every declaration visitor runs inside a frame its method or
  constructor opened. This rests on a syntactic assumption the model does
  not enforce: field initializers contain no local or parameter
  declarations (`BindingsSeq(cd.body, asWritten) == map[]`). Java syntax
  guarantees it; the model's `Node` type does not, and for a field whose
  initializer holds a `LocalDecl`, `VisitClassDecl` would put that local
  into the root frame.
- The order in which a `Hashtable` enumerates the "<init>" group
  (line 233) is unspecified. It is the ghost out-parameter `order` of
  `CollectConstructors`.
- In `visitThis`, the token details of the synthesized class type (kind 16,
  line and column 0) are not modelled. Only its name and declaration are.
- Declarations are identified by name in the class table. Two distinct
  declarations with the same name are not distinguished.
- The local-declaration visitor does not descend into its initializer
  (lines 249-254), so a `this` there is never typed. The model keeps this:
  `VisitedThis` of a local declaration is empty.

## Findings

| source | as written | input that shows it | evidently intended | confidence | as-written member | corrected member |
|---|---|---|---|---|---|---|
| src/NameChecker/NameChecker.java:252 | `visitLocalDecl` puts the checker object (`this`) under the local's name | any method body `{ int x; ... x ... }`: afterwards `x` resolves to the checker, not to the declaration of `x` | put the `LocalDecl` itself, so that later name resolution finds the declaration | not executed; read from the code | NameChecker.NameChecker.VisitLocalDeclAsWritten, NameChecker.AsWrittenDeclarationIsLost | NameChecker.NameChecker.VisitLocalDecl |
| src/NameChecker/NameChecker.java:260 | `visitParamDecl` puts the checker object (`this`) under the parameter's name | any method `void m(int p) { ... p ... }`: afterwards `p` resolves to the checker, not to the declaration of `p` | put the `ParamDecl` itself | not executed; read from the code | NameChecker.NameChecker.VisitParamDeclAsWritten, NameChecker.AsWrittenDeclarationIsLost | NameChecker.NameChecker.VisitParamDecl |
