/**
 * The name-checking pass: the scope discipline of the member visitors, the
 * inheritance-legality diagnostics and the derived constructor list of the
 * class visitor, and the static type of `this`.
 */
module NameChecker {
  import opened Ast
  import opened Hierarchy
  import opened Scopes

  /** The diagnostics the class visitor reports. */
  datatype Diagnostic =
    | InheritsFromInterface(cls: string, sup: string)
    | ExtendsItself(cls: string)
    | PrivateDefaultConstructor(cls: string, sup: string)
    | ImplementsClass(cls: string, iface: string)

  /** The hierarchy validations the class visitor calls, in call order. */
  datatype Validation =
    | HierarchyMethods
    | ReturnTypesOfIdenticalMethods
    | ImplementationOfAbstractClasses
    | UniqueFields

  // ---------------------------------------------------------------------
  // Inheritance legality

  /** Every entry of the "<init>" group of `c`, if there is one, is a constructor. */
  predicate InitGroupHoldsConstructors(c: ClassDecl) {
    "<init>" in c.methodTable ==>
      forall sig :: sig in c.methodTable["<init>"] ==> c.methodTable["<init>"][sig].ConstructorDecl?
  }

  /**
   * What the class visitor dereferences without a null check: the
   * declarations of the superclass and interfaces, and the "<init>" group
   * of the superclass; and the constructor casts it makes.
   */
  predicate ClassVisitDefined(table: ClassTable, cd: ClassDecl) {
    Resolved(table, cd) && InitGroupHoldsConstructors(cd) &&
    (cd.superClass.Some? ==>
      "<init>" in table[cd.superClass.value].methodTable &&
      InitGroupHoldsConstructors(table[cd.superClass.value]))
  }

  /** The superclass declares a private constructor with the empty parameter signature. */
  predicate HasPrivateDefaultConstructor(c: ClassDecl)
    requires "<init>" in c.methodTable
  {
    var group := c.methodTable["<init>"];
    "" in group && group[""].ConstructorDecl? && group[""].mods.isPrivate
  }

  /**
   * The superclass diagnostics reported before the superclass's "<init>"
   * group is read: these need only the references to resolve.
   */
  function EarlyDiagnostics(table: ClassTable, cd: ClassDecl): seq<Diagnostic>
    requires Resolved(table, cd)
  {
    match cd.superClass
    case None => []
    case Some(s) =>
      (if table[s].isInterface then [InheritsFromInterface(cd.name, table[s].name)] else []) +
      (if cd.name == s then [ExtendsItself(cd.name)] else [])
  }

  /** The diagnostics reported before the class body is visited. */
  function SuperclassDiagnostics(table: ClassTable, cd: ClassDecl): seq<Diagnostic>
    requires ClassVisitDefined(table, cd)
  {
    EarlyDiagnostics(table, cd) +
    match cd.superClass
    case None => []
    case Some(s) =>
      var sup := table[s];
      if HasPrivateDefaultConstructor(sup) then [PrivateDefaultConstructor(cd.name, sup.name)] else []
  }

  /** One diagnostic per entry of `ifaces` that names a class, in order. */
  function InterfaceDiagnostics(table: ClassTable, cls: string, ifaces: seq<string>): seq<Diagnostic>
    requires forall x :: x in ifaces ==> x in table
  {
    if ifaces == [] then []
    else
      var x := ifaces[|ifaces| - 1];
      InterfaceDiagnostics(table, cls, ifaces[..|ifaces| - 1]) +
      (if table[x].IsClass() then [ImplementsClass(cls, x)] else [])
  }

  /** Everything the class visitor reports about `cd`, in report order. */
  function ClassDiagnostics(table: ClassTable, cd: ClassDecl): seq<Diagnostic>
    requires ClassVisitDefined(table, cd)
  {
    SuperclassDiagnostics(table, cd) + InterfaceDiagnostics(table, cd.name, cd.interfaces)
  }

  /**
   * The superclass rules: the superclass, if any, is a class, other than
   * the class itself, without a private default constructor.
   */
  predicate SuperclassLegal(table: ClassTable, cd: ClassDecl)
    requires ClassVisitDefined(table, cd)
  {
    cd.superClass.Some? ==>
      var s := cd.superClass.value;
      table[s].IsClass() && s != cd.name && !HasPrivateDefaultConstructor(table[s])
  }

  /** The inheritance rules: the superclass rules, and every implemented type is an interface. */
  ghost predicate LegalInheritance(table: ClassTable, cd: ClassDecl)
    requires ClassVisitDefined(table, cd)
  {
    SuperclassLegal(table, cd) && forall x :: x in cd.interfaces ==> table[x].isInterface
  }

  /**
   * Each entry of `ifaces` that names a class is reported once, and nothing
   * else is reported.
   */
  lemma {:induction false} InterfaceDiagnosticsCount(table: ClassTable, cls: string, ifaces: seq<string>, d: Diagnostic)
    requires forall x :: x in ifaces ==> x in table
    ensures multiset(InterfaceDiagnostics(table, cls, ifaces))[d] ==
      if d.ImplementsClass? && d.cls == cls && d.iface in table && table[d.iface].IsClass()
      then multiset(ifaces)[d.iface] else 0
    decreases |ifaces|
  {
    if ifaces != [] {
      var init, x := ifaces[..|ifaces| - 1], ifaces[|ifaces| - 1];
      InterfaceDiagnosticsCount(table, cls, init, d);
      var last: seq<Diagnostic> := if table[x].IsClass() then [ImplementsClass(cls, x)] else [];
      var ds := InterfaceDiagnostics(table, cls, init);
      assert InterfaceDiagnostics(table, cls, ifaces) == ds + last;
      assert multiset(ds + last) == multiset(ds) + multiset(last);
      assert ifaces == init + [x];
      assert multiset(ifaces) == multiset(init) + multiset{x};
      if d == ImplementsClass(cls, x) {
        assert multiset(ifaces)[x] == multiset(init)[x] + 1;
      } else {
        assert multiset(last)[d] == 0;
      }
    }
  }

  lemma {:induction false} InterfaceDiagnosticsEmpty(table: ClassTable, cls: string, ifaces: seq<string>)
    requires forall x :: x in ifaces ==> x in table
    ensures InterfaceDiagnostics(table, cls, ifaces) == [] <==> forall x :: x in ifaces ==> table[x].isInterface
    decreases |ifaces|
  {
    if ifaces != [] {
      var init := ifaces[..|ifaces| - 1];
      InterfaceDiagnosticsEmpty(table, cls, init);
      assert ifaces == init + [ifaces[|ifaces| - 1]];
    }
  }

  /** The class visitor reports nothing exactly when the inheritance rules hold. */
  lemma ClassDiagnosticsEmpty(table: ClassTable, cd: ClassDecl)
    requires ClassVisitDefined(table, cd)
    ensures ClassDiagnostics(table, cd) == [] <==> LegalInheritance(table, cd)
  {
    InterfaceDiagnosticsEmpty(table, cd.name, cd.interfaces);
  }

  /** Each broken superclass rule is reported exactly once. */
  lemma SuperclassDiagnosticsExact(table: ClassTable, cd: ClassDecl)
    requires ClassVisitDefined(table, cd)
    ensures cd.superClass.None? ==> SuperclassDiagnostics(table, cd) == []
    ensures cd.superClass.Some? ==>
      var s := cd.superClass.value;
      var m := multiset(ClassDiagnostics(table, cd));
      && m[InheritsFromInterface(cd.name, table[s].name)] == (if table[s].isInterface then 1 else 0)
      && m[ExtendsItself(cd.name)] == (if s == cd.name then 1 else 0)
      && m[PrivateDefaultConstructor(cd.name, table[s].name)] == (if HasPrivateDefaultConstructor(table[s]) then 1 else 0)
  {
    if cd.superClass.Some? {
      var s := cd.superClass.value;
      var ids := InterfaceDiagnostics(table, cd.name, cd.interfaces);
      var m := multiset(ClassDiagnostics(table, cd));
      assert m == multiset(SuperclassDiagnostics(table, cd)) + multiset(ids);
      InterfaceDiagnosticsCount(table, cd.name, cd.interfaces, InheritsFromInterface(cd.name, table[s].name));
      InterfaceDiagnosticsCount(table, cd.name, cd.interfaces, ExtendsItself(cd.name));
      InterfaceDiagnosticsCount(table, cd.name, cd.interfaces, PrivateDefaultConstructor(cd.name, table[s].name));
    }
  }

  /** Each implemented interface that is a class is reported once per occurrence. */
  lemma InterfaceDiagnosticsExact(table: ClassTable, cd: ClassDecl)
    requires ClassVisitDefined(table, cd)
    ensures forall x :: x in cd.interfaces ==>
      multiset(ClassDiagnostics(table, cd))[ImplementsClass(cd.name, x)] ==
        if table[x].IsClass() then multiset(cd.interfaces)[x] else 0
  {
    var ids := InterfaceDiagnostics(table, cd.name, cd.interfaces);
    var m := multiset(ClassDiagnostics(table, cd));
    assert m == multiset(SuperclassDiagnostics(table, cd)) + multiset(ids);
    forall x | x in cd.interfaces
      ensures m[ImplementsClass(cd.name, x)] == if table[x].IsClass() then multiset(cd.interfaces)[x] else 0
    {
      InterfaceDiagnosticsCount(table, cd.name, cd.interfaces, ImplementsClass(cd.name, x));
      assert multiset(SuperclassDiagnostics(table, cd))[ImplementsClass(cd.name, x)] == 0;
    }
  }

  /** The first interface report names the first listed type that is a class. */
  lemma {:induction false} InterfaceDiagnosticsFirst(table: ClassTable, cls: string, ifaces: seq<string>)
    requires forall x :: x in ifaces ==> x in table
    requires InterfaceDiagnostics(table, cls, ifaces) != []
    ensures exists i :: (0 <= i < |ifaces| && table[ifaces[i]].IsClass() &&
                         (forall j :: 0 <= j < i ==> table[ifaces[j]].isInterface) &&
                         InterfaceDiagnostics(table, cls, ifaces)[0] == ImplementsClass(cls, ifaces[i]))
    decreases |ifaces|
  {
    var init, x := ifaces[..|ifaces| - 1], ifaces[|ifaces| - 1];
    assert forall y :: y in init ==> y in ifaces;
    var ds := InterfaceDiagnostics(table, cls, init);
    if ds != [] {
      InterfaceDiagnosticsFirst(table, cls, init);
      var i :| 0 <= i < |init| && table[init[i]].IsClass() &&
        (forall j :: 0 <= j < i ==> table[init[j]].isInterface) && ds[0] == ImplementsClass(cls, init[i]);
      assert ifaces[i] == init[i];
      assert forall j :: 0 <= j < i ==> ifaces[j] == init[j];
    } else {
      InterfaceDiagnosticsEmpty(table, cls, init);
      var i := |ifaces| - 1;
      assert forall j :: 0 <= j < i ==> ifaces[j] == init[j] && ifaces[j] in init;
    }
  }

  /**
   * The first report is the first broken rule in the order the source
   * checks them: superclass is an interface, class extends itself,
   * superclass has a private default constructor, then the implemented
   * types in order. This is the one report made when reporting stops the
   * pass.
   */
  lemma FirstReport(table: ClassTable, cd: ClassDecl)
    requires ClassVisitDefined(table, cd) && ClassDiagnostics(table, cd) != []
    ensures cd.superClass.Some? && table[cd.superClass.value].isInterface ==>
      ClassDiagnostics(table, cd)[0] == InheritsFromInterface(cd.name, table[cd.superClass.value].name)
    ensures cd.superClass.Some? && table[cd.superClass.value].IsClass() && cd.superClass.value == cd.name ==>
      ClassDiagnostics(table, cd)[0] == ExtendsItself(cd.name)
    ensures (cd.superClass.Some? && table[cd.superClass.value].IsClass() && cd.superClass.value != cd.name &&
             HasPrivateDefaultConstructor(table[cd.superClass.value])) ==>
      ClassDiagnostics(table, cd)[0] == PrivateDefaultConstructor(cd.name, table[cd.superClass.value].name)
    ensures SuperclassLegal(table, cd) ==>
      exists i :: (0 <= i < |cd.interfaces| && table[cd.interfaces[i]].IsClass() &&
                   (forall j :: 0 <= j < i ==> table[cd.interfaces[j]].isInterface) &&
                   ClassDiagnostics(table, cd)[0] == ImplementsClass(cd.name, cd.interfaces[i]))
  {
    var sup := SuperclassDiagnostics(table, cd);
    var ifs := InterfaceDiagnostics(table, cd.name, cd.interfaces);
    if sup == [] {
      assert ClassDiagnostics(table, cd) == ifs;
      InterfaceDiagnosticsFirst(table, cd.name, cd.interfaces);
    } else {
      assert ClassDiagnostics(table, cd)[0] == sup[0];
    }
  }

  /**
   * When the superclass is an interface or the class itself, the first
   * report is made before the superclass's "<init>" group is read, so it
   * is determined for any class whose references resolve.
   */
  lemma EarlyFirstReport(table: ClassTable, cd: ClassDecl)
    requires Resolved(table, cd)
    ensures EarlyDiagnostics(table, cd) != [] <==>
      cd.superClass.Some? && (table[cd.superClass.value].isInterface || cd.superClass.value == cd.name)
    ensures cd.superClass.Some? && table[cd.superClass.value].isInterface ==>
      EarlyDiagnostics(table, cd)[0] == InheritsFromInterface(cd.name, table[cd.superClass.value].name)
    ensures cd.superClass.Some? && table[cd.superClass.value].IsClass() && cd.superClass.value == cd.name ==>
      EarlyDiagnostics(table, cd) == [ExtendsItself(cd.name)]
  {
  }

  /** Where the "<init>" group is read as well, the early diagnostics are the first reports. */
  lemma EarlyDiagnosticsFirst(table: ClassTable, cd: ClassDecl)
    requires ClassVisitDefined(table, cd)
    ensures |EarlyDiagnostics(table, cd)| <= |ClassDiagnostics(table, cd)|
    ensures ClassDiagnostics(table, cd)[..|EarlyDiagnostics(table, cd)|] == EarlyDiagnostics(table, cd)
  {
    var e := EarlyDiagnostics(table, cd);
    assert ClassDiagnostics(table, cd) == e + (SuperclassDiagnostics(table, cd)[|e|..] +
      InterfaceDiagnostics(table, cd.name, cd.interfaces));
  }

  /** Reporting the superclass diagnostics and then the interface diagnostics reports `ClassDiagnostics`. */
  lemma AppendClassDiagnostics(table: ClassTable, cd: ClassDecl, before: seq<Diagnostic>)
    requires ClassVisitDefined(table, cd)
    ensures before + SuperclassDiagnostics(table, cd) + InterfaceDiagnostics(table, cd.name, cd.interfaces) ==
      before + ClassDiagnostics(table, cd)
  {
  }

  // ---------------------------------------------------------------------
  // Derived data of the class visitor

  /** The class's "<init>" group, or the empty group when there is none. */
  function InitGroup(cd: ClassDecl): map<string, Node> {
    if "<init>" in cd.methodTable then cd.methodTable["<init>"] else map[]
  }

  /** `order` lists every key of `keys` exactly once. */
  ghost predicate Enumerates(order: seq<string>, keys: set<string>) {
    (forall i, j :: 0 <= i < j < |order| ==> order[i] != order[j]) &&
    (forall k :: k in keys <==> k in order)
  }

  /** The entries of `group` under the keys of `order`, in that order. */
  function Entries(group: map<string, Node>, order: seq<string>): seq<Node>
    requires forall k :: k in order ==> k in group
  {
    if order == [] then []
    else Entries(group, order[..|order| - 1]) + [group[order[|order| - 1]]]
  }

  lemma {:induction false} DistinctLength(order: seq<string>)
    requires forall i, j :: 0 <= i < j < |order| ==> order[i] != order[j]
    ensures |set k | k in order| == |order|
    decreases |order|
  {
    if order != [] {
      var init, last := order[..|order| - 1], order[|order| - 1];
      DistinctLength(init);
      assert (set k | k in order) == (set k | k in init) + {last};
      assert last !in (set k | k in init);
    }
  }

  lemma {:induction false} EntriesMembers(group: map<string, Node>, order: seq<string>)
    requires forall k :: k in order ==> k in group
    ensures |Entries(group, order)| == |order|
    ensures forall i :: 0 <= i < |order| ==> Entries(group, order)[i] == group[order[i]]
    decreases |order|
  {
    if order != [] {
      EntriesMembers(group, order[..|order| - 1]);
    }
  }

  /**
   * Enumerating a group yields each of its entries once: as many as the
   * group has signatures, and exactly its values.
   */
  lemma EntriesOfEnumeration(group: map<string, Node>, order: seq<string>)
    requires Enumerates(order, group.Keys)
    ensures |Entries(group, order)| == |group|
    ensures forall v :: v in Entries(group, order) <==> v in group.Values
  {
    EntriesMembers(group, order);
    DistinctLength(order);
    assert (set k | k in order) == group.Keys;
    forall v | v in group.Values
      ensures v in Entries(group, order)
    {
      var k :| k in group && group[k] == v;
      var i :| 0 <= i < |order| && order[i] == k;
      assert Entries(group, order)[i] == v;
    }
  }

  /**
   * The validations the class visitor runs: the abstract-implementation
   * check only for a class that is neither an interface nor abstract.
   */
  function Validations(cd: ClassDecl): (vs: seq<Validation>)
    ensures |vs| >= 3
    ensures ImplementationOfAbstractClasses in vs <==> !cd.isInterface && !cd.modifiers.isAbstract
    ensures vs[0] == HierarchyMethods && vs[1] == ReturnTypesOfIdenticalMethods && vs[|vs| - 1] == UniqueFields
  {
    [HierarchyMethods, ReturnTypesOfIdenticalMethods] +
    (if !cd.isInterface && !cd.modifiers.isAbstract then [ImplementationOfAbstractClasses] else []) +
    [UniqueFields]
  }

  // ---------------------------------------------------------------------
  // Member bodies

  /**
   * What a local or parameter declaration `n` is bound to: the checker
   * object when `asWritten` (lines 252 and 260 of the source), the
   * declaration itself otherwise.
   */
  function DeclaredAs(n: Node, asWritten: bool): Binding {
    if asWritten then CheckerBinding else DeclBinding(n)
  }

  /**
   * What visiting `n` puts into the innermost frame that is open when the
   * visit starts: the declarations met before any nested scope opens.
   * A construct that opens its own frame adds nothing there.
   */
  function Bindings(n: Node, asWritten: bool): Frame {
    match n
    case LocalDecl(x, _) => map[x := DeclaredAs(n, asWritten)]
    case ParamDecl(x) => map[x := DeclaredAs(n, asWritten)]
    case FieldDecl(_, init) => BindingsSeq(init, asWritten)
    case Other(parts) => BindingsSeq(parts, asWritten)
    case _ => map[]
  }

  function BindingsSeq(ns: seq<Node>, asWritten: bool): Frame {
    if ns == [] then map[] else BindingsSeq(ns[..|ns| - 1], asWritten) + Bindings(ns[|ns| - 1], asWritten)
  }

  /** What the explicit constructor invocation of `n`, if any, puts into the body frame. */
  function InvocationBindings(n: Node, asWritten: bool): Frame
    requires n.ConstructorDecl?
  {
    if n.cinvocation.Some? then Bindings(n.cinvocation.value, asWritten) else map[]
  }

  /** Every `this` in `ts` has the static type of the class `cc` holds. */
  ghost predicate AllTyped(ts: set<This>, cc: Option<ClassDecl>)
    reads ts
  {
    forall t :: t in ts ==> cc.Some? && t.exprType == Some(SelfType(cc.value))
  }

  /**
   * A local or parameter declaration resolves, right after it, to the
   * checker object and not to itself when it is declared as the source
   * declares it.
   */
  lemma AsWrittenDeclarationIsLost(scopes: seq<Frame>, n: Node)
    requires |scopes| >= 1 && (n.LocalDecl? || n.ParamDecl?)
    ensures Lookup(Declare(scopes, n.name, CheckerBinding), n.name) == Some(CheckerBinding)
    ensures Lookup(Declare(scopes, n.name, CheckerBinding), n.name) != Some(DeclBinding(n))
  {
    LookupDeclared(scopes, n.name, CheckerBinding);
  }

  class NameChecker {
    const classTable: ClassTable
    /**
     * Which binding the local and parameter visitors put: the checker object,
     * as the source does, or the declaration (see the findings in the README).
     */
    const asWritten: bool
    /** the scope chain, outermost first; [] is the null scope */
    var currentScope: seq<Frame>
    var currentClass: Option<ClassDecl>
    /** the diagnostics reported so far */
    var diagnostics: seq<Diagnostic>
    /** the hierarchy validations called so far */
    ghost var validations: seq<Validation>

    constructor (classTable: ClassTable, asWritten: bool)
      ensures this.classTable == classTable && this.asWritten == asWritten
      ensures currentScope == [] && currentClass == None
      ensures diagnostics == [] && validations == []
    {
      this.classTable := classTable;
      this.asWritten := asWritten;
      currentScope := [];
      currentClass := None;
      diagnostics := [];
      validations := [];
    }

    method NewScope()
      modifies `currentScope
      ensures currentScope == old(currentScope) + [map[]]
    {
      currentScope := currentScope + [map[]];
    }

    method CloseScope()
      requires |currentScope| >= 1
      modifies `currentScope
      ensures currentScope == old(currentScope)[..|old(currentScope)| - 1]
    {
      currentScope := currentScope[..|currentScope| - 1];
    }

    method Put(name: string, b: Binding)
      requires |currentScope| >= 1
      modifies `currentScope
      ensures currentScope == Declare(old(currentScope), name, b)
    {
      currentScope := Declare(currentScope, name, b);
    }

    /** Dispatch on the node kind, as the visitor's double dispatch does. */
    method Visit(n: Node)
      requires |currentScope| >= 1
      requires VisitedThis(n) != {} ==> currentClass.Some?
      modifies `currentScope, VisitedThis(n)
      ensures currentScope == Extend(old(currentScope), Bindings(n, asWritten))
      ensures AllTyped(VisitedThis(n), currentClass)
      decreases Size(n), 2
    {
      match n
      case Block(_) =>
        VisitBlock(n);
        ExtendNothing(currentScope);
      case ForStat(_) =>
        VisitForStat(n);
        ExtendNothing(currentScope);
      case SwitchStat(_) =>
        VisitSwitchStat(n);
        ExtendNothing(currentScope);
      case MethodDecl(_, _, _, _) =>
        VisitMethodDecl(n);
        ExtendNothing(currentScope);
      case ConstructorDecl(_, _, _, _) =>
        VisitConstructorDecl(n);
        ExtendNothing(currentScope);
      case LocalDecl(_, _) =>
        if asWritten {
          VisitLocalDeclAsWritten(n);
        } else {
          VisitLocalDecl(n);
        }
      case ParamDecl(_) =>
        if asWritten {
          VisitParamDeclAsWritten(n);
        } else {
          VisitParamDecl(n);
        }
      case ThisExpr(th) =>
        VisitThis(th);
        ExtendNothing(currentScope);
      case FieldDecl(_, init) =>
        VisitSequence(init);
      case Other(parts) =>
        VisitSequence(parts);
    }

    /** Visit the nodes of `ns` in order, as the default traversal does. */
    method VisitSequence(ns: seq<Node>)
      requires |currentScope| >= 1
      requires VisitedThisSeq(ns) != {} ==> currentClass.Some?
      modifies `currentScope, VisitedThisSeq(ns)
      ensures currentScope == Extend(old(currentScope), BindingsSeq(ns, asWritten))
      ensures AllTyped(VisitedThisSeq(ns), currentClass)
      decreases SizeSeq(ns), 3
    {
      ExtendNothing(currentScope);
      var i := 0;
      while i < |ns|
        invariant 0 <= i <= |ns|
        invariant currentScope == Extend(old(currentScope), BindingsSeq(ns[..i], asWritten))
        invariant AllTyped(VisitedThisSeq(ns[..i]), currentClass)
      {
        VisitedThisSeqContains(ns, i);
        SizeSeqBound(ns, i);
        assert ns[..i + 1][..i] == ns[..i];
        VisitedThisSeqAllocated(ns[..i]);
        label before:
        Visit(ns[i]);
        forall t | t in VisitedThisSeq(ns[..i + 1])
          ensures currentClass.Some? && t.exprType == Some(SelfType(currentClass.value))
        {
          if t !in VisitedThis(ns[i]) {
            assert t in VisitedThisSeq(ns[..i]);
            assert t.exprType == old@before(t.exprType);
          }
        }
        ExtendTwice(old(currentScope), BindingsSeq(ns[..i], asWritten), Bindings(ns[i], asWritten));
        i := i + 1;
      }
      assert ns[..|ns|] == ns;
    }

    /** (1) A block opens one frame around its statements. */
    method VisitBlock(n: Node)
      requires n.Block? && |currentScope| >= 1
      requires VisitedThis(n) != {} ==> currentClass.Some?
      modifies `currentScope, VisitedThis(n)
      ensures currentScope == old(currentScope)
      ensures AllTyped(VisitedThis(n), currentClass)
      decreases Size(n), 1
    {
      NewScope();
      VisitSequence(n.stmts);
      assert AllTyped(VisitedThisSeq(n.stmts), currentClass);
      ExtendFreshFrame(old(currentScope), BindingsSeq(n.stmts, asWritten));
      CloseScope();
    }

    /** (2) A for statement opens one frame around header and body. */
    method VisitForStat(n: Node)
      requires n.ForStat? && |currentScope| >= 1
      requires VisitedThis(n) != {} ==> currentClass.Some?
      modifies `currentScope, VisitedThis(n)
      ensures currentScope == old(currentScope)
      ensures AllTyped(VisitedThis(n), currentClass)
      decreases Size(n), 1
    {
      NewScope();
      VisitSequence(n.parts);
      assert AllTyped(VisitedThisSeq(n.parts), currentClass);
      ExtendFreshFrame(old(currentScope), BindingsSeq(n.parts, asWritten));
      CloseScope();
    }

    /**
     * (3) A constructor opens a frame for its parameters and, inside it, a
     * frame for its body; the explicit constructor invocation is visited in
     * the body frame, with the parameters visible. Both frames are closed.
     */
    method VisitConstructorDecl(n: Node)
      requires n.ConstructorDecl? && |currentScope| >= 1
      requires VisitedThis(n) != {} ==> currentClass.Some?
      modifies `currentScope, VisitedThis(n)
      ensures currentScope == old(currentScope)
      ensures AllTyped(VisitedThis(n), currentClass)
      decreases Size(n), 1
    {
      var s0 := currentScope;
      NewScope();
      VisitSequence(n.params);
      assert AllTyped(VisitedThisSeq(n.params), currentClass);
      ExtendFreshFrame(s0, BindingsSeq(n.params, asWritten));
      var paramScopes := s0 + [BindingsSeq(n.params, asWritten)];
      NewScope();
      // the parameters sit in the outer of the two frames, the inner is empty
      assert currentScope == paramScopes + [map[]];
      VisitInvocationAndBody(n);
      assert AllTyped(VisitedThis(n), currentClass);
      CloseScope();
      assert currentScope == paramScopes;
      CloseScope();
      assert paramScopes[..|s0|] == s0;
    }

    /**
     * The body frame of a constructor: the explicit constructor invocation,
     * then the body statements; the frame is left open.
     */
    method VisitInvocationAndBody(n: Node)
      requires n.ConstructorDecl?
      requires VisitedThis(n) != {} ==> currentClass.Some?
      requires |currentScope| >= 2 && currentScope[|currentScope| - 1] == map[]
      requires currentScope[|currentScope| - 2] == BindingsSeq(n.params, asWritten)
      requires AllTyped(VisitedThisSeq(n.params), currentClass)
      modifies `currentScope, VisitedThis(n)
      ensures currentScope == Extend(old(currentScope), InvocationBindings(n, asWritten) + BindingsSeq(n.stats, asWritten))
      ensures currentScope[|currentScope| - 2] == BindingsSeq(n.params, asWritten)
      ensures AllTyped(VisitedThis(n), currentClass)
      decreases Size(n), 0
    {
      VisitedThisSeqAllocated(n.params);
      ghost var s0 := currentScope;
      label start:
      if n.cinvocation.Some? {
        VisitedThisAllocated(n.cinvocation.value);
        Visit(n.cinvocation.value);
        label invoked:
        VisitSequence(n.stats);
        ExtendTwice(s0, Bindings(n.cinvocation.value, asWritten), BindingsSeq(n.stats, asWritten));
        forall t | t in VisitedThis(n.cinvocation.value) && t !in VisitedThisSeq(n.stats)
          ensures t.exprType == old@invoked(t.exprType)
        {
        }
      } else {
        VisitSequence(n.stats);
        assert map[] + BindingsSeq(n.stats, asWritten) == BindingsSeq(n.stats, asWritten);
      }
      forall t | t in VisitedThisSeq(n.params) && t !in VisitedThis(n) - VisitedThisSeq(n.params)
        ensures t.exprType == old@start(t.exprType)
      {
      }
      assert currentScope[|s0| - 2] == s0[..|s0| - 1][|s0| - 2];
    }

    /** (4) A method opens one frame for its parameters and body. */
    method VisitMethodDecl(n: Node)
      requires n.MethodDecl? && |currentScope| >= 1
      requires VisitedThis(n) != {} ==> currentClass.Some?
      modifies `currentScope, VisitedThis(n)
      ensures currentScope == old(currentScope)
      ensures AllTyped(VisitedThis(n), currentClass)
      decreases Size(n), 1
    {
      var s0 := currentScope;
      NewScope();
      VisitSequence(n.params);
      ExtendFreshFrame(s0, BindingsSeq(n.params, asWritten));
      VisitedThisSeqAllocated(n.params);
      label paramsDone:
      if n.body.Some? {
        Visit(n.body.value);
        assert (s0 + [BindingsSeq(n.params, asWritten)])[..|s0|] == s0;
        forall t | t in VisitedThisSeq(n.params) && t !in VisitedThis(n.body.value)
          ensures t.exprType == old@paramsDone(t.exprType)
        {
        }
      }
      assert AllTyped(VisitedThis(n), currentClass);
      CloseScope();
    }

    /** (5) A switch statement opens one frame around its groups. */
    method VisitSwitchStat(n: Node)
      requires n.SwitchStat? && |currentScope| >= 1
      requires VisitedThis(n) != {} ==> currentClass.Some?
      modifies `currentScope, VisitedThis(n)
      ensures currentScope == old(currentScope)
      ensures AllTyped(VisitedThis(n), currentClass)
      decreases Size(n), 1
    {
      NewScope();
      VisitSequence(n.parts);
      assert AllTyped(VisitedThisSeq(n.parts), currentClass);
      ExtendFreshFrame(old(currentScope), BindingsSeq(n.parts, asWritten));
      CloseScope();
    }

    /** (7) A local declaration, binding its name to itself. */
    method VisitLocalDecl(n: Node)
      requires n.LocalDecl? && |currentScope| >= 1
      modifies `currentScope
      ensures currentScope == Declare(old(currentScope), n.name, DeclBinding(n))
      ensures Lookup(currentScope, n.name) == Some(DeclBinding(n))
    {
      Put(n.name, DeclBinding(n));
      LookupDeclared(old(currentScope), n.name, DeclBinding(n));
    }

    /** (7) The local declaration as the source writes it: the checker is bound. */
    method VisitLocalDeclAsWritten(n: Node)
      requires n.LocalDecl? && |currentScope| >= 1
      modifies `currentScope
      ensures currentScope == Declare(old(currentScope), n.name, CheckerBinding)
    {
      Put(n.name, CheckerBinding);
    }

    /** (8) A parameter declaration, binding its name to itself. */
    method VisitParamDecl(n: Node)
      requires n.ParamDecl? && |currentScope| >= 1
      modifies `currentScope
      ensures currentScope == Declare(old(currentScope), n.name, DeclBinding(n))
      ensures Lookup(currentScope, n.name) == Some(DeclBinding(n))
    {
      Put(n.name, DeclBinding(n));
      LookupDeclared(old(currentScope), n.name, DeclBinding(n));
    }

    /** (8) The parameter declaration as the source writes it: the checker is bound. */
    method VisitParamDeclAsWritten(n: Node)
      requires n.ParamDecl? && |currentScope| >= 1
      modifies `currentScope
      ensures currentScope == Declare(old(currentScope), n.name, CheckerBinding)
    {
      Put(n.name, CheckerBinding);
    }

    /** (12) `this` has the type of the class being visited. */
    method VisitThis(th: This)
      requires currentClass.Some?
      modifies th
      ensures th.exprType.Some?
      ensures th.exprType.value.myDecl == currentClass.value
      ensures th.exprType.value.typeName == currentClass.value.name
    {
      th.exprType := Some(ClassType(currentClass.value.name, currentClass.value));
    }

    // The hierarchy validations below have no body in the source; all the
    // class visitor's call of one does is recorded.

    method GetClassHierarchyMethods(cd: ClassDecl)
      modifies `validations
      ensures validations == old(validations) + [HierarchyMethods]
    {
      validations := validations + [HierarchyMethods];
    }

    method CheckReturnTypesOfIdenticalMethods(methods: seq<Node>)
      modifies `validations
      ensures validations == old(validations) + [ReturnTypesOfIdenticalMethods]
    {
      validations := validations + [ReturnTypesOfIdenticalMethods];
    }

    method CheckImplementationOfAbstractClasses(cd: ClassDecl, methods: seq<Node>)
      modifies `validations
      ensures validations == old(validations) + [ImplementationOfAbstractClasses]
    {
      validations := validations + [ImplementationOfAbstractClasses];
    }

    method CheckUniqueFields(fields: seq<Node>, cd: ClassDecl)
      modifies `validations
      ensures validations == old(validations) + [UniqueFields]
    {
      validations := validations + [UniqueFields];
    }

    /** The inheritance checks made before the class body is visited. */
    method CheckSuperclass(cd: ClassDecl)
      requires ClassVisitDefined(classTable, cd)
      modifies `diagnostics
      ensures diagnostics == old(diagnostics) + SuperclassDiagnostics(classTable, cd)
    {
      if cd.superClass.Some? && classTable[cd.superClass.value].isInterface {
        diagnostics := diagnostics + [InheritsFromInterface(cd.name, classTable[cd.superClass.value].name)];
      }
      if cd.superClass.Some? {
        if cd.name == cd.superClass.value {
          diagnostics := diagnostics + [ExtendsItself(cd.name)];
        }
        var superClass := classTable[cd.superClass.value];
        var st := superClass.methodTable["<init>"];
        if "" in st && st[""].mods.isPrivate {
          diagnostics := diagnostics + [PrivateDefaultConstructor(cd.name, superClass.name)];
        }
      }
    }

    /** Every implemented interface that is a class is reported, in order. */
    method CheckInterfaces(cd: ClassDecl)
      requires Resolved(classTable, cd)
      modifies `diagnostics
      ensures diagnostics == old(diagnostics) + InterfaceDiagnostics(classTable, cd.name, cd.interfaces)
    {
      var i := 0;
      while i < |cd.interfaces|
        invariant 0 <= i <= |cd.interfaces|
        invariant diagnostics == old(diagnostics) + InterfaceDiagnostics(classTable, cd.name, cd.interfaces[..i])
      {
        var x := cd.interfaces[i];
        assert cd.interfaces[..i + 1][..i] == cd.interfaces[..i];
        if classTable[x].IsClass() {
          diagnostics := diagnostics + [ImplementsClass(cd.name, x)];
        }
        i := i + 1;
      }
      assert cd.interfaces[..|cd.interfaces|] == cd.interfaces;
    }

    /**
     * Appends every constructor of the class's "<init>" group to its
     * constructor list; `order` is the order in which the group's keys
     * were enumerated.
     */
    method CollectConstructors(cd: ClassDecl) returns (ghost order: seq<string>)
      modifies cd`constructors
      ensures Enumerates(order, InitGroup(cd).Keys)
      ensures cd.constructors == old(cd.constructors) + Entries(InitGroup(cd), order)
    {
      order := [];
      if "<init>" in cd.methodTable {
        var st := cd.methodTable["<init>"];
        var rest := st.Keys;
        while rest != {}
          invariant rest <= st.Keys
          invariant forall i, j :: 0 <= i < j < |order| ==> order[i] != order[j]
          invariant forall k :: k in st.Keys - rest <==> k in order
          invariant cd.constructors == old(cd.constructors) + Entries(st, order)
          decreases rest
        {
          var k :| k in rest;
          assert k !in order;
          assert (order + [k])[..|order|] == order;
          cd.constructors := cd.constructors + [st[k]];
          order := order + [k];
          rest := rest - {k};
        }
      }
    }

    /** The hierarchy validations, in call order. */
    method Validate(cd: ClassDecl, methods: seq<Node>)
      modifies `validations
      ensures validations == old(validations) + Validations(cd)
    {
      GetClassHierarchyMethods(cd);
      CheckReturnTypesOfIdenticalMethods(methods);
      if !cd.isInterface && !cd.modifiers.isAbstract {
        CheckImplementationOfAbstractClasses(cd, methods);
      }
      CheckUniqueFields([], cd);
    }

    /**
     * (6) A class: the field table is the root frame while the members are
     * visited; the inheritance rules are checked; afterwards the scope is
     * null and the class's constructors are appended to its constructor
     * list (`order` is the enumeration order of the "<init>" group).
     */
    method VisitClassDecl(cd: ClassDecl) returns (ghost order: seq<string>)
      requires ClassVisitDefined(classTable, cd)
      modifies this, cd`constructors, cd`allMethods, VisitedThisSeq(cd.body)
      ensures currentScope == [] && currentClass == Some(cd)
      ensures diagnostics == old(diagnostics) + ClassDiagnostics(classTable, cd)
      ensures validations == old(validations) + Validations(cd)
      ensures AllTyped(VisitedThisSeq(cd.body), currentClass)
      ensures cd.allMethods == []
      ensures Enumerates(order, InitGroup(cd).Keys)
      ensures cd.constructors == old(cd.constructors) + Entries(InitGroup(cd), order)
    {
      currentScope := [FieldFrame(cd.fieldTable)];
      currentClass := Some(cd);
      CheckSuperclass(cd);
      ghost var d1, c1 := diagnostics, cd.constructors;
      VisitSequence(cd.body);
      assert AllTyped(VisitedThisSeq(cd.body), currentClass);
      assert diagnostics == d1 && cd.constructors == c1 && validations == old(validations);
      order := FinishClass(cd);
      AppendClassDiagnostics(classTable, cd, old(diagnostics));
    }

    /**
     * The part of the class visitor after the members: the scope becomes
     * null, the interfaces are checked, the validations run and the
     * constructors are collected.
     */
    method FinishClass(cd: ClassDecl) returns (ghost order: seq<string>)
      requires Resolved(classTable, cd)
      modifies `currentScope, `diagnostics, `validations, cd`constructors, cd`allMethods
      ensures currentScope == []
      ensures diagnostics == old(diagnostics) + InterfaceDiagnostics(classTable, cd.name, cd.interfaces)
      ensures validations == old(validations) + Validations(cd)
      ensures cd.allMethods == []
      ensures Enumerates(order, InitGroup(cd).Keys)
      ensures cd.constructors == old(cd.constructors) + Entries(InitGroup(cd), order)
    {
      currentScope := [];
      CheckInterfaces(cd);
      var methods: seq<Node> := [];
      Validate(cd, methods);
      cd.allMethods := methods;
      order := CollectConstructors(cd);
    }
  }
}
