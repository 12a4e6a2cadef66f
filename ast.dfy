/**
 * The parts of the abstract syntax tree and of the class table that the
 * name checker reads or writes.
 *
 * Statements, expressions and member declarations are values (a closed sum
 * of node kinds). The two kinds of node the checker updates in place are
 * classes: a `This` expression, whose static type the checker sets, and a
 * `ClassDecl`, whose derived `constructors` and `allMethods` lists it fills.
 */
module Ast {

  datatype Option<T> = None | Some(value: T)

  /** The modifiers the checker consults. */
  datatype Modifiers = Modifiers(isPrivate: bool, isAbstract: bool)

  /**
   * One node of a class body. `Other` stands for every node kind whose
   * visitor only traverses its children in order (expressions, `if`,
   * `while`, statement groups, ...).
   */
  datatype Node =
    | Block(stmts: seq<Node>)
    | ForStat(parts: seq<Node>)
    | SwitchStat(parts: seq<Node>)
    | MethodDecl(name: string, mods: Modifiers, params: seq<Node>, body: Option<Node>)
    | ConstructorDecl(mods: Modifiers, params: seq<Node>, cinvocation: Option<Node>, stats: seq<Node>)
    | FieldDecl(name: string, init: seq<Node>)
    | LocalDecl(name: string, init: seq<Node>)
    | ParamDecl(name: string)
    | ThisExpr(th: This)
    | Other(parts: seq<Node>)

  /** A syntactic class type with its resolved declaration. */
  datatype ClassType = ClassType(typeName: string, myDecl: ClassDecl)

  /** A `this` expression; its static type is unset until the checker visits it. */
  class This {
    var exprType: Option<ClassType>

    constructor ()
      ensures exprType == None
    {
      exprType := None;
    }
  }

  /**
   * A class or interface as the class table holds it. Everything is fixed
   * before the pass runs except the two derived lists.
   * `superClass` and `interfaces` hold type names; the declaration a name
   * denotes is the class table's entry under that name.
   */
  class ClassDecl {
    const name: string
    const modifiers: Modifiers
    const isInterface: bool
    const superClass: Option<string>
    const interfaces: seq<string>
    /** field name to field declaration */
    const fieldTable: map<string, Node>
    /** method name (constructors under "<init>") to parameter signature to declaration */
    const methodTable: map<string, map<string, Node>>
    /** the member declarations in source order */
    const body: seq<Node>
    var constructors: seq<Node>
    var allMethods: seq<Node>

    constructor (name: string, modifiers: Modifiers, isInterface: bool,
                 superClass: Option<string>, interfaces: seq<string>,
                 fieldTable: map<string, Node>,
                 methodTable: map<string, map<string, Node>>, body: seq<Node>)
      ensures this.name == name && this.modifiers == modifiers
      ensures this.isInterface == isInterface && this.superClass == superClass
      ensures this.interfaces == interfaces && this.fieldTable == fieldTable
      ensures this.methodTable == methodTable && this.body == body
      ensures constructors == [] && allMethods == []
    {
      this.name := name;
      this.modifiers := modifiers;
      this.isInterface := isInterface;
      this.superClass := superClass;
      this.interfaces := interfaces;
      this.fieldTable := fieldTable;
      this.methodTable := methodTable;
      this.body := body;
      constructors := [];
      allMethods := [];
    }

    predicate IsClass() {
      !isInterface
    }
  }

  /** The static type of `this` inside `cd`. */
  function SelfType(cd: ClassDecl): ClassType {
    ClassType(cd.name, cd)
  }

  /** Node count, used as the termination measure of the visitors. */
  function Size(n: Node): nat {
    match n
    case Block(s) => 1 + SizeSeq(s)
    case ForStat(s) => 1 + SizeSeq(s)
    case SwitchStat(s) => 1 + SizeSeq(s)
    case MethodDecl(_, _, ps, b) => 1 + SizeSeq(ps) + (if b.Some? then Size(b.value) else 0)
    case ConstructorDecl(_, ps, ci, ss) =>
      1 + SizeSeq(ps) + (if ci.Some? then Size(ci.value) else 0) + SizeSeq(ss)
    case FieldDecl(_, init) => 1 + SizeSeq(init)
    case LocalDecl(_, init) => 1 + SizeSeq(init)
    case ParamDecl(_) => 1
    case ThisExpr(_) => 1
    case Other(s) => 1 + SizeSeq(s)
  }

  function SizeSeq(ns: seq<Node>): nat {
    if ns == [] then 0 else SizeSeq(ns[..|ns| - 1]) + Size(ns[|ns| - 1])
  }

  lemma {:induction false} SizeSeqBound(ns: seq<Node>, i: int)
    requires 0 <= i < |ns|
    ensures Size(ns[i]) <= SizeSeq(ns)
    decreases |ns|
  {
    if i < |ns| - 1 {
      SizeSeqBound(ns[..|ns| - 1], i);
    }
  }

  /**
   * The `this` expressions the checker reaches from `n`. The initializer of
   * a local declaration is not among them: the local-declaration visitor
   * does not descend into its children.
   */
  function VisitedThis(n: Node): set<This> {
    match n
    case Block(s) => VisitedThisSeq(s)
    case ForStat(s) => VisitedThisSeq(s)
    case SwitchStat(s) => VisitedThisSeq(s)
    case MethodDecl(_, _, ps, b) => VisitedThisSeq(ps) + (if b.Some? then VisitedThis(b.value) else {})
    case ConstructorDecl(_, ps, ci, ss) =>
      VisitedThisSeq(ps) + (if ci.Some? then VisitedThis(ci.value) else {}) + VisitedThisSeq(ss)
    case FieldDecl(_, init) => VisitedThisSeq(init)
    case LocalDecl(_, _) => {}
    case ParamDecl(_) => {}
    case ThisExpr(t) => {t}
    case Other(s) => VisitedThisSeq(s)
  }

  function VisitedThisSeq(ns: seq<Node>): set<This> {
    if ns == [] then {} else VisitedThisSeq(ns[..|ns| - 1]) + VisitedThis(ns[|ns| - 1])
  }

  lemma {:induction false} VisitedThisSeqContains(ns: seq<Node>, i: int)
    requires 0 <= i < |ns|
    ensures VisitedThis(ns[i]) <= VisitedThisSeq(ns)
    ensures VisitedThisSeq(ns[..i]) <= VisitedThisSeq(ns)
    ensures VisitedThisSeq(ns[..i + 1]) == VisitedThisSeq(ns[..i]) + VisitedThis(ns[i])
    decreases |ns|
  {
    assert ns[..i + 1][..i] == ns[..i];
    if i < |ns| - 1 {
      VisitedThisSeqContains(ns[..|ns| - 1], i);
      assert ns[..|ns| - 1][..i] == ns[..i];
    } else {
      assert ns[..|ns| - 1] == ns[..i];
    }
  }

  /** The `this` nodes of an allocated tree are allocated. */
  lemma VisitedThisAllocated(n: Node)
    ensures forall t :: t in VisitedThis(n) ==> allocated(t)
  {
    match n
    case Block(s) => VisitedThisSeqAllocated(s);
    case ForStat(s) => VisitedThisSeqAllocated(s);
    case SwitchStat(s) => VisitedThisSeqAllocated(s);
    case MethodDecl(_, _, ps, b) =>
      VisitedThisSeqAllocated(ps);
      if b.Some? { VisitedThisAllocated(b.value); }
    case ConstructorDecl(_, ps, ci, ss) =>
      VisitedThisSeqAllocated(ps);
      VisitedThisSeqAllocated(ss);
      if ci.Some? { VisitedThisAllocated(ci.value); }
    case FieldDecl(_, init) => VisitedThisSeqAllocated(init);
    case LocalDecl(_, _) =>
    case ParamDecl(_) =>
    case ThisExpr(t) =>
    case Other(s) => VisitedThisSeqAllocated(s);
  }

  lemma VisitedThisSeqAllocated(ns: seq<Node>)
    ensures forall t :: t in VisitedThisSeq(ns) ==> allocated(t)
  {
    if ns != [] {
      VisitedThisSeqAllocated(ns[..|ns| - 1]);
      VisitedThisAllocated(ns[|ns| - 1]);
    }
  }
}
