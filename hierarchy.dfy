/**
 * The class/interface graph: which declarations a class inherits from, the
 * `isSuper` test, and the documented search order of `getMethod` and
 * `getField`.
 */
module Hierarchy {
  import opened Ast

  /** Class and interface declarations by name. */
  type ClassTable = map<string, ClassDecl>

  /** `sup` is the superclass of `sub` or one of its implemented interfaces. */
  predicate Edge(table: ClassTable, sub: string, sup: string) {
    sub in table && sup in table &&
    (table[sub].superClass == Some(sup) || sup in table[sub].interfaces)
  }

  /** Every type name `c` mentions has a declaration in the table. */
  predicate Resolved(table: ClassTable, c: ClassDecl) {
    (c.superClass.Some? ==> c.superClass.value in table) &&
    forall x :: x in c.interfaces ==> x in table
  }

  /** Each entry is filed under its own name and its references resolve. */
  ghost predicate WellFormed(table: ClassTable) {
    forall n :: n in table ==> table[n].name == n && Resolved(table, table[n])
  }

  /**
   * `rank` strictly decreases along every superclass and interface edge
   * leaving an ancestor of `root` (`root` included), so no ancestor of
   * `root` lies on a cycle. Nothing is required of the rest of the table.
   */
  ghost predicate Ranked(table: ClassTable, rank: map<string, nat>, root: string) {
    root in rank &&
    (forall a :: Reaches(table, a, root) ==> a in rank) &&
    forall a, b :: Reaches(table, a, root) && Edge(table, a, b) ==> a in rank && b in rank && rank[b] < rank[a]
  }

  /** `p` walks upward through the hierarchy, one edge per step. */
  ghost predicate IsPath(table: ClassTable, p: seq<string>) {
    |p| >= 1 && p[0] in table &&
    forall i :: 0 <= i < |p| - 1 ==> Edge(table, p[i], p[i + 1])
  }

  /**
   * `sup` is `sub` itself or an ancestor of `sub` through superclass and
   * interface edges.
   */
  ghost predicate Reaches(table: ClassTable, sup: string, sub: string) {
    exists p :: IsPath(table, p) && p[0] == sub && p[|p| - 1] == sup
  }

  lemma ReachesRefl(table: ClassTable, n: string)
    requires n in table
    ensures Reaches(table, n, n)
  {
    assert IsPath(table, [n]);
  }

  /** Upward closure: an ancestor of a parent is an ancestor of the child. */
  lemma ReachesUp(table: ClassTable, sup: string, sub: string, parent: string)
    requires Edge(table, sub, parent) && Reaches(table, sup, parent)
    ensures Reaches(table, sup, sub)
  {
    var p :| IsPath(table, p) && p[0] == parent && p[|p| - 1] == sup;
    var q := [sub] + p;
    assert forall i :: 1 <= i < |q| ==> q[i] == p[i - 1];
    assert IsPath(table, q);
  }

  /** A strict ancestor is reached through some parent. */
  lemma ReachesDown(table: ClassTable, sup: string, sub: string)
    requires Reaches(table, sup, sub) && sup != sub
    ensures exists parent :: Edge(table, sub, parent) && Reaches(table, sup, parent)
  {
    var p :| IsPath(table, p) && p[0] == sub && p[|p| - 1] == sup;
    PathTail(table, p);
  }

  /** Dropping the first step of a path leaves a path from the parent. */
  lemma PathTail(table: ClassTable, p: seq<string>)
    requires IsPath(table, p) && |p| > 1
    ensures Edge(table, p[0], p[1]) && IsPath(table, p[1..])
  {
    var q := p[1..];
    forall i | 0 <= i < |q| - 1
      ensures Edge(table, q[i], q[i + 1])
    {
      assert q[i] == p[i + 1] && q[i + 1] == p[i + 2];
    }
  }

  /**
   * A declaration other than `sub` that no parent of `sub` reaches is not
   * an ancestor of `sub`.
   */
  lemma NotReachedThroughParents(table: ClassTable, sup: string, sub: string)
    requires sub in table && sup != sub
    requires forall parent :: Edge(table, sub, parent) ==> !Reaches(table, sup, parent)
    ensures !Reaches(table, sup, sub)
  {
    if Reaches(table, sup, sub) {
      ReachesDown(table, sup, sub);
    }
  }

  lemma ReachesTrans(table: ClassTable, a: string, b: string, c: string)
    requires Reaches(table, a, b) && Reaches(table, b, c)
    ensures Reaches(table, a, c)
  {
    var p :| IsPath(table, p) && p[0] == b && p[|p| - 1] == a;
    var q :| IsPath(table, q) && q[0] == c && q[|q| - 1] == b;
    var r := q + p[1..];
    forall i | 0 <= i < |r| - 1
      ensures Edge(table, r[i], r[i + 1])
    {
      if i < |q| - 1 {
        assert r[i] == q[i] && r[i + 1] == q[i + 1];
      } else {
        var j := i - (|q| - 1);
        assert r[i] == p[j] && r[i + 1] == p[j + 1];
      }
    }
    assert IsPath(table, r);
  }

  /** The ancestors of an ancestor of `root` are ranked by a rank of `root`. */
  lemma RankedAncestor(table: ClassTable, rank: map<string, nat>, root: string, a: string)
    requires Ranked(table, rank, root) && Reaches(table, a, root)
    ensures Ranked(table, rank, a)
  {
    forall x | Reaches(table, x, a)
      ensures x in rank
    {
      ReachesTrans(table, x, a, root);
    }
    forall x, y | Reaches(table, x, a) && Edge(table, x, y)
      ensures x in rank && y in rank && rank[y] < rank[x]
    {
      ReachesTrans(table, x, a, root);
    }
  }

  /** A parent of a ranked declaration is ranked, and strictly lower. */
  lemma RankedParent(table: ClassTable, rank: map<string, nat>, c: string, p: string)
    requires Ranked(table, rank, c) && Edge(table, c, p)
    ensures Ranked(table, rank, p) && rank[p] < rank[c]
  {
    ReachesRefl(table, c);
    ReachesRefl(table, p);
    ReachesUp(table, p, c, p);
    RankedAncestor(table, rank, c, p);
  }

  lemma {:induction false} PathLowersRank(table: ClassTable, rank: map<string, nat>, p: seq<string>)
    requires IsPath(table, p) && Ranked(table, rank, p[0])
    ensures p[|p| - 1] in rank
    ensures rank[p[|p| - 1]] + (|p| - 1) <= rank[p[0]]
    decreases |p|
  {
    if |p| > 1 {
      PathTail(table, p);
      RankedParent(table, rank, p[0], p[1]);
      PathLowersRank(table, rank, p[1..]);
    }
  }

  /** Ancestry only ever goes down in rank; a strict ancestor strictly. */
  lemma ReachesLowersRank(table: ClassTable, rank: map<string, nat>, sup: string, sub: string)
    requires Ranked(table, rank, sub) && Reaches(table, sup, sub)
    ensures sup in rank && sub in rank && rank[sup] <= rank[sub]
    ensures sup != sub ==> rank[sup] < rank[sub]
  {
    var p :| IsPath(table, p) && p[0] == sub && p[|p| - 1] == sup;
    PathLowersRank(table, rank, p);
  }

  /** Two declarations that are each other's ancestors are the same one. */
  lemma ReachesAntisymmetric(table: ClassTable, rank: map<string, nat>, a: string, b: string)
    requires Ranked(table, rank, b) && Reaches(table, a, b) && Reaches(table, b, a)
    ensures a == b
  {
    RankedAncestor(table, rank, b, a);
    ReachesLowersRank(table, rank, a, b);
    ReachesLowersRank(table, rank, b, a);
  }

  /**
   * When an ancestor `a` of `root` lies on a cycle (its parent `b` has `a`
   * as an ancestor, as in `class A extends A`), no rank of `root` exists.
   */
  lemma CyclicHierarchyIsUnranked(table: ClassTable, rank: map<string, nat>, a: string, b: string, root: string)
    requires Edge(table, a, b) && Reaches(table, a, b) && Reaches(table, a, root)
    ensures !Ranked(table, rank, root)
  {
    if Ranked(table, rank, root) {
      RankedAncestor(table, rank, root, a);
      RankedParent(table, rank, a, b);
      ReachesLowersRank(table, rank, a, b);
      assert false;
    }
  }

  /**
   * `isSuper(sup, sub)`: true when `sup` has the name of `sub`, or `isSuper`
   * holds for `sub`'s superclass, or for one of its interfaces in order.
   */
  method IsSuper(table: ClassTable, ghost rank: map<string, nat>, sup: ClassDecl, sub: ClassDecl)
    returns (b: bool)
    requires WellFormed(table) && Ranked(table, rank, sub.name)
    requires sub.name in table && table[sub.name] == sub
    ensures b == Reaches(table, sup.name, sub.name)
    decreases rank[sub.name]
  {
    if sup.name == sub.name {
      ReachesRefl(table, sub.name);
      return true;
    }
    if sub.superClass.Some? {
      var s := sub.superClass.value;
      assert Edge(table, sub.name, s);
      RankedParent(table, rank, sub.name, s);
      b := IsSuper(table, rank, sup, table[s]);
      if b {
        ReachesUp(table, sup.name, sub.name, s);
        return true;
      }
    }
    var i := 0;
    while i < |sub.interfaces|
      invariant 0 <= i <= |sub.interfaces|
      invariant forall j :: 0 <= j < i ==> !Reaches(table, sup.name, sub.interfaces[j])
    {
      var x := sub.interfaces[i];
      assert Edge(table, sub.name, x);
      RankedParent(table, rank, sub.name, x);
      b := IsSuper(table, rank, sup, table[x]);
      if b {
        ReachesUp(table, sup.name, sub.name, x);
        return true;
      }
      i := i + 1;
    }
    forall parent | Edge(table, sub.name, parent)
      ensures !Reaches(table, sup.name, parent)
    {
      if sub.superClass != Some(parent) {
        var j :| 0 <= j < |sub.interfaces| && sub.interfaces[j] == parent;
      }
    }
    NotReachedThroughParents(table, sup.name, sub.name);
    return false;
  }

  /**
   * The search order documented for `getMethod` and `getField`: the class
   * itself, then its superclass, then its interfaces in declaration order;
   * the first hit wins. `local` is what one class declares under the name
   * sought.
   */
  function Search<T>(table: ClassTable, rank: map<string, nat>, c: string, local: ClassDecl -> Option<T>): Option<T>
    requires WellFormed(table) && Ranked(table, rank, c) && c in table
    decreases rank[c], 1, 0
  {
    var cd := table[c];
    if local(cd).Some? then local(cd)
    else
      var fromSuper :=
        if cd.superClass.Some? then
          assert Edge(table, c, cd.superClass.value);
          RankedParent(table, rank, c, cd.superClass.value);
          Search(table, rank, cd.superClass.value, local)
        else None;
      if fromSuper.Some? then fromSuper else SearchInterfaces(table, rank, c, cd.interfaces, local)
  }

  /** The first hit among `ifaces`, a suffix of the interfaces of `owner`. */
  function SearchInterfaces<T>(table: ClassTable, rank: map<string, nat>, owner: string,
                               ifaces: seq<string>, local: ClassDecl -> Option<T>): Option<T>
    requires WellFormed(table) && Ranked(table, rank, owner) && owner in table
    requires forall x :: x in ifaces ==> x in table[owner].interfaces
    decreases rank[owner], 0, |ifaces|
  {
    if ifaces == [] then None
    else
      assert Edge(table, owner, ifaces[0]);
      RankedParent(table, rank, owner, ifaces[0]);
      var r := Search(table, rank, ifaces[0], local);
      if r.Some? then r else SearchInterfaces(table, rank, owner, ifaces[1..], local)
  }

  /** Whatever the search finds is declared by an ancestor. */
  lemma {:induction false} SearchSound<T>(table: ClassTable, rank: map<string, nat>, c: string, local: ClassDecl -> Option<T>)
    requires WellFormed(table) && Ranked(table, rank, c) && c in table
    ensures Search(table, rank, c, local).Some? ==>
      exists a :: a in table && Reaches(table, a, c) && local(table[a]) == Search(table, rank, c, local)
    decreases rank[c], 1, 0
  {
    var cd := table[c];
    if cd.superClass.Some? {
      assert Edge(table, c, cd.superClass.value);
      RankedParent(table, rank, c, cd.superClass.value);
    }
    if local(cd).Some? {
      ReachesRefl(table, c);
    } else if cd.superClass.Some? && Search(table, rank, cd.superClass.value, local).Some? {
      var s := cd.superClass.value;
      assert Edge(table, c, s);
      SearchSound(table, rank, s, local);
      var a :| a in table && Reaches(table, a, s) && local(table[a]) == Search(table, rank, s, local);
      ReachesUp(table, a, c, s);
    } else {
      SearchInterfacesSound(table, rank, c, cd.interfaces, local);
    }
  }

  lemma {:induction false} SearchInterfacesSound<T>(table: ClassTable, rank: map<string, nat>, owner: string,
                                                    ifaces: seq<string>, local: ClassDecl -> Option<T>)
    requires WellFormed(table) && Ranked(table, rank, owner) && owner in table
    requires forall x :: x in ifaces ==> x in table[owner].interfaces
    ensures SearchInterfaces(table, rank, owner, ifaces, local).Some? ==>
      exists a :: a in table && Reaches(table, a, owner) &&
                  local(table[a]) == SearchInterfaces(table, rank, owner, ifaces, local)
    decreases rank[owner], 0, |ifaces|
  {
    if ifaces != [] {
      var x := ifaces[0];
      assert Edge(table, owner, x);
      RankedParent(table, rank, owner, x);
      if Search(table, rank, x, local).Some? {
        SearchSound(table, rank, x, local);
        var a :| a in table && Reaches(table, a, x) && local(table[a]) == Search(table, rank, x, local);
        ReachesUp(table, a, owner, x);
      } else {
        SearchInterfacesSound(table, rank, owner, ifaces[1..], local);
      }
    }
  }

  /** The search fails only when no ancestor declares anything under the name. */
  lemma {:induction false} SearchComplete<T>(table: ClassTable, rank: map<string, nat>, c: string, local: ClassDecl -> Option<T>)
    requires WellFormed(table) && Ranked(table, rank, c) && c in table
    ensures Search(table, rank, c, local).None? ==>
      forall a :: a in table && Reaches(table, a, c) ==> local(table[a]).None?
    decreases rank[c], 1, 0
  {
    var cd := table[c];
    if Search(table, rank, c, local).None? {
      forall a | a in table && Reaches(table, a, c)
        ensures local(table[a]).None?
      {
        if a != c {
          ReachesDown(table, a, c);
          var parent :| Edge(table, c, parent) && Reaches(table, a, parent);
          if cd.superClass == Some(parent) {
            RankedParent(table, rank, c, parent);
            SearchComplete(table, rank, parent, local);
          } else {
            SearchInterfacesComplete(table, rank, c, cd.interfaces, local);
          }
        }
      }
    }
  }

  lemma {:induction false} SearchInterfacesComplete<T>(table: ClassTable, rank: map<string, nat>, owner: string,
                                                       ifaces: seq<string>, local: ClassDecl -> Option<T>)
    requires WellFormed(table) && Ranked(table, rank, owner) && owner in table
    requires forall x :: x in ifaces ==> x in table[owner].interfaces
    ensures SearchInterfaces(table, rank, owner, ifaces, local).None? ==>
      forall a, x :: x in ifaces && a in table && Reaches(table, a, x) ==> local(table[a]).None?
    decreases rank[owner], 0, |ifaces|
  {
    if ifaces != [] && SearchInterfaces(table, rank, owner, ifaces, local).None? {
      assert Edge(table, owner, ifaces[0]);
      RankedParent(table, rank, owner, ifaces[0]);
      SearchComplete(table, rank, ifaces[0], local);
      SearchInterfacesComplete(table, rank, owner, ifaces[1..], local);
      forall a, x | x in ifaces && a in table && Reaches(table, a, x)
        ensures local(table[a]).None?
      {
        if x != ifaces[0] {
          assert x in ifaces[1..];
        }
      }
    }
  }

  /** The group of overloads named `methodName` one class declares, if any. */
  function MethodGroup(methodName: string): ClassDecl -> Option<map<string, Node>> {
    (c: ClassDecl) => if methodName in c.methodTable then Some(c.methodTable[methodName]) else None
  }

  /** The field named `fieldName` one class declares, if any. */
  function FieldEntry(fieldName: string): ClassDecl -> Option<Node> {
    (c: ClassDecl) => if fieldName in c.fieldTable then Some(c.fieldTable[fieldName]) else None
  }

  /**
   * The documented contract of `getMethod`: the overload group found first
   * in the order class, superclass, interfaces.
   */
  function GetMethod(table: ClassTable, rank: map<string, nat>, methodName: string, cd: ClassDecl)
    : (r: Option<map<string, Node>>)
    requires WellFormed(table) && Ranked(table, rank, cd.name) && cd.name in table && table[cd.name] == cd
    ensures methodName in cd.methodTable ==> r == Some(cd.methodTable[methodName])
    ensures r.Some? ==> exists a :: a in table && Reaches(table, a, cd.name) &&
                                    methodName in table[a].methodTable && r.value == table[a].methodTable[methodName]
    ensures r.None? <==> forall a :: a in table && Reaches(table, a, cd.name) ==> methodName !in table[a].methodTable
  {
    var local := MethodGroup(methodName);
    SearchSound(table, rank, cd.name, local);
    SearchComplete(table, rank, cd.name, local);
    ReachesRefl(table, cd.name);
    Search(table, rank, cd.name, local)
  }

  /** The documented contract of `getField`, in the same order. */
  function GetField(table: ClassTable, rank: map<string, nat>, fieldName: string, cd: ClassDecl)
    : (r: Option<Node>)
    requires WellFormed(table) && Ranked(table, rank, cd.name) && cd.name in table && table[cd.name] == cd
    ensures fieldName in cd.fieldTable ==> r == Some(cd.fieldTable[fieldName])
    ensures r.Some? ==> exists a :: a in table && Reaches(table, a, cd.name) &&
                                    fieldName in table[a].fieldTable && r.value == table[a].fieldTable[fieldName]
    ensures r.None? <==> forall a :: a in table && Reaches(table, a, cd.name) ==> fieldName !in table[a].fieldTable
  {
    var local := FieldEntry(fieldName);
    SearchSound(table, rank, cd.name, local);
    SearchComplete(table, rank, cd.name, local);
    ReachesRefl(table, cd.name);
    Search(table, rank, cd.name, local)
  }
}
