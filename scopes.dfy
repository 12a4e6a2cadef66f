/**
 * The chain of scopes the checker keeps while it walks a class body. The
 * chain is a sequence of frames, outermost first; the empty sequence is the
 * absent (null) scope. A frame maps a name to what was declared under it.
 */
module Scopes {
  import opened Ast

  /**
   * What a frame holds under a name: a declaration node, or the checker
   * object itself, which is what the local and parameter visitors of the
   * source store (see the findings in the README).
   */
  datatype Binding = CheckerBinding | DeclBinding(decl: Node)

  type Frame = map<string, Binding>

  /**
   * The class's field table used as the root frame: on its own, a name
   * resolves there exactly when it is a field, and to that field.
   */
  function FieldFrame(fieldTable: map<string, Node>): (f: Frame)
    ensures forall x :: Lookup([f], x) == if x in fieldTable then Some(DeclBinding(fieldTable[x])) else None
  {
    var f := map x | x in fieldTable :: DeclBinding(fieldTable[x]);
    assert forall x :: Lookup([f], x) == if x in f then Some(f[x]) else Lookup([], x) by {
      assert [f][..0] == [];
    }
    f
  }

  /** The chain after `added` has been put into its innermost frame. */
  function Extend(scopes: seq<Frame>, added: Frame): seq<Frame>
    requires |scopes| >= 1
  {
    scopes[..|scopes| - 1] + [scopes[|scopes| - 1] + added]
  }

  /** The chain after one `put(name, b)` into the innermost frame. */
  function Declare(scopes: seq<Frame>, name: string, b: Binding): seq<Frame>
    requires |scopes| >= 1
  {
    Extend(scopes, map[name := b])
  }

  /** Resolution: the binding in the nearest frame, innermost first, that has `name`. */
  function Lookup(scopes: seq<Frame>, name: string): Option<Binding> {
    if scopes == [] then None
    else if name in scopes[|scopes| - 1] then Some(scopes[|scopes| - 1][name])
    else Lookup(scopes[..|scopes| - 1], name)
  }

  /** Putting into the innermost frame keeps the depth and every enclosing frame. */
  lemma ExtendKeepsEnclosingFrames(scopes: seq<Frame>, added: Frame)
    requires |scopes| >= 1
    ensures |Extend(scopes, added)| == |scopes|
    ensures forall k :: 0 <= k < |scopes| - 1 ==> Extend(scopes, added)[k] == scopes[k]
    ensures Extend(scopes, added)[|scopes| - 1].Keys == scopes[|scopes| - 1].Keys + added.Keys
  {
  }

  lemma ExtendNothing(scopes: seq<Frame>)
    requires |scopes| >= 1
    ensures Extend(scopes, map[]) == scopes
  {
    assert scopes[|scopes| - 1] + map[] == scopes[|scopes| - 1];
  }

  lemma ExtendTwice(scopes: seq<Frame>, a: Frame, b: Frame)
    requires |scopes| >= 1
    ensures Extend(Extend(scopes, a), b) == Extend(scopes, a + b)
  {
    var k := |scopes| - 1;
    assert Extend(scopes, a)[..k] == scopes[..k];
    assert scopes[k] + a + b == scopes[k] + (a + b);
  }

  /** A fresh, empty innermost frame becomes `added` once extended. */
  lemma ExtendFreshFrame(scopes: seq<Frame>, added: Frame)
    ensures Extend(scopes + [map[]], added) == scopes + [added]
  {
    assert (scopes + [map[]])[..|scopes|] == scopes;
    assert map[] + added == added;
  }

  /** After a declaration its name resolves to what was declared. */
  lemma LookupDeclared(scopes: seq<Frame>, name: string, b: Binding)
    requires |scopes| >= 1
    ensures Lookup(Declare(scopes, name, b), name) == Some(b)
  {
  }

  /** A declaration leaves the resolution of every other name as it was. */
  lemma LookupOtherName(scopes: seq<Frame>, name: string, b: Binding, other: string)
    requires |scopes| >= 1 && other != name
    ensures Lookup(Declare(scopes, name, b), other) == Lookup(scopes, other)
  {
    var k := |scopes| - 1;
    assert Declare(scopes, name, b)[..k] == scopes[..k];
  }

  /** Opening an empty frame changes no resolution. */
  lemma LookupThroughEmptyFrame(scopes: seq<Frame>, name: string)
    ensures Lookup(scopes + [map[]], name) == Lookup(scopes, name)
  {
    assert (scopes + [map[]])[..|scopes|] == scopes;
  }

  /**
   * Resolution finds the innermost frame that has the name, and nothing in
   * a frame further out is seen once an inner frame has it.
   */
  lemma {:induction false} LookupFindsInnermost(scopes: seq<Frame>, name: string)
    ensures Lookup(scopes, name).Some? <==> exists k :: 0 <= k < |scopes| && name in scopes[k]
    ensures Lookup(scopes, name).Some? ==>
      exists k :: 0 <= k < |scopes| && name in scopes[k] && Lookup(scopes, name) == Some(scopes[k][name]) &&
        forall j :: k < j < |scopes| ==> name !in scopes[j]
    decreases |scopes|
  {
    if scopes != [] {
      var k := |scopes| - 1;
      var outer := scopes[..k];
      LookupFindsInnermost(outer, name);
      if name !in scopes[k] {
        assert forall j :: 0 <= j < k ==> outer[j] == scopes[j];
        if Lookup(scopes, name).Some? {
          var i :| 0 <= i < |outer| && name in outer[i] && Lookup(outer, name) == Some(outer[i][name]) &&
            forall j :: i < j < |outer| ==> name !in outer[j];
          assert forall j :: i < j < |scopes| ==> name !in scopes[j];
        }
      }
    }
  }

  /**
   * With the field table as root frame, a field name that no inner frame
   * declares resolves to the field, without a separate field-table lookup.
   */
  lemma {:induction false} FieldsResolveAtRoot(scopes: seq<Frame>, fieldTable: map<string, Node>, x: string)
    requires |scopes| >= 1 && scopes[0] == FieldFrame(fieldTable) && x in fieldTable
    requires forall j :: 0 < j < |scopes| ==> x !in scopes[j]
    ensures Lookup(scopes, x) == Some(DeclBinding(fieldTable[x]))
    decreases |scopes|
  {
    if |scopes| == 1 {
      assert scopes == [FieldFrame(fieldTable)];
    } else {
      var outer := scopes[..|scopes| - 1];
      assert outer[0] == scopes[0];
      FieldsResolveAtRoot(outer, fieldTable, x);
    }
  }
}
