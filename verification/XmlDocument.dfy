/** The document tree as the parser builds it: nodes on the heap, changed in place by the merge. */
module XmlDocument {
  import opened Common
  import opened XmlMerge

  /** `r` is what the last parsed document, number `i`, makes of what the ones before it left; tidy and
      with kept identifiers, it is in force. */
  ghost predicate IsLastMerge(
    isInventoryPreset: bool, kids: seq<Element>, patches: seq<Option<seq<Element>>>, i: nat, r: seq<Element>)
    requires LastParsed(patches, i)
  {
    var names := if isInventoryPreset then ["Name", "Ref"] else ["EntityId", "TargetId", "TargetGuid"];
    var met, p := MergeAll(names, kids, patches[..i]), patches[i].value;
    && r == MergeKids(names, met, p)
    && (TidyKids(names, p) && KeepsKeys(names, met, p) ==> AbsorbsAll(names, r, p))
  }

  class Node {
    const name: string
    var attrs: seq<Attribute>
    var kids: seq<Node>
    ghost var tree: Element     // the value this node and everything below it stands for
    ghost var repr: set<Node>   // this node and everything below it

    /** The part of `Valid` that is about this node alone. */
    ghost predicate Linked()
      reads this, repr
    {
      && this in repr
      && (forall i :: 0 <= i < |kids| ==> kids[i] in repr && kids[i].repr <= repr && this !in kids[i].repr)
      && (forall i, j :: 0 <= i < j < |kids| ==> kids[i].repr !! kids[j].repr)
    }

    ghost predicate Valid()
      reads this, repr
      decreases repr
    {
      && Linked()
      && (forall i :: 0 <= i < |kids| ==> kids[i].Valid())
      && tree.name == name && tree.attrs == attrs && |tree.kids| == |kids|
      && forall i :: 0 <= i < |kids| ==> tree.kids[i] == kids[i].tree
    }

    constructor Leaf(name: string, attrs: seq<Attribute>)
      ensures Valid() && repr == {this} && tree == Element(name, attrs, [])
    {
      this.name, this.attrs, kids := name, attrs, [];
      tree, repr := Element(name, attrs, []), {this};
    }

    /** Appends a separate tree as the last child. */
    method AppendChild(node: Node)
      requires Valid() && node.Valid() && node.repr !! repr
      modifies this
      ensures Valid() && repr == old(repr) + node.repr
      ensures tree == old(tree).(kids := old(tree).kids + [node.tree])
    {
      kids := kids + [node];
      repr := repr + node.repr;
      tree := tree.(kids := tree.kids + [node.tree]);
    }

    /** A deep copy of an element of another document, as fresh nodes. */
    static method CopyOf(p: Element) returns (node: Node)
      ensures node.Valid() && fresh(node.repr) && node.tree == p
      decreases p
    {
      node := new Node.Leaf(p.name, p.attrs);
      for j := 0 to |p.kids|
        invariant node.Valid() && fresh(node.repr)
        invariant node.tree == p.(kids := p.kids[..j])
      {
        var kid := CopyOf(p.kids[j]);
        node.AppendChild(kid);
      }
    }

    method SetAttributes(patch: seq<Attribute>)
      requires Valid()
      modifies this
      ensures Valid() && repr == old(repr) && kids == old(kids)
      ensures tree == old(tree).(attrs := Overlay(old(attrs), patch))
    {
      for j := 0 to |patch|
        invariant Valid() && repr == old(repr) && kids == old(kids)
        invariant tree == old(tree).(attrs := Overlay(old(attrs), patch[..j]))
      {
        assert patch[..j + 1][..j] == patch[..j];
        var i := AttrIndex(attrs, patch[j].name);
        if i < |attrs| {
          attrs := attrs[i := patch[j]];
        } else {
          attrs := attrs + [patch[j]];
        }
        tree := tree.(attrs := attrs);
      }
      assert patch[..|patch|] == patch;
    }

    /** The first child with the name and identifier of `p`. */
    method FindChild(names: seq<string>, p: Element) returns (m: nat)
      requires Valid()
      ensures m == FindMatch(names, tree.kids, p)
    {
      var wanted := Identifier(names, p.attrs);
      m := 0;
      while m < |kids| && !(kids[m].name == p.name && Identifier(names, kids[m].attrs) == wanted)
        invariant m <= |kids|
        invariant forall j :: 0 <= j < m ==> !Matches(names, tree.kids[j], p)
      {
        m := m + 1;
      }
      FindMatchIs(names, tree.kids, p, m);
    }

    /** Merges an element of the patch into this one: attributes first, then the children. */
    method MergeElement(names: seq<string>, p: Element)
      requires Valid()
      modifies repr
      ensures Valid() && fresh(repr - old(repr))
      ensures tree == MergeNode(names, old(tree), p)
      decreases p, 0
    {
      SetAttributes(p.attrs);
      MergeChildren(names, p.kids);
    }

    /** Merges `p` into the child at `m`; the other children are not touched. */
    method MergeIntoChild(names: seq<string>, m: nat, p: Element)
      requires Valid() && m < |kids|
      modifies repr
      ensures Valid() && fresh(repr - old(repr))
      ensures tree == old(tree).(kids := old(tree).kids[m := MergeNode(names, old(tree).kids[m], p)])
      decreases p, 1
    {
      var child := kids[m];
      child.MergeElement(names, p);
      assert forall i :: 0 <= i < |kids| && i != m ==> kids[i].Valid() && kids[i].tree == old(kids[i].tree);
      repr := repr + child.repr;
      tree := tree.(kids := tree.kids[m := child.tree]);
    }

    /** Merges one child of the patch: into the child that matches it, or as a copy at the end. */
    method MergeChild(names: seq<string>, p: Element)
      requires Valid()
      modifies repr
      ensures Valid() && fresh(repr - old(repr))
      ensures tree == old(tree).(kids := MergeOne(names, old(tree).kids, p))
      decreases p, 2
    {
      var m := FindChild(names, p);
      if m < |kids| {
        MergeIntoChild(names, m, p);
      } else {
        var copy := CopyOf(p);
        AppendChild(copy);
      }
    }

    /** The recursive merge of the patch's children into this node's. */
    method MergeChildren(names: seq<string>, patch: seq<Element>)
      requires Valid()
      modifies repr
      ensures Valid() && fresh(repr - old(repr))
      ensures tree == old(tree).(kids := MergeKids(names, old(tree).kids, patch))
      decreases patch
    {
      for j := 0 to |patch|
        invariant Valid() && fresh(repr - old(repr))
        invariant tree == old(tree).(kids := MergeKids(names, old(tree).kids, patch[..j]))
      {
        assert patch[..j + 1][..j] == patch[..j];
        MergeChild(names, patch[j]);
      }
      assert patch[..|patch|] == patch;
    }

    /** The whole patch run on a parsed document. */
    method ApplyPatches(isInventoryPreset: bool, patches: seq<Option<seq<Element>>>)
      requires Valid()
      modifies repr
      ensures Valid() && fresh(repr - old(repr))
      ensures tree.name == old(tree).name && tree.attrs == old(tree).attrs
      ensures tree.kids == MergeAll(KeyAttributes(isInventoryPreset), old(tree).kids, patches)
      ensures forall i :: LastParsed(patches, i) ==> IsLastMerge(isInventoryPreset, old(tree).kids, patches, i, tree.kids)
      ensures (forall x :: x in patches ==> x.None?) ==> tree == old(tree)
    {
      for j := 0 to |patches|
        invariant Valid() && fresh(repr - old(repr))
        invariant tree == old(tree).(kids := MergeAll(KeyAttributes(isInventoryPreset), old(tree).kids, patches[..j]))
      {
        assert patches[..j + 1][..j] == patches[..j];
        match patches[j] {
          case Some(patch) => MergeChildren(KeyAttributes(isInventoryPreset), patch);
          case None =>
        }
      }
      assert patches[..|patches|] == patches;
      ghost var names, kids := KeyAttributes(isInventoryPreset), old(tree).kids;
      forall i | LastParsed(patches, i) ensures IsLastMerge(isInventoryPreset, kids, patches, i, tree.kids) {
        LastPatchIsInForce(names, kids, patches, i);
      }
      if forall x :: x in patches ==> x.None? { NothingParsed(names, kids, patches); }
    }
  }
}
