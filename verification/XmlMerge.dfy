/** The XML patch merger: what one run of the patch loop does to a list of sibling
    elements, and when running it again changes nothing. */
module XmlMerge {
  import opened Common

  datatype Attribute = Attribute(name: string, value: string)

  datatype Element = Element(name: string, attrs: seq<Attribute>, kids: seq<Element>)

  // ---------- attributes ----------

  /** The position of the first attribute with the given name, or the length if there is none. */
  function AttrIndex(attrs: seq<Attribute>, name: string): (i: nat)
    ensures i <= |attrs|
    ensures i < |attrs| ==> attrs[i].name == name
    ensures forall j :: 0 <= j < i ==> attrs[j].name != name
  {
    if attrs == [] || attrs[0].name == name then 0 else 1 + AttrIndex(attrs[1..], name)
  }

  function Lookup(attrs: seq<Attribute>, name: string): Option<string> {
    var i := AttrIndex(attrs, name);
    if i < |attrs| then Some(attrs[i].value) else None
  }

  /** An absent attribute reads as the empty string. */
  function Value(attrs: seq<Attribute>, name: string): string {
    match Lookup(attrs, name)
    case Some(v) => v
    case None => ""
  }

  function SetAttribute(attrs: seq<Attribute>, a: Attribute): seq<Attribute> {
    var i := AttrIndex(attrs, a.name);
    if i < |attrs| then attrs[i := a] else attrs + [a]
  }

  function Overlay(attrs: seq<Attribute>, patch: seq<Attribute>): seq<Attribute> {
    if patch == [] then attrs
    else SetAttribute(Overlay(attrs, patch[..|patch| - 1]), patch[|patch| - 1])
  }

  // ---------- identifiers and matching ----------

  /** The attributes that identify an element, in an inventory preset and in a mission's objects. The
      merge and everything said about it hold for any list of names. */
  function KeyAttributes(isInventoryPreset: bool): seq<string> {
    if isInventoryPreset then PRESET_KEYS else ["EntityId", "TargetId", "TargetGuid"]
  }

  const PRESET_KEYS := ["Name", "Ref"]

  /** The values of the named attributes, concatenated without a separator. */
  function Identifier(names: seq<string>, attrs: seq<Attribute>): string {
    if names == [] then "" else Value(attrs, names[0]) + Identifier(names[1..], attrs)
  }

  function Key(names: seq<string>, e: Element): (string, string) {
    (e.name, Identifier(names, e.attrs))
  }

  predicate Matches(names: seq<string>, a: Element, b: Element) {
    Key(names, a) == Key(names, b)
  }

  /** The position of the first child that matches `p`, or the length if there is none. */
  function FindMatch(names: seq<string>, kids: seq<Element>, p: Element): (i: nat)
    ensures i <= |kids|
    ensures i < |kids| ==> Matches(names, kids[i], p)
    ensures forall j :: 0 <= j < i ==> !Matches(names, kids[j], p)
  {
    if kids == [] || Matches(names, kids[0], p) then 0 else 1 + FindMatch(names, kids[1..], p)
  }

  lemma FindMatchIs(names: seq<string>, kids: seq<Element>, p: Element, i: nat)
    requires i <= |kids|
    requires i < |kids| ==> Matches(names, kids[i], p)
    requires forall j :: 0 <= j < i ==> !Matches(names, kids[j], p)
    ensures FindMatch(names, kids, p) == i
  {
  }

  // ---------- the merge ----------

  function MergeNode(names: seq<string>, base: Element, patch: Element): Element
    decreases patch, 0
  {
    Element(base.name, Overlay(base.attrs, patch.attrs), MergeKids(names, base.kids, patch.kids))
  }

  function MergeOne(names: seq<string>, kids: seq<Element>, p: Element): seq<Element>
    decreases p, 1
  {
    var i := FindMatch(names, kids, p);
    if i < |kids| then kids[i := MergeNode(names, kids[i], p)] else kids + [p]
  }

  function MergeKids(names: seq<string>, kids: seq<Element>, patch: seq<Element>): seq<Element>
    decreases patch
  {
    if patch == [] then kids
    else MergeOne(names, MergeKids(names, kids, patch[..|patch| - 1]), patch[|patch| - 1])
  }

  // ---------- hypotheses a caller can check before merging ----------

  predicate DistinctNames(attrs: seq<Attribute>) {
    forall i, j :: 0 <= i < j < |attrs| ==> attrs[i].name != attrs[j].name
  }

  predicate DistinctKeys(names: seq<string>, kids: seq<Element>) {
    forall i, j :: 0 <= i < j < |kids| ==> !Matches(names, kids[i], kids[j])
  }

  /** No two siblings of the patch share a key, and no element repeats an attribute name, at any depth. */
  predicate Tidy(names: seq<string>, p: Element) {
    DistinctNames(p.attrs) && TidyKids(names, p.kids)
  }

  predicate TidyKids(names: seq<string>, patch: seq<Element>) {
    DistinctKeys(names, patch) && forall p :: p in patch ==> Tidy(names, p)
  }

  /** Overlaying the patch attributes leaves the concatenated identifier of the element as it was. */
  predicate KeepsKey(names: seq<string>, base: Element, p: Element) {
    Key(names, base.(attrs := Overlay(base.attrs, p.attrs))) == Key(names, base)
  }

  /** Every element the patch merges into keeps its identifier, at any depth. */
  predicate KeepsKeys(names: seq<string>, kids: seq<Element>, patch: seq<Element>) {
    forall p :: p in patch ==>
      var m := FindMatch(names, kids, p);
      m < |kids| ==> KeepsKey(names, kids[m], p) && KeepsKeys(names, kids[m].kids, p.kids)
  }

  // ---------- what it means for a patch to be in force already ----------

  predicate HasAll(attrs: seq<Attribute>, patch: seq<Attribute>) {
    forall a :: a in patch ==> Lookup(attrs, a.name) == Some(a.value)
  }

  /** `base` carries every attribute value of `p`, and so on down for the children `p` names. */
  predicate Absorbs(names: seq<string>, base: Element, p: Element)
    decreases p, 0
  {
    HasAll(base.attrs, p.attrs) && AbsorbsAll(names, base.kids, p.kids)
  }

  predicate AbsorbsAll(names: seq<string>, kids: seq<Element>, patch: seq<Element>)
    decreases patch
  {
    forall p :: p in patch ==>
      var m := FindMatch(names, kids, p);
      m < |kids| && Absorbs(names, kids[m], p)
  }

  // ---------- attribute lemmas ----------

  lemma AttrIndexIs(attrs: seq<Attribute>, name: string, i: nat)
    requires i <= |attrs|
    requires i < |attrs| ==> attrs[i].name == name
    requires forall j :: 0 <= j < i ==> attrs[j].name != name
    ensures AttrIndex(attrs, name) == i
  {
  }

  lemma SetAttributeLookup(attrs: seq<Attribute>, a: Attribute, name: string)
    ensures Lookup(SetAttribute(attrs, a), name) == if name == a.name then Some(a.value) else Lookup(attrs, name)
  {
    var i, r := AttrIndex(attrs, a.name), SetAttribute(attrs, a);
    if name == a.name {
      AttrIndexIs(r, name, i);
    } else {
      var j := AttrIndex(attrs, name);
      AttrIndexIs(r, name, if j < |attrs| then j else |r|);
    }
  }

  /** Overlay sets exactly the patch's attributes and reads through to the base for every other name. */
  lemma {:induction false} OverlayLookup(attrs: seq<Attribute>, patch: seq<Attribute>, name: string)
    requires DistinctNames(patch)
    ensures Lookup(Overlay(attrs, patch), name) ==
            if Lookup(patch, name).Some? then Lookup(patch, name) else Lookup(attrs, name)
  {
    if patch != [] {
      var front, a := patch[..|patch| - 1], patch[|patch| - 1];
      assert patch == front + [a];
      OverlayLookup(attrs, front, name);
      SetAttributeLookup(Overlay(attrs, front), a, name);
      if name == a.name {
        AttrIndexIs(patch, name, |patch| - 1);
      } else {
        var j := AttrIndex(front, name);
        AttrIndexIs(patch, name, if j < |front| then j else |patch|);
      }
    }
  }

  /** Overlay keeps every base attribute at its position under its name, and only appends. */
  lemma {:induction false} OverlayKeepsNames(attrs: seq<Attribute>, patch: seq<Attribute>)
    ensures var r := Overlay(attrs, patch);
            |r| >= |attrs| && forall i :: 0 <= i < |attrs| ==> r[i].name == attrs[i].name
  {
    if patch != [] { OverlayKeepsNames(attrs, patch[..|patch| - 1]); }
  }

  lemma LookupMember(attrs: seq<Attribute>, a: Attribute)
    requires DistinctNames(attrs) && a in attrs
    ensures Lookup(attrs, a.name) == Some(a.value)
  {
    var i :| 0 <= i < |attrs| && attrs[i] == a;
    AttrIndexIs(attrs, a.name, i);
  }

  lemma {:induction false} OverlayAbsorbed(attrs: seq<Attribute>, patch: seq<Attribute>)
    requires HasAll(attrs, patch)
    ensures Overlay(attrs, patch) == attrs
  {
    if patch != [] {
      var front, a := patch[..|patch| - 1], patch[|patch| - 1];
      assert a in patch && forall x :: x in front ==> x in patch;
      OverlayAbsorbed(attrs, front);
    }
  }

  lemma OverlayHasAll(attrs: seq<Attribute>, patch: seq<Attribute>)
    requires DistinctNames(patch)
    ensures HasAll(Overlay(attrs, patch), patch)
  {
    forall a | a in patch ensures Lookup(Overlay(attrs, patch), a.name) == Some(a.value) {
      LookupMember(patch, a);
      OverlayLookup(attrs, patch, a.name);
    }
  }

  /** A merged element keeps its name, reads every attribute of the patch element and its own otherwise. */
  lemma MergedNodeReads(names: seq<string>, base: Element, p: Element, name: string)
    requires DistinctNames(p.attrs)
    ensures var r := MergeNode(names, base, p);
            && r.name == base.name && r.kids == MergeKids(names, base.kids, p.kids)
            && (forall a :: a in p.attrs && a.name == name ==> Lookup(r.attrs, name) == Some(a.value))
            && ((forall a :: a in p.attrs ==> a.name != name) ==> Lookup(r.attrs, name) == Lookup(base.attrs, name))
  {
    OverlayLookup(base.attrs, p.attrs, name);
    forall a | a in p.attrs && a.name == name ensures Lookup(p.attrs, name) == Some(a.value) { LookupMember(p.attrs, a); }
    if forall a :: a in p.attrs ==> a.name != name { AttrIndexIs(p.attrs, name, |p.attrs|); }
  }

  // ---------- one sibling list: the fold is a pointwise merge ----------

  /** What the merge leaves at base position `k`: the base child merged with the patch child that
      finds it, or the base child itself. */
  function MergedAt(names: seq<string>, kids: seq<Element>, patch: seq<Element>, k: nat): Element
    requires k < |kids|
  {
    if patch == [] then kids[k]
    else if FindMatch(names, kids, patch[|patch| - 1]) == k then MergeNode(names, kids[k], patch[|patch| - 1])
    else MergedAt(names, kids, patch[..|patch| - 1], k)
  }

  /** The patch children that find no base child, in patch order. */
  function Appended(names: seq<string>, kids: seq<Element>, patch: seq<Element>): seq<Element> {
    if patch == [] then []
    else
      var p := patch[|patch| - 1];
      Appended(names, kids, patch[..|patch| - 1]) + if FindMatch(names, kids, p) < |kids| then [] else [p]
  }

  predicate KeepsSiblingKeys(names: seq<string>, kids: seq<Element>, patch: seq<Element>) {
    forall p :: p in patch ==>
      var m := FindMatch(names, kids, p);
      m < |kids| ==> KeepsKey(names, kids[m], p)
  }

  lemma {:induction false} AppendedComeFromPatch(names: seq<string>, kids: seq<Element>, patch: seq<Element>)
    ensures forall x :: x in Appended(names, kids, patch) ==> x in patch
  {
    if patch != [] { AppendedComeFromPatch(names, kids, patch[..|patch| - 1]); }
  }

  lemma {:induction false} MergedAtKeepsKey(names: seq<string>, kids: seq<Element>, patch: seq<Element>, k: nat)
    requires k < |kids| && KeepsSiblingKeys(names, kids, patch)
    ensures Matches(names, MergedAt(names, kids, patch, k), kids[k])
  {
    if patch != [] && FindMatch(names, kids, patch[|patch| - 1]) != k {
      MergedAtKeepsKey(names, kids, patch[..|patch| - 1], k);
    }
  }

  lemma {:induction false} NobodyFinds(names: seq<string>, kids: seq<Element>, patch: seq<Element>, k: nat)
    requires k < |kids|
    requires forall p :: p in patch ==> FindMatch(names, kids, p) != k
    ensures MergedAt(names, kids, patch, k) == kids[k]
  {
    if patch != [] {
      NobodyFinds(names, kids, patch[..|patch| - 1], k);
    }
  }

  /** `r` is the pointwise merge of the base children followed by the unmatched patch children. */
  ghost predicate IsPointwiseMerge(names: seq<string>, kids: seq<Element>, patch: seq<Element>, r: seq<Element>) {
    && |r| >= |kids|
    && (forall k :: 0 <= k < |kids| ==> r[k] == MergedAt(names, kids, patch, k))
    && r[|kids|..] == Appended(names, kids, patch)
  }

  /** In a merged list, a further patch child still finds the element it finds in the base. */
  lemma FindsSameElement(names: seq<string>, kids: seq<Element>, front: seq<Element>, p: Element, r: seq<Element>)
    requires IsPointwiseMerge(names, kids, front, r) && KeepsSiblingKeys(names, kids, front)
    requires forall q :: q in front ==> !Matches(names, q, p)
    ensures var m := FindMatch(names, kids, p);
            FindMatch(names, r, p) == (if m < |kids| then m else |r|) && (m < |kids| ==> r[m] == kids[m])
  {
    var m := FindMatch(names, kids, p);
    forall k | 0 <= k < |kids| ensures Matches(names, r[k], kids[k]) { MergedAtKeepsKey(names, kids, front, k); }
    AppendedAreOthers(names, kids, front, p, r);
    FindMatchIs(names, r, p, if m < |kids| then m else |r|);
    if m < |kids| {
      NobodyFinds(names, kids, front, m);
    }
  }

  lemma AppendedAreOthers(names: seq<string>, kids: seq<Element>, front: seq<Element>, p: Element, r: seq<Element>)
    requires |r| >= |kids| && r[|kids|..] == Appended(names, kids, front)
    requires forall q :: q in front ==> !Matches(names, q, p)
    ensures forall k :: |kids| <= k < |r| ==> !Matches(names, r[k], p)
  {
    AppendedComeFromPatch(names, kids, front);
    forall k | |kids| <= k < |r| ensures !Matches(names, r[k], p) {
      assert r[k] == r[|kids|..][k - |kids|];
    }
  }

  lemma LastIsDistinct(names: seq<string>, patch: seq<Element>)
    requires DistinctKeys(names, patch) && patch != []
    ensures var front, p := patch[..|patch| - 1], patch[|patch| - 1];
            && patch == front + [p] && p in patch && DistinctKeys(names, front)
            && forall q :: q in front ==> q in patch && !Matches(names, q, p)
  {
  }

  /** With distinct patch keys and kept identifiers, merging sibling by sibling never interferes. */
  lemma {:induction false} MergeIsPointwise(names: seq<string>, kids: seq<Element>, patch: seq<Element>)
    requires DistinctKeys(names, patch) && KeepsSiblingKeys(names, kids, patch)
    ensures IsPointwiseMerge(names, kids, patch, MergeKids(names, kids, patch))
  {
    if patch != [] {
      var front, p := patch[..|patch| - 1], patch[|patch| - 1];
      LastIsDistinct(names, patch);
      MergeIsPointwise(names, kids, front);
      var r := MergeKids(names, kids, front);
      FindsSameElement(names, kids, front, p, r);
      PointwiseNext(names, kids, front, p, r);
    }
  }

  lemma PointwiseNext(names: seq<string>, kids: seq<Element>, front: seq<Element>, p: Element, r: seq<Element>)
    requires IsPointwiseMerge(names, kids, front, r)
    requires var m := FindMatch(names, kids, p);
             FindMatch(names, r, p) == (if m < |kids| then m else |r|) && (m < |kids| ==> r[m] == kids[m])
    ensures IsPointwiseMerge(names, kids, front + [p], MergeOne(names, r, p))
  {
    var s := MergeOne(names, r, p);
    assert (front + [p])[..|front|] == front;
    assert s[|kids|..] == r[|kids|..] + if FindMatch(names, kids, p) < |kids| then [] else [p];
  }

  // ---------- the patch wins, nothing is lost, and a second run changes nothing ----------

  /** A patch that is in force already changes nothing. */
  lemma {:induction false} AbsorbedNode(names: seq<string>, base: Element, p: Element)
    requires Absorbs(names, base, p)
    ensures MergeNode(names, base, p) == base
    decreases p, 0
  {
    OverlayAbsorbed(base.attrs, p.attrs);
    AbsorbedKids(names, base.kids, p.kids);
  }

  lemma {:induction false} AbsorbedKids(names: seq<string>, kids: seq<Element>, patch: seq<Element>)
    requires AbsorbsAll(names, kids, patch)
    ensures MergeKids(names, kids, patch) == kids
    decreases patch
  {
    if patch != [] {
      var front, p := patch[..|patch| - 1], patch[|patch| - 1];
      assert p in patch && forall q :: q in front ==> q in patch;
      AbsorbedKids(names, kids, front);
      AbsorbedNode(names, kids[FindMatch(names, kids, p)], p);
    }
  }

  /** A tidy element absorbs itself, so a copied subtree is already merged. */
  lemma {:induction false} TidyAbsorbsItself(names: seq<string>, p: Element)
    requires Tidy(names, p)
    ensures Absorbs(names, p, p)
  {
    forall a | a in p.attrs ensures Lookup(p.attrs, a.name) == Some(a.value) { LookupMember(p.attrs, a); }
    forall q | q in p.kids
      ensures var m := FindMatch(names, p.kids, q); m < |p.kids| && Absorbs(names, p.kids[m], q)
    {
      var i :| 0 <= i < |p.kids| && p.kids[i] == q;
      FindMatchIs(names, p.kids, q, i);
      TidyAbsorbsItself(names, q);
    }
  }

  lemma {:induction false} AppendedHas(names: seq<string>, kids: seq<Element>, patch: seq<Element>, p: Element)
    requires p in patch && FindMatch(names, kids, p) == |kids|
    ensures p in Appended(names, kids, patch)
  {
    if p != patch[|patch| - 1] {
      var i :| 0 <= i < |patch| && patch[i] == p;
      assert patch[..|patch| - 1][i] == p;
      AppendedHas(names, kids, patch[..|patch| - 1], p);
    }
  }

  lemma {:induction false} MergedAtFinder(names: seq<string>, kids: seq<Element>, patch: seq<Element>, p: Element)
    requires DistinctKeys(names, patch) && p in patch && FindMatch(names, kids, p) < |kids|
    ensures var m := FindMatch(names, kids, p);
            MergedAt(names, kids, patch, m) == MergeNode(names, kids[m], p)
  {
    var last := patch[|patch| - 1];
    var i :| 0 <= i < |patch| && patch[i] == p;
    if i < |patch| - 1 {
      assert patch[..|patch| - 1][i] == p;
      assert !Matches(names, p, last);
      assert FindMatch(names, kids, last) != FindMatch(names, kids, p);
      MergedAtFinder(names, kids, patch[..|patch| - 1], p);
    }
  }

  lemma SameKeySameSibling(names: seq<string>, patch: seq<Element>, p: Element, q: Element)
    requires DistinctKeys(names, patch) && p in patch && q in patch && Matches(names, p, q)
    ensures p == q
  {
    var i :| 0 <= i < |patch| && patch[i] == p;
    var j :| 0 <= j < |patch| && patch[j] == q;
  }

  lemma CounterpartOfAppended(names: seq<string>, kids: seq<Element>, patch: seq<Element>, p: Element, r: seq<Element>)
    requires DistinctKeys(names, patch)
    requires |r| >= |kids| && r[|kids|..] == Appended(names, kids, patch)
    requires forall k :: 0 <= k < |kids| ==> !Matches(names, r[k], p)
    requires p in patch && FindMatch(names, kids, p) == |kids|
    ensures var n := FindMatch(names, r, p); |kids| <= n < |r| && r[n] == p
  {
    AppendedHas(names, kids, patch, p);
    AppendedComeFromPatch(names, kids, patch);
    var n := FindMatch(names, r, p);
    assert p in r[|kids|..];
    assert r[n] in r[|kids|..];
    SameKeySameSibling(names, patch, r[n], p);
  }

  /** Every patch child has a counterpart in the merged list: the base child it found, merged, or its own copy. */
  lemma CounterpartOf(names: seq<string>, kids: seq<Element>, patch: seq<Element>, p: Element)
    requires DistinctKeys(names, patch) && KeepsSiblingKeys(names, kids, patch) && p in patch
    ensures var r, m := MergeKids(names, kids, patch), FindMatch(names, kids, p);
            var n := FindMatch(names, r, p);
            if m < |kids| then n == m < |r| && r[n] == MergeNode(names, kids[m], p)
            else |kids| <= n < |r| && r[n] == p
  {
    MergeIsPointwise(names, kids, patch);
    var r, m := MergeKids(names, kids, patch), FindMatch(names, kids, p);
    forall k | 0 <= k < |kids| ensures Matches(names, r[k], kids[k]) { MergedAtKeepsKey(names, kids, patch, k); }
    if m < |kids| {
      MergedAtFinder(names, kids, patch, p);
      FindMatchIs(names, r, p, m);
    } else {
      CounterpartOfAppended(names, kids, patch, p, r);
    }
  }

  /** Patch wins: after the merge every patch node has a counterpart that carries its values, at every depth. */
  lemma {:induction false} PatchWins(names: seq<string>, kids: seq<Element>, patch: seq<Element>)
    requires TidyKids(names, patch) && KeepsKeys(names, kids, patch)
    ensures AbsorbsAll(names, MergeKids(names, kids, patch), patch)
    decreases patch
  {
    var r := MergeKids(names, kids, patch);
    forall p | p in patch
      ensures var n := FindMatch(names, r, p); n < |r| && Absorbs(names, r[n], p)
    {
      CounterpartOf(names, kids, patch, p);
      var m := FindMatch(names, kids, p);
      if m < |kids| {
        OverlayHasAll(kids[m].attrs, p.attrs);
        PatchWins(names, kids[m].kids, p.kids);
      } else {
        TidyAbsorbsItself(names, p);
      }
    }
  }

  /** Merging a tidy patch twice gives the same tree as merging it once. */
  lemma MergeIsIdempotent(names: seq<string>, kids: seq<Element>, patch: seq<Element>)
    requires TidyKids(names, patch) && KeepsKeys(names, kids, patch)
    ensures var once := MergeKids(names, kids, patch); MergeKids(names, once, patch) == once
  {
    PatchWins(names, kids, patch);
    AbsorbedKids(names, MergeKids(names, kids, patch), patch);
  }

  // ---------- exactly when ----------

  /** Every identifying attribute that `p` leaves out is absent or empty in `base`. */
  predicate OmitsOnlyEmpty(names: seq<string>, base: seq<Attribute>, p: seq<Attribute>) {
    forall n :: n in names && Lookup(p, n).None? ==> Value(base, n) == ""
  }

  /** An overlay never shortens the identifier below the patch's, and reaches it only when nothing is carried over. */
  lemma {:induction false} OverlaidIdentifier(names: seq<string>, base: seq<Attribute>, p: seq<Attribute>)
    requires DistinctNames(p)
    ensures |Identifier(names, Overlay(base, p))| >= |Identifier(names, p)|
    ensures |Identifier(names, Overlay(base, p))| == |Identifier(names, p)| <==> OmitsOnlyEmpty(names, base, p)
    ensures OmitsOnlyEmpty(names, base, p) ==> Identifier(names, Overlay(base, p)) == Identifier(names, p)
  {
    if names != [] {
      OverlayLookup(base, p, names[0]);
      OverlaidIdentifier(names[1..], base, p);
      assert OmitsOnlyEmpty(names, base, p) <==>
             (Lookup(p, names[0]).None? ==> Value(base, names[0]) == "") && OmitsOnlyEmpty(names[1..], base, p);
    }
  }

  function KeyLength(names: seq<string>, e: Element): nat {
    |Identifier(names, e.attrs)|
  }

  /** A merged element keeps its identifier exactly when the base has nothing in the identifying
      attributes the patch leaves out; otherwise its identifier gets strictly longer. */
  lemma KeepsKeyExactly(names: seq<string>, base: Element, p: Element)
    requires Matches(names, base, p) && DistinctNames(p.attrs)
    ensures KeepsKey(names, base, p) <==> OmitsOnlyEmpty(names, base.attrs, p.attrs)
    ensures !KeepsKey(names, base, p) ==> KeyLength(names, MergeNode(names, base, p)) > KeyLength(names, base)
    ensures KeyLength(names, MergeNode(names, base, p)) >= KeyLength(names, base)
  {
    OverlaidIdentifier(names, base.attrs, p.attrs);
  }

  /** Merging never shortens the sibling list, nor the identifier at any position. */
  lemma {:induction false} KeysOnlyGrow(names: seq<string>, kids: seq<Element>, patch: seq<Element>)
    requires TidyKids(names, patch)
    ensures var r := MergeKids(names, kids, patch);
            |r| >= |kids| && forall k :: 0 <= k < |kids| ==> KeyLength(names, r[k]) >= KeyLength(names, kids[k])
  {
    if patch != [] {
      var front, p := patch[..|patch| - 1], patch[|patch| - 1];
      assert p in patch && forall q :: q in front ==> q in patch;
      KeysOnlyGrow(names, kids, front);
      var r := MergeKids(names, kids, front);
      var m := FindMatch(names, r, p);
      if m < |r| { KeepsKeyExactly(names, r[m], p); }
    }
  }

  lemma LastKeptItsKey(names: seq<string>, kids: seq<Element>, front: seq<Element>, p: Element)
    requires DistinctKeys(names, front) && KeepsSiblingKeys(names, kids, front) && DistinctNames(p.attrs)
    requires forall q :: q in front ==> !Matches(names, q, p)
    requires var m := FindMatch(names, kids, p); m < |kids| ==> KeyLength(names, MergeNode(names, kids[m], p)) == KeyLength(names, kids[m])
    ensures KeepsSiblingKeys(names, kids, front + [p])
  {
    var m := FindMatch(names, kids, p);
    if m < |kids| { KeepsKeyExactly(names, kids[m], p); }
    forall q | q in front + [p]
      ensures var n := FindMatch(names, kids, q); n < |kids| ==> KeepsKey(names, kids[n], q)
    {
      if q != p { assert q in front; }
    }
  }

  lemma {:induction false} UngrownKeysWereKept(names: seq<string>, kids: seq<Element>, patch: seq<Element>)
    requires TidyKids(names, patch)
    requires SameKeyLengths(names, kids, MergeKids(names, kids, patch))
    ensures KeepsSiblingKeys(names, kids, patch)
  {
    if patch != [] {
      var front, p := patch[..|patch| - 1], patch[|patch| - 1];
      LastIsDistinct(names, patch);
      var r := MergeKids(names, kids, front);
      KeysOnlyGrow(names, kids, front);
      NoneGrewLast(names, kids, r, p);
      UngrownKeysWereKept(names, kids, front);
      MergeIsPointwise(names, kids, front);
      FindsSameElement(names, kids, front, p, r);
      LastKeptItsKey(names, kids, front, p);
    }
  }

  predicate SameKeyLengths(names: seq<string>, kids: seq<Element>, r: seq<Element>) {
    |r| >= |kids| && forall k :: 0 <= k < |kids| ==> KeyLength(names, r[k]) == KeyLength(names, kids[k])
  }

  /** If one more element leaves all key lengths where they started, it found them there. */
  lemma NoneGrewLast(names: seq<string>, kids: seq<Element>, r: seq<Element>, p: Element)
    requires DistinctNames(p.attrs) && |r| >= |kids|
    requires forall k :: 0 <= k < |kids| ==> KeyLength(names, r[k]) >= KeyLength(names, kids[k])
    requires SameKeyLengths(names, kids, MergeOne(names, r, p))
    ensures SameKeyLengths(names, kids, r)
    ensures var n := FindMatch(names, r, p); n < |kids| ==> KeyLength(names, MergeNode(names, r[n], p)) == KeyLength(names, r[n])
  {
    var n := FindMatch(names, r, p);
    if n < |r| { KeepsKeyExactly(names, r[n], p); }
    forall k | 0 <= k < |kids| ensures KeyLength(names, r[k]) == KeyLength(names, kids[k]) {
      assert MergeOne(names, r, p)[k] == if k == n then MergeNode(names, r[n], p) else r[k];
    }
  }

  /** A tidy patch leaves a sibling list alone only when it was in force already. */
  lemma {:induction false} UnchangedWasAbsorbed(names: seq<string>, kids: seq<Element>, patch: seq<Element>)
    requires TidyKids(names, patch) && MergeKids(names, kids, patch) == kids
    ensures AbsorbsAll(names, kids, patch)
    decreases patch
  {
    UngrownKeysWereKept(names, kids, patch);
    forall p | p in patch
      ensures var m := FindMatch(names, kids, p); m < |kids| && Absorbs(names, kids[m], p)
    {
      CounterpartOf(names, kids, patch, p);
      var m := FindMatch(names, kids, p);
      OverlayHasAll(kids[m].attrs, p.attrs);
      UnchangedWasAbsorbed(names, kids[m].kids, p.kids);
    }
  }

  /** For every tidy patch and every base, colliding identifiers included: a second merge changes
      nothing exactly when the first one left the whole patch in force. */
  lemma IdempotentExactlyWhenPatchWins(names: seq<string>, kids: seq<Element>, patch: seq<Element>)
    requires TidyKids(names, patch)
    ensures var once := MergeKids(names, kids, patch);
            MergeKids(names, once, patch) == once <==> AbsorbsAll(names, once, patch)
  {
    var once := MergeKids(names, kids, patch);
    if MergeKids(names, once, patch) == once {
      UnchangedWasAbsorbed(names, once, patch);
    } else if AbsorbsAll(names, once, patch) {
      AbsorbedKids(names, once, patch);
    }
  }

  lemma UnchangedNodeWasAbsorbed(names: seq<string>, base: Element, p: Element)
    requires Tidy(names, p)
    ensures MergeNode(names, base, p) == base <==> Absorbs(names, base, p)
  {
    if MergeNode(names, base, p) == base {
      OverlayHasAll(base.attrs, p.attrs);
      UnchangedWasAbsorbed(names, base.kids, p.kids);
    } else if Absorbs(names, base, p) {
      AbsorbedNode(names, base, p);
    }
  }

  /** The sibling that `p` finds carries it already. */
  predicate InForce(names: seq<string>, kids: seq<Element>, p: Element) {
    var n := FindMatch(names, kids, p);
    n < |kids| && Absorbs(names, kids[n], p)
  }

  lemma UnchangedListHadIt(names: seq<string>, kids: seq<Element>, p: Element)
    requires Tidy(names, p)
    ensures MergeOne(names, kids, p) == kids <==> InForce(names, kids, p)
  {
    var n, r := FindMatch(names, kids, p), MergeOne(names, kids, p);
    if n < |kids| {
      UnchangedNodeWasAbsorbed(names, kids[n], p);
      assert r[n] == MergeNode(names, kids[n], p);
    } else {
      assert |r| == |kids| + 1;
    }
  }

  lemma {:induction false} FindMatchBehind(names: seq<string>, before: seq<Element>, rest: seq<Element>, p: Element)
    requires forall e {:trigger Matches(names, e, p)} :: e in before ==> !Matches(names, e, p)
    ensures FindMatch(names, before + rest, p) == |before| + FindMatch(names, rest, p)
  {
    if before == [] {
      assert before + rest == rest;
    } else {
      assert before[0] in before;
      FindMatchBehind(names, before[1..], rest, p);
      assert (before + rest)[1..] == before[1..] + rest;
    }
  }

  lemma SameMatchSameForce(names: seq<string>, a: seq<Element>, b: seq<Element>, p: Element)
    requires var i, j := FindMatch(names, a, p), FindMatch(names, b, p);
             (i < |a| <==> j < |b|) && (i < |a| ==> a[i] == b[j])
    ensures InForce(names, a, p) <==> InForce(names, b, p)
  {
  }

  lemma InForceBehind(names: seq<string>, before: seq<Element>, rest: seq<Element>, p: Element)
    requires forall e {:trigger Matches(names, e, p)} :: e in before ==> !Matches(names, e, p)
    ensures InForce(names, before + rest, p) <==> InForce(names, rest, p)
  {
    FindMatchBehind(names, before, rest, p);
    SameMatchSameForce(names, before + rest, rest, p);
  }

  lemma MovedAway(names: seq<string>, base: Element, p: Element)
    requires DistinctNames(p.attrs) && Matches(names, base, p) && !KeepsKey(names, base, p)
    ensures !Matches(names, MergeNode(names, base, p), p)
  {
    KeepsKeyExactly(names, base, p);
    assert KeyLength(names, MergeNode(names, base, p)) > KeyLength(names, p);
  }

  lemma UpdateSplits<T>(s: seq<T>, m: nat, x: T)
    requires m < |s|
    ensures s[m := x] == s[..m] + [x] + s[m + 1..]
  {
  }

  /** An element whose identifier changed is out of the way: the next search goes on behind it. */
  lemma SearchesOnBehind(names: seq<string>, kids: seq<Element>, p: Element, m: nat)
    requires DistinctNames(p.attrs) && m == FindMatch(names, kids, p) < |kids| && !KeepsKey(names, kids[m], p)
    ensures InForce(names, MergeOne(names, kids, p), p) <==> InForce(names, kids[m + 1..], p)
  {
    var now := MergeNode(names, kids[m], p);
    MovedAway(names, kids[m], p);
    InForceBehind(names, kids[..m] + [now], kids[m + 1..], p);
    UpdateSplits(kids, m, now);
  }

  /** A second merge of the patch changes nothing. */
  predicate Settles(names: seq<string>, kids: seq<Element>, patch: seq<Element>) {
    var once := MergeKids(names, kids, patch);
    MergeKids(names, once, patch) == once
  }

  /** A merged element carries the whole of `p` exactly when the merge of the children settles. */
  lemma NodeWinsExactly(names: seq<string>, base: Element, p: Element)
    requires Tidy(names, p)
    ensures Absorbs(names, MergeNode(names, base, p), p) <==> Settles(names, base.kids, p.kids)
  {
    IdempotentExactlyWhenPatchWins(names, base.kids, p.kids);
    OverlayHasAll(base.attrs, p.attrs);
  }

  lemma FoundAgain(names: seq<string>, kids: seq<Element>, p: Element, m: nat)
    requires m == FindMatch(names, kids, p) < |kids| && KeepsKey(names, kids[m], p)
    ensures var once := MergeOne(names, kids, p);
            FindMatch(names, once, p) == m < |once| && once[m] == MergeNode(names, kids[m], p)
  {
    assert Key(names, MergeNode(names, kids[m], p)) == Key(names, kids[m]);
    FindMatchIs(names, MergeOne(names, kids, p), p, m);
  }

  lemma KeptIsInForce(names: seq<string>, kids: seq<Element>, p: Element, m: nat)
    requires Tidy(names, p) && m == FindMatch(names, kids, p) < |kids| && KeepsKey(names, kids[m], p)
    ensures InForce(names, MergeOne(names, kids, p), p) <==> Settles(names, kids[m].kids, p.kids)
  {
    FoundAgain(names, kids, p, m);
    NodeWinsExactly(names, kids[m], p);
    assert InForce(names, MergeOne(names, kids, p), p) <==> Absorbs(names, MergeNode(names, kids[m], p), p);
  }

  /** One patch element against any sibling list, told from the list before the merge: repeating the
      merge changes nothing exactly when the element is new, or the base has nothing in the identifying
      attributes it leaves out and the merge of the children settles, or it has something there and
      the next sibling with the same key carries the element already. */
  lemma RepeatedElementExactly(names: seq<string>, kids: seq<Element>, p: Element)
    requires Tidy(names, p)
    ensures var m, once := FindMatch(names, kids, p), MergeOne(names, kids, p);
            MergeOne(names, once, p) == once <==>
            || m == |kids|
            || if OmitsOnlyEmpty(names, kids[m].attrs, p.attrs) then Settles(names, kids[m].kids, p.kids)
               else InForce(names, kids[m + 1..], p)
  {
    var m, once := FindMatch(names, kids, p), MergeOne(names, kids, p);
    UnchangedListHadIt(names, once, p);
    if m == |kids| {
      FindMatchIs(names, once, p, m);
      TidyAbsorbsItself(names, p);
    } else {
      KeepsKeyExactly(names, kids[m], p);
      if KeepsKey(names, kids[m], p) {
        KeptIsInForce(names, kids, p, m);
      } else {
        SearchesOnBehind(names, kids, p, m);
      }
    }
  }

  // ---------- exactly when, told from the base and the patch alone ----------

  predicate KeepsItsMatch(names: seq<string>, kids: seq<Element>, p: Element) {
    var m := FindMatch(names, kids, p);
    m < |kids| ==> KeepsKey(names, kids[m], p)
  }

  predicate ShorterKeepTheirs(names: seq<string>, kids: seq<Element>, patch: seq<Element>, limit: nat) {
    forall q :: q in patch && KeyLength(names, q) < limit ==> KeepsItsMatch(names, kids, q)
  }

  /** Base child `k` after `front` is merged: identifiers up to `limit` come out as in the pointwise
      merge, longer ones stay longer. */
  predicate Stands(names: seq<string>, kids: seq<Element>, front: seq<Element>, limit: nat, k: nat, now: Element)
    requires k < |kids|
  {
    var at := MergedAt(names, kids, front, k);
    if KeyLength(names, at) <= limit then now == at else KeyLength(names, now) > limit
  }

  predicate StandsAll(names: seq<string>, kids: seq<Element>, front: seq<Element>, limit: nat, r: seq<Element>) {
    && |r| >= |kids|
    && (forall k :: 0 <= k < |kids| ==> Stands(names, kids, front, limit, k, r[k]))
    && forall k :: |kids| <= k < |r| ==>
         r[k] in front && (KeyLength(names, r[k]) <= limit ==> FindMatch(names, kids, r[k]) == |kids|)
  }

  /** A pointwise merge either leaves the child alone, or is the merge with the one element that finds it. */
  lemma {:induction false} MergedAtCases(names: seq<string>, kids: seq<Element>, patch: seq<Element>, k: nat)
    requires k < |kids|
    ensures var at := MergedAt(names, kids, patch, k);
            at == kids[k] || exists x :: x in patch && FindMatch(names, kids, x) == k && at == MergeNode(names, kids[k], x)
  {
    if patch != [] {
      var front, q := patch[..|patch| - 1], patch[|patch| - 1];
      assert q in patch && forall x :: x in front ==> x in patch;
      if FindMatch(names, kids, q) != k { MergedAtCases(names, kids, front, k); }
    }
  }

  /** A child whose merged identifier stays within the limit still has its own. */
  lemma ShortKeptKey(names: seq<string>, kids: seq<Element>, patch: seq<Element>, limit: nat, k: nat)
    requires k < |kids| && ShorterKeepTheirs(names, kids, patch, limit) && forall x :: x in patch ==> DistinctNames(x.attrs)
    requires KeyLength(names, MergedAt(names, kids, patch, k)) <= limit
    ensures Matches(names, MergedAt(names, kids, patch, k), kids[k])
  {
    MergedAtCases(names, kids, patch, k);
    var at := MergedAt(names, kids, patch, k);
    if at != kids[k] {
      var x :| x in patch && FindMatch(names, kids, x) == k && at == MergeNode(names, kids[k], x);
      KeepsKeyExactly(names, kids[k], x);
      assert KeepsItsMatch(names, kids, x);
      assert Key(names, at) == Key(names, kids[k]);
    }
  }

  /** Merged identifiers are never shorter than the child's own. */
  lemma MergedAtGrows(names: seq<string>, kids: seq<Element>, patch: seq<Element>, k: nat)
    requires k < |kids| && forall x :: x in patch ==> DistinctNames(x.attrs)
    ensures KeyLength(names, MergedAt(names, kids, patch, k)) >= KeyLength(names, kids[k])
  {
    MergedAtCases(names, kids, patch, k);
    if MergedAt(names, kids, patch, k) != kids[k] {
      var x :| x in patch && FindMatch(names, kids, x) == k && MergedAt(names, kids, patch, k) == MergeNode(names, kids[k], x);
      KeepsKeyExactly(names, kids[k], x);
    }
  }

  /** What holds of the next patch element `q` when `front` has been merged. */
  ghost predicate IsNext(names: seq<string>, kids: seq<Element>, front: seq<Element>, limit: nat, q: Element) {
    && DistinctNames(q.attrs) && (forall x :: x in front ==> DistinctNames(x.attrs) && !Matches(names, x, q))
    && ShorterKeepTheirs(names, kids, front + [q], limit)
  }

  lemma NobodyMetIt(names: seq<string>, kids: seq<Element>, front: seq<Element>, q: Element, k: nat)
    requires k < |kids| && Matches(names, kids[k], q)
    requires forall x :: x in front ==> !Matches(names, x, q)
    ensures MergedAt(names, kids, front, k) == kids[k]
  {
    forall x | x in front ensures FindMatch(names, kids, x) != k {}
    NobodyFinds(names, kids, front, k);
  }

  /** Within the limit, base child `k` matches the next element as it did before. */
  lemma MatchesAsInBase(names: seq<string>, kids: seq<Element>, front: seq<Element>, limit: nat, q: Element, k: nat, now: Element)
    requires k < |kids| && Stands(names, kids, front, limit, k, now)
    requires IsNext(names, kids, front, limit, q) && KeyLength(names, q) <= limit
    ensures Matches(names, now, q) <==> Matches(names, kids[k], q)
    ensures Matches(names, now, q) ==> now == kids[k]
  {
    if Matches(names, kids[k], q) {
      NobodyMetIt(names, kids, front, q, k);
    } else if Matches(names, now, q) {
      assert forall x :: x in front ==> x in front + [q];
      ShortKeptKey(names, kids, front, limit, k);
    }
  }

  lemma SameFind(names: seq<string>, kids: seq<Element>, r: seq<Element>, q: Element)
    requires |r| >= |kids|
    requires forall k :: 0 <= k < |kids| ==> (Matches(names, r[k], q) <==> Matches(names, kids[k], q))
    requires forall k :: |kids| <= k < |r| ==> !Matches(names, r[k], q)
    ensures var f := FindMatch(names, kids, q); FindMatch(names, r, q) == if f < |kids| then f else |r|
  {
    var f := FindMatch(names, kids, q);
    FindMatchIs(names, r, q, if f < |kids| then f else |r|);
  }

  /** Within the limit, the next element finds in the merged list what it finds in the base. */
  lemma FindsAsInBase(names: seq<string>, kids: seq<Element>, front: seq<Element>, limit: nat, r: seq<Element>, q: Element)
    requires StandsAll(names, kids, front, limit, r) && IsNext(names, kids, front, limit, q) && KeyLength(names, q) <= limit
    ensures var f := FindMatch(names, kids, q);
            FindMatch(names, r, q) == (if f < |kids| then f else |r|) && (f < |kids| ==> r[f] == kids[f])
  {
    forall k | 0 <= k < |kids|
      ensures Matches(names, r[k], q) <==> Matches(names, kids[k], q)
      ensures Matches(names, r[k], q) ==> r[k] == kids[k]
    {
      MatchesAsInBase(names, kids, front, limit, q, k, r[k]);
    }
    SameFind(names, kids, r, q);
  }

  lemma MergedAtNext(names: seq<string>, kids: seq<Element>, front: seq<Element>, q: Element, k: nat)
    requires k < |kids|
    ensures MergedAt(names, kids, front + [q], k) ==
            if FindMatch(names, kids, q) == k then MergeNode(names, kids[k], q) else MergedAt(names, kids, front, k)
  {
    assert (front + [q])[..|front|] == front;
  }

  lemma ShortNext(names: seq<string>, kids: seq<Element>, front: seq<Element>, limit: nat, r: seq<Element>, q: Element)
    requires StandsAll(names, kids, front, limit, r) && IsNext(names, kids, front, limit, q) && KeyLength(names, q) <= limit
    ensures StandsAll(names, kids, front + [q], limit, MergeOne(names, r, q))
  {
    FindsAsInBase(names, kids, front, limit, r, q);
    var s := MergeOne(names, r, q);
    forall k | 0 <= k < |kids| ensures Stands(names, kids, front + [q], limit, k, s[k]) {
      MergedAtNext(names, kids, front, q, k);
      assert Stands(names, kids, front, limit, k, r[k]);
    }
  }

  /** Beyond the limit, a merge only makes long identifiers longer. */
  lemma LongNextAt(names: seq<string>, kids: seq<Element>, front: seq<Element>, limit: nat, q: Element, k: nat, now: Element, met: bool)
    requires k < |kids| && Stands(names, kids, front, limit, k, now) && IsNext(names, kids, front, limit, q)
    requires KeyLength(names, q) > limit && (met ==> Matches(names, now, q))
    ensures Stands(names, kids, front + [q], limit, k, if met then MergeNode(names, now, q) else now)
  {
    MergedAtNext(names, kids, front, q, k);
    if met { KeepsKeyExactly(names, now, q); }
    if FindMatch(names, kids, q) == k {
      KeepsKeyExactly(names, kids[k], q);
      MergedAtGrows(names, kids, front, k);
    }
  }

  lemma LongNext(names: seq<string>, kids: seq<Element>, front: seq<Element>, limit: nat, r: seq<Element>, q: Element)
    requires StandsAll(names, kids, front, limit, r) && IsNext(names, kids, front, limit, q) && KeyLength(names, q) > limit
    ensures StandsAll(names, kids, front + [q], limit, MergeOne(names, r, q))
  {
    var n, s := FindMatch(names, r, q), MergeOne(names, r, q);
    assert n < |kids| || n == |r|;
    forall k | 0 <= k < |kids| ensures Stands(names, kids, front + [q], limit, k, s[k]) {
      LongNextAt(names, kids, front, limit, q, k, r[k], k == n);
    }
  }

  lemma TidyAt(names: seq<string>, kids: seq<Element>, patch: seq<Element>, limit: nat, i: nat)
    requires TidyKids(names, patch) && i < |patch| && ShorterKeepTheirs(names, kids, patch, limit)
    ensures patch[..i + 1][..i] == patch[..i] && patch[..i + 1] == patch[..i] + [patch[i]]
    ensures IsNext(names, kids, patch[..i], limit, patch[i])
  {
    assert patch[i] in patch;
    forall x | x in patch[..i] ensures DistinctNames(x.attrs) && !Matches(names, x, patch[i]) { assert Tidy(names, x); }
    assert forall x :: x in patch[..i] + [patch[i]] ==> x in patch;
  }

  lemma {:induction false} StandsAfter(names: seq<string>, kids: seq<Element>, patch: seq<Element>, limit: nat, i: nat)
    requires TidyKids(names, patch) && i <= |patch| && ShorterKeepTheirs(names, kids, patch, limit)
    ensures StandsAll(names, kids, patch[..i], limit, MergeKids(names, kids, patch[..i]))
  {
    if i > 0 {
      StandsAfter(names, kids, patch, limit, i - 1);
      TidyAt(names, kids, patch, limit, i - 1);
      if KeyLength(names, patch[i - 1]) <= limit {
        ShortNext(names, kids, patch[..i - 1], limit, MergeKids(names, kids, patch[..i - 1]), patch[i - 1]);
      } else {
        LongNext(names, kids, patch[..i - 1], limit, MergeKids(names, kids, patch[..i - 1]), patch[i - 1]);
      }
    }
  }

  /** Base child `k` of the merged list as `p` sees it, when `p` changed the identifier of its match. */
  lemma SeenPast(names: seq<string>, kids: seq<Element>, patch: seq<Element>, p: Element, k: nat, now: Element)
    requires TidyKids(names, patch) && p in patch && k < |kids| && !KeepsItsMatch(names, kids, p)
    requires ShorterKeepTheirs(names, kids, patch, KeyLength(names, p))
    requires Stands(names, kids, patch, KeyLength(names, p), k, now)
    ensures Matches(names, now, p) <==> k > FindMatch(names, kids, p) && Matches(names, kids[k], p)
    ensures Matches(names, now, p) ==> now == kids[k]
  {
    var m := FindMatch(names, kids, p);
    forall x | x in patch ensures DistinctNames(x.attrs) { assert Tidy(names, x); }
    if k == m {
      MergedAtFinder(names, kids, patch, p);
      KeepsKeyExactly(names, kids[m], p);
    } else if Matches(names, kids[k], p) {
      forall x | x in patch ensures FindMatch(names, kids, x) != k {
        if FindMatch(names, kids, x) == k { SameKeySameSibling(names, patch, x, p); }
      }
      NobodyFinds(names, kids, patch, k);
    } else if KeyLength(names, MergedAt(names, kids, patch, k)) <= KeyLength(names, p) {
      ShortKeptKey(names, kids, patch, KeyLength(names, p), k);
    }
  }

  /** The search for `p` in `r` passes over everything up to `m` and goes on behind it. */
  predicate FoundPast(names: seq<string>, kids: seq<Element>, r: seq<Element>, p: Element, m: nat)
    requires m < |kids| <= |r|
  {
    var rest := kids[m + 1..];
    var j := FindMatch(names, rest, p);
    FindMatch(names, r, p) == (if j < |rest| then m + 1 + j else |r|) && (j < |rest| ==> r[m + 1 + j] == rest[j])
  }

  lemma SearchesPast(names: seq<string>, kids: seq<Element>, r: seq<Element>, p: Element, m: nat)
    requires m < |kids| <= |r|
    requires forall k :: 0 <= k < |kids| ==> (Matches(names, r[k], p) <==> k > m && Matches(names, kids[k], p))
    requires forall k :: 0 <= k < |kids| && Matches(names, r[k], p) ==> r[k] == kids[k]
    requires forall k :: |kids| <= k < |r| ==> !Matches(names, r[k], p)
    ensures FoundPast(names, kids, r, p, m)
  {
    var rest := kids[m + 1..];
    var j := FindMatch(names, rest, p);
    assert forall i :: 0 <= i < |rest| ==> rest[i] == kids[m + 1 + i];
    forall k | 0 <= k < |r| && (j < |rest| ==> k < m + 1 + j) ensures !Matches(names, r[k], p) {
      if m < k < |kids| { assert kids[k] == rest[k - m - 1]; }
    }
    FindMatchIs(names, r, p, if j < |rest| then m + 1 + j else |r|);
  }

  lemma AppendedAreNotIt(names: seq<string>, kids: seq<Element>, patch: seq<Element>, p: Element, e: Element)
    requires DistinctKeys(names, patch) && p in patch && FindMatch(names, kids, p) < |kids|
    requires e in patch && (KeyLength(names, e) <= KeyLength(names, p) ==> FindMatch(names, kids, e) == |kids|)
    ensures !Matches(names, e, p)
  {
    if Matches(names, e, p) { SameKeySameSibling(names, patch, e, p); }
  }

  lemma PassedOn(names: seq<string>, kids: seq<Element>, patch: seq<Element>, p: Element, r: seq<Element>)
    requires TidyKids(names, patch) && p in patch && !KeepsItsMatch(names, kids, p)
    requires ShorterKeepTheirs(names, kids, patch, KeyLength(names, p)) && StandsAll(names, kids, patch, KeyLength(names, p), r)
    ensures FoundPast(names, kids, r, p, FindMatch(names, kids, p))
  {
    var m := FindMatch(names, kids, p);
    forall k | 0 <= k < |kids|
      ensures Matches(names, r[k], p) <==> k > m && Matches(names, kids[k], p)
      ensures Matches(names, r[k], p) ==> r[k] == kids[k]
    {
      SeenPast(names, kids, patch, p, k, r[k]);
    }
    forall k | |kids| <= k < |r| ensures !Matches(names, r[k], p) {
      AppendedAreNotIt(names, kids, patch, p, r[k]);
    }
    SearchesPast(names, kids, r, p, m);
  }

  lemma SameForcePast(names: seq<string>, kids: seq<Element>, r: seq<Element>, p: Element, m: nat)
    requires m < |kids| <= |r| && FoundPast(names, kids, r, p, m)
    ensures InForce(names, r, p) <==> InForce(names, kids[m + 1..], p)
  {
    SameMatchSameForce(names, r, kids[m + 1..], p);
  }

  /** If every shorter identifier is kept and `p` does not keep that of its match, then in the merged
      list the search for `p` ends on the next base sibling with its key, untouched, or on nothing. */
  lemma ShortestIsPassedOn(names: seq<string>, kids: seq<Element>, patch: seq<Element>, p: Element)
    requires TidyKids(names, patch) && p in patch && !KeepsItsMatch(names, kids, p)
    requires ShorterKeepTheirs(names, kids, patch, KeyLength(names, p))
    ensures var r := MergeKids(names, kids, patch);
            |r| >= |kids| && FoundPast(names, kids, r, p, FindMatch(names, kids, p))
  {
    StandsAfter(names, kids, patch, KeyLength(names, p), |patch|);
    assert patch[..|patch|] == patch;
    PassedOn(names, kids, patch, p, MergeKids(names, kids, patch));
  }

  /** Wherever the two are merged, the base has nothing in the identifying attributes the patch leaves out. */
  predicate CarriesNothingOver(names: seq<string>, kids: seq<Element>, patch: seq<Element>) {
    forall p :: p in patch ==>
      var m := FindMatch(names, kids, p);
      m < |kids| ==>
        OmitsOnlyEmpty(names, kids[m].attrs, p.attrs) && CarriesNothingOver(names, kids[m].kids, p.kids)
  }

  lemma {:induction false} KeysAreKeptExactly(names: seq<string>, kids: seq<Element>, patch: seq<Element>)
    requires TidyKids(names, patch)
    ensures KeepsKeys(names, kids, patch) <==> CarriesNothingOver(names, kids, patch)
    decreases patch
  {
    forall p | p in patch && FindMatch(names, kids, p) < |kids|
      ensures var base := kids[FindMatch(names, kids, p)];
              && (KeepsKey(names, base, p) <==> OmitsOnlyEmpty(names, base.attrs, p.attrs))
              && (KeepsKeys(names, base.kids, p.kids) <==> CarriesNothingOver(names, base.kids, p.kids))
    {
      var base := kids[FindMatch(names, kids, p)];
      KeepsKeyExactly(names, base, p);
      KeysAreKeptExactly(names, base.kids, p.kids);
    }
  }

  /** Where the patch carries something over into an identifier, no sibling further on has the whole of
      the patch element in it already. */
  predicate NoTwinHasIt(names: seq<string>, kids: seq<Element>, patch: seq<Element>) {
    forall p :: p in patch ==>
      var m := FindMatch(names, kids, p);
      m < |kids| ==>
        if OmitsOnlyEmpty(names, kids[m].attrs, p.attrs) then NoTwinHasIt(names, kids[m].kids, p.kids)
        else !InForce(names, kids[m + 1..], p)
  }

  /** No two base siblings match one patch element, wherever the two are merged. */
  predicate SingleMatches(names: seq<string>, kids: seq<Element>, patch: seq<Element>) {
    forall p :: p in patch ==>
      var m := FindMatch(names, kids, p);
      m < |kids| ==> FindMatch(names, kids[m + 1..], p) == |kids[m + 1..]| && SingleMatches(names, kids[m].kids, p.kids)
  }

  lemma {:induction false} SingleMatchesHaveNoTwin(names: seq<string>, kids: seq<Element>, patch: seq<Element>)
    requires SingleMatches(names, kids, patch)
    ensures NoTwinHasIt(names, kids, patch)
    decreases patch
  {
    forall p | p in patch && FindMatch(names, kids, p) < |kids|
      ensures var m := FindMatch(names, kids, p);
              NoTwinHasIt(names, kids[m].kids, p.kids) && !InForce(names, kids[m + 1..], p)
    {
      SingleMatchesHaveNoTwin(names, kids[FindMatch(names, kids, p)].kids, p.kids);
    }
  }

  /** An element without an identifier has nothing to carry over, however many siblings look like it. */
  lemma {:induction false} UnidentifiedCarriesNothing(names: seq<string>, base: seq<Attribute>, p: seq<Attribute>)
    requires Identifier(names, base) == ""
    ensures OmitsOnlyEmpty(names, base, p)
  {
    if names != [] {
      UnidentifiedCarriesNothing(names[1..], base, p);
      assert Value(base, names[0]) + Identifier(names[1..], base) == "";
    }
  }

  /** `p` did not carry anything over, or no sibling further on has it. */
  predicate NoTwinHas(names: seq<string>, kids: seq<Element>, p: Element) {
    var m := FindMatch(names, kids, p);
    m < |kids| && !OmitsOnlyEmpty(names, kids[m].attrs, p.attrs) ==> !InForce(names, kids[m + 1..], p)
  }

  lemma LostIsNotInForce(names: seq<string>, kids: seq<Element>, r: seq<Element>, p: Element)
    requires DistinctNames(p.attrs) && !KeepsItsMatch(names, kids, p) && NoTwinHas(names, kids, p)
    requires |r| >= |kids| && FoundPast(names, kids, r, p, FindMatch(names, kids, p))
    ensures !InForce(names, r, p)
  {
    var m := FindMatch(names, kids, p);
    KeepsKeyExactly(names, kids[m], p);
    SameForcePast(names, kids, r, p, m);
  }

  /** By induction on the length of the key: a patch that is in force afterwards kept every identifier. */
  lemma {:induction false} InForceKeptKeys(names: seq<string>, kids: seq<Element>, patch: seq<Element>, length: nat)
    requires TidyKids(names, patch) && forall p :: p in patch ==> DistinctNames(p.attrs) && NoTwinHas(names, kids, p)
    requires forall p :: p in patch ==> InForce(names, MergeKids(names, kids, patch), p)
    ensures ShorterKeepTheirs(names, kids, patch, length)
  {
    if length > 0 {
      InForceKeptKeys(names, kids, patch, length - 1);
      forall p | p in patch && KeyLength(names, p) < length ensures KeepsItsMatch(names, kids, p) {
        if !KeepsItsMatch(names, kids, p) {
          ShortestIsPassedOn(names, kids, patch, p);
          LostIsNotInForce(names, kids, MergeKids(names, kids, patch), p);
        }
      }
    }
  }

  lemma {:induction false} InForceMeansKept(names: seq<string>, kids: seq<Element>, patch: seq<Element>)
    requires NoTwinHasIt(names, kids, patch) && TidyKids(names, patch)
    requires AbsorbsAll(names, MergeKids(names, kids, patch), patch)
    ensures KeepsKeys(names, kids, patch)
    decreases patch
  {
    forall p | p in patch ensures InForce(names, MergeKids(names, kids, patch), p) {}
    forall p | p in patch ensures DistinctNames(p.attrs) && NoTwinHas(names, kids, p) { assert Tidy(names, p); }
    forall p | p in patch ensures KeepsItsMatch(names, kids, p) {
      InForceKeptKeys(names, kids, patch, KeyLength(names, p) + 1);
    }
    forall p | p in patch
      ensures var m := FindMatch(names, kids, p); m < |kids| ==> KeepsKey(names, kids[m], p) && KeepsKeys(names, kids[m].kids, p.kids)
    {
      var m := FindMatch(names, kids, p);
      if m < |kids| {
        KeepsKeyExactly(names, kids[m], p);
        CounterpartOf(names, kids, patch, p);
        InForceMeansKept(names, kids[m].kids, p.kids);
      }
    }
  }

  /** Merging a tidy patch twice gives the same tree as merging it once exactly when the base, wherever
      the patch is merged into it, has nothing in the identifying attributes the patch leaves out. */
  lemma MergeIsIdempotentExactly(names: seq<string>, kids: seq<Element>, patch: seq<Element>)
    requires TidyKids(names, patch) && NoTwinHasIt(names, kids, patch)
    ensures Settles(names, kids, patch) <==> CarriesNothingOver(names, kids, patch)
  {
    var once := MergeKids(names, kids, patch);
    KeysAreKeptExactly(names, kids, patch);
    if KeepsKeys(names, kids, patch) {
      MergeIsIdempotent(names, kids, patch);
    } else if Settles(names, kids, patch) {
      UnchangedWasAbsorbed(names, once, patch);
      InForceMeansKept(names, kids, patch);
    }
  }

  // ---------- nothing is lost, for any patch at all ----------

  /** `r` keeps the name, every attribute name and every child of `base` in place, and only appends. */
  predicate Extends(base: Element, r: Element) {
    && r.name == base.name
    && |r.attrs| >= |base.attrs|
    && (forall i :: 0 <= i < |base.attrs| ==> r.attrs[i].name == base.attrs[i].name)
    && |r.kids| >= |base.kids|
    && forall i :: 0 <= i < |base.kids| ==> Extends(base.kids[i], r.kids[i])
  }

  predicate ExtendsAll(kids: seq<Element>, r: seq<Element>) {
    |r| >= |kids| && forall i :: 0 <= i < |kids| ==> Extends(kids[i], r[i])
  }

  lemma ExtendsItself(e: Element)
    ensures Extends(e, e)
  {
  }

  lemma {:induction false} ExtendsTransitive(a: Element, b: Element, c: Element)
    requires Extends(a, b) && Extends(b, c)
    ensures Extends(a, c)
  {
    forall i | 0 <= i < |a.kids| ensures Extends(a.kids[i], c.kids[i]) {
      ExtendsTransitive(a.kids[i], b.kids[i], c.kids[i]);
    }
  }

  lemma {:induction false} NodeIsExtended(names: seq<string>, base: Element, p: Element)
    ensures Extends(base, MergeNode(names, base, p))
    decreases p, 0
  {
    OverlayKeepsNames(base.attrs, p.attrs);
    NothingIsLost(names, base.kids, p.kids);
  }

  /** Every original element stays at its position under its name with its attribute names, at every
      depth, and a child whose key no patch sibling carries is untouched. */
  lemma {:induction false} NothingIsLost(names: seq<string>, kids: seq<Element>, patch: seq<Element>)
    ensures var r := MergeKids(names, kids, patch);
            && ExtendsAll(kids, r)
            && forall k :: 0 <= k < |kids| && (forall p :: p in patch ==> !Matches(names, kids[k], p)) ==> r[k] == kids[k]
    decreases patch
  {
    if patch == [] {
      forall i | 0 <= i < |kids| ensures Extends(kids[i], kids[i]) { ExtendsItself(kids[i]); }
    } else {
      var front, p := patch[..|patch| - 1], patch[|patch| - 1];
      assert p in patch && forall q :: q in front ==> q in patch;
      NothingIsLost(names, kids, front);
      var r := MergeKids(names, kids, front);
      var m := FindMatch(names, r, p);
      forall i | 0 <= i < |kids| ensures Extends(kids[i], MergeOne(names, r, p)[i]) {
        if i == m {
          NodeIsExtended(names, r[m], p);
          ExtendsTransitive(kids[m], r[m], MergeNode(names, r[m], p));
        } else {
          assert MergeOne(names, r, p)[i] == r[i];
        }
      }
    }
  }

  // ---------- a list of patch documents ----------

  /** Patch documents in order; one that did not parse (None) is skipped. */
  function MergeAll(names: seq<string>, kids: seq<Element>, patches: seq<Option<seq<Element>>>): seq<Element> {
    if patches == [] then kids
    else
      var r := MergeAll(names, kids, patches[..|patches| - 1]);
      match patches[|patches| - 1]
      case Some(patch) => MergeKids(names, r, patch)
      case None => r
  }

  /** No element of any patch has the key of `e`. */
  predicate Unnamed(names: seq<string>, e: Element, patches: seq<Option<seq<Element>>>) {
    forall i :: 0 <= i < |patches| && patches[i].Some? ==> forall p :: p in patches[i].value ==> !Matches(names, e, p)
  }

  lemma {:induction false} NothingIsLostByAll(names: seq<string>, kids: seq<Element>, patches: seq<Option<seq<Element>>>)
    ensures var r := MergeAll(names, kids, patches);
            && ExtendsAll(kids, r)
            && forall k :: 0 <= k < |kids| && Unnamed(names, kids[k], patches) ==> r[k] == kids[k]
  {
    if patches == [] {
      NothingIsLost(names, kids, []);
    } else {
      var front, last := patches[..|patches| - 1], patches[|patches| - 1];
      NothingIsLostByAll(names, kids, front);
      forall k | 0 <= k < |kids| && Unnamed(names, kids[k], patches) ensures Unnamed(names, kids[k], front) {
        forall i | 0 <= i < |front| ensures front[i] == patches[i] {}
      }
      if last.Some? {
        var r := MergeAll(names, kids, front);
        NothingIsLost(names, r, last.value);
        forall i | 0 <= i < |kids| ensures Extends(kids[i], MergeKids(names, r, last.value)[i]) {
          ExtendsTransitive(kids[i], r[i], MergeKids(names, r, last.value)[i]);
        }
      }
    }
  }

  lemma MergeAllOne(names: seq<string>, kids: seq<Element>, p: seq<Element>)
    ensures MergeAll(names, kids, []) == kids
    ensures MergeAll(names, kids, [None]) == kids
    ensures MergeAll(names, kids, [Some(p)]) == MergeKids(names, kids, p)
  {
    assert [Option<seq<Element>>.None][..0] == [] && [Some(p)][..0] == [];
  }

  /** More patches after some are merged into what the first ones left. */
  lemma {:induction false} MergeAllComposes(
    names: seq<string>, kids: seq<Element>, patches: seq<Option<seq<Element>>>, more: seq<Option<seq<Element>>>)
    ensures MergeAll(names, kids, patches + more) == MergeAll(names, MergeAll(names, kids, patches), more)
  {
    if more == [] {
      assert patches + more == patches;
    } else {
      MergeAllComposes(names, kids, patches, more[..|more| - 1]);
      assert (patches + more)[..|patches + more| - 1] == patches + more[..|more| - 1];
    }
  }

  lemma {:induction false} NothingParsed(names: seq<string>, kids: seq<Element>, patches: seq<Option<seq<Element>>>)
    requires forall x :: x in patches ==> x.None?
    ensures MergeAll(names, kids, patches) == kids
  {
    if patches != [] {
      assert patches[|patches| - 1] in patches;
      NothingParsed(names, kids, patches[..|patches| - 1]);
    }
  }

  /** Patch `i` is the last document that parsed. */
  predicate LastParsed(patches: seq<Option<seq<Element>>>, i: nat) {
    i < |patches| && patches[i].Some? && forall j :: i < j < |patches| ==> patches[j].None?
  }

  /** The merge of the list ends with the merge of the last document that parsed; tidy and with kept
      identifiers, that document is in force afterwards. */
  lemma LastPatchIsInForce(names: seq<string>, kids: seq<Element>, patches: seq<Option<seq<Element>>>, i: nat)
    requires LastParsed(patches, i)
    ensures var met, p := MergeAll(names, kids, patches[..i]), patches[i].value;
            && MergeAll(names, kids, patches) == MergeKids(names, met, p)
            && (TidyKids(names, p) && KeepsKeys(names, met, p) ==> AbsorbsAll(names, MergeAll(names, kids, patches), p))
  {
    var met, p, rest := MergeAll(names, kids, patches[..i]), patches[i].value, patches[i + 1..];
    assert patches == patches[..i] + ([Some(p)] + rest);
    MergeAllComposes(names, kids, patches[..i], [Some(p)] + rest);
    MergeAllComposes(names, met, [Some(p)], rest);
    MergeAllOne(names, met, p);
    NothingParsed(names, MergeKids(names, met, p), rest);
    if TidyKids(names, p) && KeepsKeys(names, met, p) { PatchWins(names, met, p); }
  }

  /** The value read for a name: that of its first attribute, or the empty string. */
  lemma ValueIs(attrs: seq<Attribute>, name: string, i: nat)
    requires i <= |attrs| && (i < |attrs| ==> attrs[i].name == name) && forall j :: 0 <= j < i ==> attrs[j].name != name
    ensures Value(attrs, name) == if i < |attrs| then attrs[i].value else ""
  {
    AttrIndexIs(attrs, name, i);
  }

  /** What identifies an element in each kind of document, besides its name. */
  lemma IdentifiedBy(e: Element)
    ensures Key(KeyAttributes(true), e) == (e.name, Value(e.attrs, "Name") + Value(e.attrs, "Ref"))
    ensures Key(KeyAttributes(false), e) ==
            (e.name, Value(e.attrs, "EntityId") + Value(e.attrs, "TargetId") + Value(e.attrs, "TargetGuid"))
  {
    PresetKey(e);
    var names := KeyAttributes(false);
    assert names[1..] == ["TargetId", "TargetGuid"] && names[1..][1..] == ["TargetGuid"] && names[1..][1..][1..] == [];
    assert Identifier(names[1..][1..][1..], e.attrs) == "";
    assert Identifier(names[1..][1..], e.attrs) == Value(e.attrs, "TargetGuid");
    assert Identifier(names[1..], e.attrs) == Value(e.attrs, "TargetId") + Value(e.attrs, "TargetGuid");
    assert Identifier(names, e.attrs) == Value(e.attrs, "EntityId") + (Value(e.attrs, "TargetId") + Value(e.attrs, "TargetGuid"));
    Associates(Value(e.attrs, "EntityId"), Value(e.attrs, "TargetId"), Value(e.attrs, "TargetGuid"));
  }

  // ---------- why both hypotheses are there ----------

  lemma MergeSingle(names: seq<string>, kids: seq<Element>, p: Element)
    ensures MergeKids(names, kids, [p]) == MergeOne(names, kids, p)
  {
    assert [p][..0] == [];
  }

  lemma MergePair(names: seq<string>, kids: seq<Element>, p: Element, q: Element)
    ensures MergeKids(names, kids, [p, q]) == MergeOne(names, MergeOne(names, kids, p), q)
  {
    MergeSingle(names, kids, p);
    assert [p, q][..1] == [p];
  }

  lemma PresetKey(e: Element)
    ensures Key(PRESET_KEYS, e) == (e.name, Value(e.attrs, "Name") + Value(e.attrs, "Ref"))
  {
    var names := PRESET_KEYS;
    assert names[1..] == ["Ref"] && names[1..][1..] == [];
    assert Identifier(names[1..][1..], e.attrs) == "";
    assert Identifier(names[1..], e.attrs) == Value(e.attrs, "Ref");
    assert Identifier(names, e.attrs) == Value(e.attrs, "Name") + Value(e.attrs, "Ref");
  }

  lemma PairLookup(a: Attribute, b: Attribute, name: string)
    ensures Lookup([a, b], name) ==
            if a.name == name then Some(a.value) else if b.name == name then Some(b.value) else None
  {
    AttrIndexIs([a, b], name, if a.name == name then 0 else if b.name == name then 1 else 2);
  }

  /** Two siblings with one key in a copied subtree: the copy is raw, and the second run folds the second into the first. */
  lemma RawCopyIsFoldedLater(names: seq<string>, parent: Element, one: Element, two: Element)
    requires parent.attrs == [] && parent.kids == [one, two]
    requires one.kids == two.kids == [] && Matches(names, one, two)
    requires DistinctNames(one.attrs) && Overlay(one.attrs, two.attrs) == two.attrs
    ensures var once := MergeKids(names, [], [parent]);
            && once == [parent]
            && MergeKids(names, once, [parent]) == [parent.(kids := [two, two])]
  {
    MergeSingle(names, [], parent);
    FindMatchIs(names, [], parent, 0);
    MergeSingle(names, [parent], parent);
    FindMatchIs(names, [parent], parent, 0);
    FoldedPair(names, one, two);
    assert MergeNode(names, parent, parent) == parent.(kids := [two, two]);
  }

  lemma FoldedPair(names: seq<string>, one: Element, two: Element)
    requires one.kids == two.kids == [] && Matches(names, one, two)
    requires DistinctNames(one.attrs) && Overlay(one.attrs, two.attrs) == two.attrs
    ensures MergeKids(names, [one, two], [one, two]) == [two, two]
  {
    var pair := [one, two];
    FindMatchIs(names, pair, one, 0);
    FindMatchIs(names, pair, two, 0);
    TidyAbsorbsItself(names, one);
    UnchangedListHadIt(names, pair, one);
    assert MergeNode(names, one, two) == two;
    assert MergeOne(names, pair, two) == [two, two];
    MergePair(names, pair, one, two);
  }

  /** An input whose second merge differs from the first because sibling keys repeat. */
  lemma DuplicateKeysAreNotIdempotent()
    ensures var one := Element("Item", [Attribute("Name", "x"), Attribute("Count", "1")], []);
            var two := Element("Item", [Attribute("Name", "x"), Attribute("Count", "2")], []);
            var patch := [Element("Preset", [], [one, two])];
            var once := MergeKids(PRESET_KEYS, [], patch);
            MergeKids(PRESET_KEYS, once, patch) != once
  {
    var name, c1, c2 := Attribute("Name", "x"), Attribute("Count", "1"), Attribute("Count", "2");
    var one, two := Element("Item", [name, c1], []), Element("Item", [name, c2], []);
    forall n: string ensures Lookup(one.attrs, n) == if n == "Name" then Some("x") else if n == "Count" then Some("1") else None {
      PairLookup(name, c1, n);
    }
    forall n: string ensures n != "Count" ==> Lookup(two.attrs, n) == Lookup(one.attrs, n) {
      PairLookup(name, c2, n);
    }
    PresetKey(one);
    PresetKey(two);
    assert "Ref" != "Count" && "Name" != "Count" by { assert "Ref"[0] == 'R' && "Name"[0] == 'N' && "Count"[0] == 'C'; }
    OverlayOfPair(name, c1, c2);
    assert "1"[0] != "2"[0];
    RawCopyIsFoldedLater(PRESET_KEYS, Element("Preset", [], [one, two]), one, two);
    assert [one, two][0] != [two, two][0];
  }

  lemma OverlayOfPair(a: Attribute, b: Attribute, c: Attribute)
    requires b.name == c.name != a.name
    ensures Overlay([a, b], [a, c]) == [a, c]
  {
    assert [a, c][..1] == [a] && [a][..0] == [];
    AttrIndexIs([a, b], a.name, 0);
    assert Overlay([a, b], [a]) == SetAttribute([a, b], a) == [a, b];
    AttrIndexIs([a, b], c.name, 1);
  }

  /** An input whose second merge differs because Name "a" with Ref "b" collides with Name "ab": the
      overlay moves the element to another key, so the second run appends a copy. */
  lemma CollidingKeysAreNotIdempotent()
    ensures var base := [Element("Item", [Attribute("Name", "a"), Attribute("Ref", "b")], [])];
            var patch := [Element("Item", [Attribute("Name", "ab")], [])];
            var once := MergeKids(PRESET_KEYS, base, patch);
            && TidyKids(PRESET_KEYS, patch)
            && |once| == 1 && |MergeKids(PRESET_KEYS, once, patch)| == 2
  {
    var b := Element("Item", [Attribute("Name", "a"), Attribute("Ref", "b")], []);
    var p := Element("Item", [Attribute("Name", "ab")], []);
    CollidingPair(b, p);
    FindMatchIs(PRESET_KEYS, [b], p, 0);
    MergeSingle(PRESET_KEYS, [b], p);
    var once := MergeKids(PRESET_KEYS, [b], [p]);
    assert once == [MergeNode(PRESET_KEYS, b, p)];
    FindMatchIs(PRESET_KEYS, once, p, 1);
    MergeSingle(PRESET_KEYS, once, p);
  }

  lemma CollidingPair(b: Element, p: Element)
    requires b == Element("Item", [Attribute("Name", "a"), Attribute("Ref", "b")], [])
    requires p == Element("Item", [Attribute("Name", "ab")], [])
    ensures Matches(PRESET_KEYS, b, p)
    ensures !Matches(PRESET_KEYS, MergeNode(PRESET_KEYS, b, p), p)
  {
    assert "Name"[0] != "Ref"[0];
    PairLookup(Attribute("Name", "a"), Attribute("Ref", "b"), "Name");
    PairLookup(Attribute("Name", "a"), Attribute("Ref", "b"), "Ref");
    AttrIndexIs(p.attrs, "Name", 0);
    AttrIndexIs(p.attrs, "Ref", 1);
    PresetKey(b);
    PresetKey(p);
    assert Value(b.attrs, "Name") + Value(b.attrs, "Ref") == Value(p.attrs, "Name") + Value(p.attrs, "Ref") == "ab";
    assert "Ref" == PRESET_KEYS[1];
    KeepsKeyExactly(PRESET_KEYS, b, p);
    assert KeyLength(PRESET_KEYS, MergeNode(PRESET_KEYS, b, p)) > KeyLength(PRESET_KEYS, b);
    assert KeyLength(PRESET_KEYS, b) == KeyLength(PRESET_KEYS, p);
  }
}
