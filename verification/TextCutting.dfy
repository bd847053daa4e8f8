/** The three routines that shorten UTF-8 text: a forward scan, a backward scan, and the backspace. */
module TextCutting {
  import opened Utf8

  // ---------- where scalar values begin ----------

  /** The byte offset just after the first `k` scalar values. */
  function Offset(cs: seq<Scalar>, k: nat): nat
    requires k <= |cs|
  {
    |EncodeAll(cs[..k])|
  }

  /** How many leading scalar values fit into `capacity` bytes. */
  function Fit(cs: seq<Scalar>, capacity: nat): (k: nat)
    ensures k <= |cs|
  {
    if cs == [] || |Encode(cs[0])| > capacity then 0
    else 1 + Fit(cs[1..], capacity - |Encode(cs[0])|)
  }

  /** The longest prefix of whole scalar values within `capacity` bytes. */
  function LongestWithin(cs: seq<Scalar>, capacity: nat): seq<Byte> {
    EncodeAll(cs[..Fit(cs, capacity)])
  }

  lemma SplitAt(cs: seq<Scalar>, k: nat)
    requires k <= |cs|
    ensures EncodeAll(cs) == EncodeAll(cs[..k]) + EncodeAll(cs[k..])
  {
    assert cs == cs[..k] + cs[k..];
    EncodeAllConcat(cs[..k], cs[k..]);
  }

  lemma TakeNext(cs: seq<Scalar>, k: nat)
    requires k < |cs|
    ensures EncodeAll(cs[..k + 1]) == EncodeAll(cs[..k]) + Encode(cs[k])
  {
    assert cs[..k + 1][..k] == cs[..k];
    SplitAt(cs[..k + 1], k);
    assert cs[..k + 1][k..] == [cs[k]];
    assert EncodeAll([cs[k]]) == Encode(cs[k]) + [];
  }

  lemma {:induction false} OffsetsIncrease(cs: seq<Scalar>, j: nat, k: nat)
    requires j <= k <= |cs|
    ensures Offset(cs, j) + (k - j) <= Offset(cs, k) <= |EncodeAll(cs)|
    ensures EncodeAll(cs[..k]) <= EncodeAll(cs)
    decreases k - j
  {
    if j < k {
      OffsetsIncrease(cs, j, k - 1);
      TakeNext(cs, k - 1);
      SplitAt(cs, k);
    } else {
      SplitAt(cs, k);
    }
  }

  /** `Fit` is the greatest count whose encoding stays within the capacity. */
  lemma {:induction false} FitIsGreatest(cs: seq<Scalar>, capacity: nat)
    ensures Offset(cs, Fit(cs, capacity)) <= capacity
    ensures forall k :: Fit(cs, capacity) < k <= |cs| ==> Offset(cs, k) > capacity
  {
    var n := Fit(cs, capacity);
    if cs != [] {
      var size := |Encode(cs[0])|;
      forall k | 1 <= k <= |cs| ensures Offset(cs, k) == size + Offset(cs[1..], k - 1) {
        assert cs[..k][1..] == cs[1..][..k - 1];
      }
      if size <= capacity {
        FitIsGreatest(cs[1..], capacity - size);
        forall k | n < k <= |cs| ensures Offset(cs, k) > capacity {
          assert Offset(cs[1..], k - 1) > capacity - size;
        }
      }
    }
  }

  lemma FitIs(cs: seq<Scalar>, capacity: nat, k: nat)
    requires k <= |cs| && Offset(cs, k) <= capacity
    requires k < |cs| ==> Offset(cs, k + 1) > capacity
    ensures Fit(cs, capacity) == k
  {
    var n := Fit(cs, capacity);
    FitIsGreatest(cs, capacity);
    if k < n { OffsetsIncrease(cs, k + 1, n); }
  }

  // ---------- forward scan ----------

  /** At a scalar boundary inside valid text, the byte there announces the scalar's own length. */
  lemma AtBoundary(cs: seq<Scalar>, k: nat)
    requires k < |cs|
    ensures Offset(cs, k) < |EncodeAll(cs)|
    ensures LeadLength(EncodeAll(cs)[Offset(cs, k)]) == |Encode(cs[k])|
    ensures Offset(cs, k + 1) == Offset(cs, k) + |Encode(cs[k])| <= |EncodeAll(cs)|
  {
    TakeNext(cs, k);
    SplitAt(cs, k + 1);
    EncodeShape(cs[k]);
    assert EncodeAll(cs)[Offset(cs, k)] == Encode(cs[k])[0];
  }

  /** `offset` is the boundary after `k` scalar values, whenever the text is valid. */
  ghost predicate IsBoundary(text: seq<Byte>, k: nat, offset: nat) {
    forall cs :: EncodeAll(cs) == text ==> k <= |cs| && offset == Offset(cs, k)
  }

  /** `cut` is the longest prefix of whole scalar values within the capacity, whenever the text is valid. */
  ghost predicate IsLongestWithin(text: seq<Byte>, capacity: nat, cut: seq<Byte>) {
    forall cs :: EncodeAll(cs) == text ==> cut == LongestWithin(cs, capacity)
  }

  lemma StepIn(text: seq<Byte>, cs: seq<Scalar>, k: nat, offset: nat)
    requires EncodeAll(cs) == text && k <= |cs| && offset == Offset(cs, k) < |text|
    ensures k + 1 <= |cs| && offset + LeadLength(text[offset]) == Offset(cs, k + 1)
    ensures 1 <= LeadLength(text[offset]) <= |text| - offset
  {
    assert k < |cs| by { assert cs[..|cs|] == cs; }
    AtBoundary(cs, k);
  }

  lemma StepForward(text: seq<Byte>, k: nat, offset: nat)
    requires IsUtf8(text) && IsBoundary(text, k, offset) && offset < |text|
    ensures IsBoundary(text, k + 1, offset + LeadLength(text[offset]))
    ensures 1 <= LeadLength(text[offset]) <= |text| - offset
  {
    forall cs | EncodeAll(cs) == text
      ensures k + 1 <= |cs| && offset + LeadLength(text[offset]) == Offset(cs, k + 1)
    {
      StepIn(text, cs, k, offset);
    }
    StepIn(text, Scalars(text), k, offset);
  }

  lemma CutAtIsLongest(cs: seq<Scalar>, capacity: nat, k: nat)
    requires k <= |cs| && Offset(cs, k) <= capacity
    requires var text, offset := EncodeAll(cs), Offset(cs, k);
             offset < |text| ==> offset + LeadLength(text[offset]) > capacity
    ensures Offset(cs, k) <= |EncodeAll(cs)|
    ensures EncodeAll(cs)[..Offset(cs, k)] == LongestWithin(cs, capacity)
  {
    if k < |cs| { AtBoundary(cs, k); }
    FitIs(cs, capacity, k);
    SplitAt(cs, k);
  }

  lemma CutIsLongest(text: seq<Byte>, capacity: nat, k: nat, offset: nat)
    requires IsBoundary(text, k, offset) && offset <= |text| && offset <= capacity
    requires offset < |text| ==> offset + LeadLength(text[offset]) > capacity
    ensures IsLongestWithin(text, capacity, text[..offset])
  {
    forall cs | EncodeAll(cs) == text ensures text[..offset] == LongestWithin(cs, capacity) {
      CutAtIsLongest(cs, capacity, k);
    }
  }

  /** The menu's prefix cut. On any bytes it returns a prefix within the capacity; on valid text it
      returns the longest prefix of whole scalar values. */
  method Utf8Prefix(text: seq<Byte>, capacity: nat) returns (prefix: seq<Byte>)
    ensures prefix <= text && |prefix| <= capacity
    ensures IsLongestWithin(text, capacity, prefix)
  {
    var offset := 0;
    ghost var k := 0;
    while offset < |text|
      invariant offset <= |text| && offset <= capacity
      invariant IsUtf8(text) ==> IsBoundary(text, k, offset)
    {
      var announced := LeadLength(text[offset]);
      var length := if announced == 0 then 1 else announced;
      if IsUtf8(text) { StepForward(text, k, offset); }
      if offset + length > |text| || offset + length > capacity {
        break;
      }
      offset := offset + length;
      k := k + 1;
    }
    prefix := text[..offset];
    if IsUtf8(text) { CutIsLongest(text, capacity, k, offset); }
  }

  // ---------- backward scans ----------

  /** Within one encoded scalar only the first byte is not a continuation byte. */
  lemma {:induction false} LeadOrContinuation(cs: seq<Scalar>, i: nat) returns (k: nat)
    requires i < |EncodeAll(cs)|
    ensures k < |cs| && Offset(cs, k) <= i < Offset(cs, k + 1)
    ensures IsContinuation(EncodeAll(cs)[i]) <==> i != Offset(cs, k)
    decreases cs
  {
    var n := |cs| - 1;
    var front := cs[..n];
    TakeNext(cs, n);
    assert cs[..n + 1] == cs;
    if i < |EncodeAll(front)| {
      k := LeadOrContinuation(front, i);
      assert front[..k] == cs[..k] && front[..k + 1] == cs[..k + 1];
    } else {
      k := n;
      EncodeShape(cs[n]);
      assert EncodeAll(cs)[i] == Encode(cs[n])[i - Offset(cs, n)];
    }
  }

  /** Scanning back from `start` over continuation bytes ends on the last boundary at or before it. */
  lemma BackToBoundary(cs: seq<Scalar>, start: nat, stop: nat) returns (k: nat)
    requires stop <= start < |EncodeAll(cs)|
    requires stop > 0 ==> !IsContinuation(EncodeAll(cs)[stop])
    requires forall j :: stop < j <= start ==> IsContinuation(EncodeAll(cs)[j])
    ensures k < |cs| && stop == Offset(cs, k) <= start < Offset(cs, k + 1)
  {
    k := LeadOrContinuation(cs, stop);
    if stop == 0 {
      OffsetsIncrease(cs, 0, k);
    }
    if Offset(cs, k + 1) <= start {
      var j := LeadOrContinuation(cs, Offset(cs, k + 1));
      if j < k + 1 { OffsetsIncrease(cs, j + 1, k + 1); }
      if j > k + 1 { OffsetsIncrease(cs, k + 1, j); }
      assert false;
    }
  }

  lemma BackwardCutIsLongest(text: seq<Byte>, capacity: nat, length: nat)
    requires length <= capacity < |text|
    requires length > 0 ==> !IsContinuation(text[length])
    requires forall j :: length < j <= capacity ==> IsContinuation(text[j])
    ensures IsLongestWithin(text, capacity, text[..length])
  {
    forall cs | EncodeAll(cs) == text ensures text[..length] == LongestWithin(cs, capacity) {
      var k := BackToBoundary(cs, capacity, length);
      FitIs(cs, capacity, k);
      SplitAt(cs, k);
    }
  }

  lemma WholeIsLongest(text: seq<Byte>, capacity: nat)
    requires |text| <= capacity
    ensures IsLongestWithin(text, capacity, text)
  {
    forall cs | EncodeAll(cs) == text ensures text == LongestWithin(cs, capacity) {
      assert cs[..|cs|] == cs;
      FitIs(cs, capacity, |cs|);
    }
  }

  /** `cut` is the text without its last scalar value, whenever the text is valid. */
  ghost predicate IsWithoutLast(text: seq<Byte>, cut: seq<Byte>) {
    forall cs :: EncodeAll(cs) == text && cs != [] ==> cut == EncodeAll(cs[..|cs| - 1])
  }

  lemma LastBoundaryIn(cs: seq<Scalar>, offset: nat)
    requires offset < |EncodeAll(cs)|
    requires offset > 0 ==> !IsContinuation(EncodeAll(cs)[offset])
    requires forall j :: offset < j < |EncodeAll(cs)| ==> IsContinuation(EncodeAll(cs)[j])
    ensures cs != [] && EncodeAll(cs)[..offset] == EncodeAll(cs[..|cs| - 1])
  {
    var k := BackToBoundary(cs, |EncodeAll(cs)| - 1, offset);
    assert k == |cs| - 1 by {
      OffsetsIncrease(cs, k + 1, |cs|);
      assert cs[..|cs|] == cs;
    }
    SplitAt(cs, k);
  }

  lemma LastBoundary(text: seq<Byte>, offset: nat)
    requires offset < |text|
    requires offset > 0 ==> !IsContinuation(text[offset])
    requires forall j :: offset < j < |text| ==> IsContinuation(text[j])
    ensures IsWithoutLast(text, text[..offset])
  {
    forall cs | EncodeAll(cs) == text && cs != [] ensures text[..offset] == EncodeAll(cs[..|cs| - 1]) {
      LastBoundaryIn(cs, offset);
    }
  }

  /** A text field that the chat and the menu change in place. */
  class TextField {
    var text: seq<Byte>

    constructor (text: seq<Byte>)
      ensures this.text == text
    {
      this.text := text;
    }

    /** The chat's cut, which scans backwards from the capacity. */
    method TrimToCapacity(maximum: nat)
      modifies this
      ensures text <= old(text) && |text| <= maximum
      ensures IsLongestWithin(old(text), maximum, text)
    {
      if |text| <= maximum {
        WholeIsLongest(text, maximum);
        return;
      }
      var length := maximum;
      while length > 0 && IsContinuation(text[length])
        invariant text == old(text) && 0 <= length <= maximum
        invariant forall j :: length < j <= maximum ==> IsContinuation(text[j])
      {
        length := length - 1;
      }
      BackwardCutIsLongest(text, maximum, length);
      text := text[..length];
    }

    /** The backspace. */
    method EraseLastCharacter()
      modifies this
      ensures text <= old(text)
      ensures old(text) != [] ==> |text| < |old(text)|
      ensures old(text) != [] ==> IsWithoutLast(old(text), text)
    {
      if text == [] {
        return;
      }
      var offset := |text| - 1;
      while offset > 0 && IsContinuation(text[offset])
        invariant text == old(text) && 0 <= offset < |text|
        invariant forall j :: offset < j < |text| ==> IsContinuation(text[j])
      {
        offset := offset - 1;
      }
      LastBoundary(text, offset);
      text := text[..offset];
    }
  }

  /** The forward and the backward cut give the same text on every valid input. */
  method CutsAgree(field: TextField, capacity: nat) returns (forward: seq<Byte>)
    requires IsUtf8(field.text)
    modifies field
    ensures forward == field.text && IsUtf8(field.text)
  {
    ghost var cs := Scalars(field.text);
    forward := Utf8Prefix(field.text, capacity);
    field.TrimToCapacity(capacity);
    assert forward == LongestWithin(cs, capacity) == field.text;
  }
}
