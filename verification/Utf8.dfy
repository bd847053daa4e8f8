/** UTF-8 as sections 3 and 4 of RFC 3629 define it, and the validator of the language files. */
module Utf8 {
  import opened Common

  type Byte = b: int | 0 <= b < 256

  /** A Unicode scalar value: a code point that is not a surrogate. */
  type Scalar = c: int | 0 <= c <= 0x10FFFF && !(0xD800 <= c <= 0xDFFF)

  function Encode(c: Scalar): (s: seq<Byte>)
    ensures 1 <= |s| <= 4
  {
    if c < 0x80 then [c]
    else if c < 0x800 then [0xC0 + c / 0x40, 0x80 + c % 0x40]
    else if c < 0x1_0000 then [0xE0 + c / 0x1000, 0x80 + c / 0x40 % 0x40, 0x80 + c % 0x40]
    else [0xF0 + c / 0x4_0000, 0x80 + c / 0x1000 % 0x40, 0x80 + c / 0x40 % 0x40, 0x80 + c % 0x40]
  }

  function EncodeAll(cs: seq<Scalar>): seq<Byte> {
    if cs == [] then [] else Encode(cs[0]) + EncodeAll(cs[1..])
  }

  ghost predicate IsUtf8(s: seq<Byte>) {
    exists cs :: EncodeAll(cs) == s
  }

  /** The scalar values a valid text stands for; `EncodingIsInjective` says there is only one choice. */
  ghost function Scalars(s: seq<Byte>): (cs: seq<Scalar>)
    requires IsUtf8(s)
    ensures EncodeAll(cs) == s
  {
    var cs :| EncodeAll(cs) == s;
    cs
  }

  // ---------- bit masks ----------

  /** A byte with its low bits cleared: `b & 0xC0` is `ClearLow(b, 0x40)`, `b & 0xE0` is `ClearLow(b, 0x20)`,
      and so on; the complementary `b & 0x3F` is `b % 0x40`. */
  function ClearLow(b: Byte, unit: int): int
    requires unit > 0
  {
    b - b % unit
  }

  /** The source's masks on a byte as a bit vector: clearing low bits, as `ClearLow` does, and keeping them. */
  lemma MasksAreArithmetic(b: bv8)
    ensures (b & 0xC0) as int == (b as int) - (b as int) % 0x40
    ensures (b & 0xE0) as int == (b as int) - (b as int) % 0x20
    ensures (b & 0xF0) as int == (b as int) - (b as int) % 0x10
    ensures (b & 0xF8) as int == (b as int) - (b as int) % 0x08
    ensures (b & 0x3F) as int == (b as int) % 0x40
    ensures (b & 0x1F) as int == (b as int) % 0x20
    ensures (b & 0x0F) as int == (b as int) % 0x10
    ensures (b & 0x07) as int == (b as int) % 0x08
  {
  }

  /** Shifting the next six bits in is a multiplication, and a code point has room for it. */
  lemma ShiftIsTimes64(c: bv32, low: bv32)
    requires c < 0x8000 && low < 0x40
    ensures (c << 6) | low == c * 0x40 + low < 0x20_0000
  {
  }

  predicate IsContinuation(b: Byte) {
    ClearLow(b, 0x40) == 0x80
  }

  /** The length a lead byte announces, or 0 for a byte that cannot lead. */
  function LeadLength(lead: Byte): nat {
    if lead < 0x80 then 1
    else if ClearLow(lead, 0x20) == 0xC0 then 2
    else if ClearLow(lead, 0x10) == 0xE0 then 3
    else if ClearLow(lead, 0x08) == 0xF0 then 4
    else 0
  }

  // ---------- the encoding is a prefix code ----------

  lemma ContinuationRange(b: Byte)
    ensures IsContinuation(b) <==> 0x80 <= b <= 0xBF
  {
  }

  lemma LeadRange(b: Byte)
    ensures LeadLength(b) == if b < 0x80 then 1 else if b < 0xC0 then 0 else if b < 0xE0 then 2
                             else if b < 0xF0 then 3 else if b < 0xF8 then 4 else 0
  {
  }

  lemma EncodeShape(c: Scalar)
    ensures LeadLength(Encode(c)[0]) == |Encode(c)|
    ensures !IsContinuation(Encode(c)[0])
    ensures forall i :: 1 <= i < |Encode(c)| ==> IsContinuation(Encode(c)[i])
  {
    var s := Encode(c);
    LeadRange(s[0]);
    ContinuationRange(s[0]);
    forall i | 1 <= i < |s| ensures IsContinuation(s[i]) { ContinuationRange(s[i]); }
  }

  /** The value bits of the lead byte of a sequence of this length. */
  function LeadPayload(lead: int, length: nat): int {
    if length == 2 then lead % 0x20
    else if length == 3 then lead % 0x10
    else if length == 4 then lead % 0x08
    else lead
  }

  /** The value bits of the first bytes of a sequence of this length, six from each continuation byte. */
  function Payload(s: seq<Byte>, length: nat): int
    requires s != []
  {
    if |s| == 1 then LeadPayload(s[0], length)
    else Payload(s[..|s| - 1], length) * 0x40 + s[|s| - 1] % 0x40
  }

  lemma DivideAgain(c: nat)
    ensures c / 0x1000 == c / 0x40 / 0x40 && c / 0x4_0000 == c / 0x40 / 0x40 / 0x40
  {
  }

  lemma PayloadAppend(s: seq<Byte>, b: Byte, length: nat)
    requires s != []
    ensures Payload(s + [b], length) == Payload(s, length) * 0x40 + b % 0x40
  {
    assert (s + [b])[..|s|] == s;
  }

  lemma PayloadOfTwo(a: Byte, b: Byte, length: nat)
    ensures Payload([a, b], length) == LeadPayload(a, length) * 0x40 + b % 0x40
  {
    PayloadAppend([a], b, length);
  }

  lemma PayloadOfThree(a: Byte, b: Byte, c: Byte, length: nat)
    ensures Payload([a, b, c], length) == (LeadPayload(a, length) * 0x40 + b % 0x40) * 0x40 + c % 0x40
  {
    PayloadOfTwo(a, b, length);
    PayloadAppend([a, b], c, length);
    assert [a, b] + [c] == [a, b, c];
  }

  lemma PayloadOfFour(a: Byte, b: Byte, c: Byte, d: Byte, length: nat)
    ensures Payload([a, b, c, d], length) ==
            ((LeadPayload(a, length) * 0x40 + b % 0x40) * 0x40 + c % 0x40) * 0x40 + d % 0x40
  {
    PayloadOfThree(a, b, c, length);
    PayloadAppend([a, b, c], d, length);
    assert [a, b, c] + [d] == [a, b, c, d];
  }

  lemma TagsDropOut(x: nat)
    ensures x < 0x40 ==> (0x80 + x) % 0x40 == x
    ensures x < 0x20 ==> (0xC0 + x) % 0x20 == x
    ensures x < 0x10 ==> (0xE0 + x) % 0x10 == x
    ensures x < 0x08 ==> (0xF0 + x) % 0x08 == x
  {
  }

  lemma TwoBytePayload(c: Scalar)
    requires 0x80 <= c < 0x800
    ensures Payload(Encode(c), 2) == c
  {
    var s := Encode(c);
    PayloadOfTwo(s[0], s[1], 2);
    TagsDropOut(c % 0x40);
    TagsDropOut(c / 0x40);
  }

  lemma ThreeBytePayload(c: Scalar)
    requires 0x800 <= c < 0x1_0000
    ensures Payload(Encode(c), 3) == c
  {
    var s, c1: int := Encode(c), c / 0x40;
    PayloadOfThree(s[0], s[1], s[2], 3);
    TagsDropOut(c % 0x40);
    TagsDropOut(c1 % 0x40);
    TagsDropOut(c1 / 0x40);
    DivideAgain(c);
  }

  lemma FourBytePayload(c: Scalar)
    requires 0x1_0000 <= c
    ensures Payload(Encode(c), 4) == c
  {
    var s, c1: int := Encode(c), c / 0x40;
    var c2 := c1 / 0x40;
    PayloadOfFour(s[0], s[1], s[2], s[3], 4);
    TagsDropOut(c % 0x40);
    TagsDropOut(c1 % 0x40);
    TagsDropOut(c2 % 0x40);
    TagsDropOut(c2 / 0x40);
    DivideAgain(c);
    assert s == [0xF0 + c2 / 0x40, 0x80 + c2 % 0x40, 0x80 + c1 % 0x40, 0x80 + c % 0x40];
  }

  /** Reading back the value bits of an encoded scalar gives the scalar. */
  lemma EncodePayload(c: Scalar)
    ensures Payload(Encode(c), |Encode(c)|) == c
  {
    if c < 0x80 {
    } else if c < 0x800 {
      TwoBytePayload(c);
    } else if c < 0x1_0000 {
      ThreeBytePayload(c);
    } else {
      FourBytePayload(c);
    }
  }

  lemma Digit(high: nat, low: nat)
    requires low < 0x40
    ensures (high * 0x40 + low) / 0x40 == high && (high * 0x40 + low) % 0x40 == low
  {
  }

  lemma TwoBytes(a: int, b: int, v: int)
    requires 0xC0 <= a <= 0xDF && 0x80 <= b <= 0xBF
    requires v == (a - 0xC0) * 0x40 + (b - 0x80) >= 0x80
    ensures Encode(v) == [a, b]
  {
    Digit(a - 0xC0, b - 0x80);
  }

  lemma ThreeBytes(a: int, b: int, c: int, v: int)
    requires 0xE0 <= a <= 0xEF && 0x80 <= b <= 0xBF && 0x80 <= c <= 0xBF
    requires v == ((a - 0xE0) * 0x40 + (b - 0x80)) * 0x40 + (c - 0x80) >= 0x800
    requires !(0xD800 <= v <= 0xDFFF)
    ensures Encode(v) == [a, b, c]
  {
    Digit(a - 0xE0, b - 0x80);
    Digit((a - 0xE0) * 0x40 + (b - 0x80), c - 0x80);
    DivideAgain(v);
  }

  lemma FourBytes(a: int, b: int, c: int, d: int, v: int)
    requires 0xF0 <= a <= 0xF7 && 0x80 <= b <= 0xBF && 0x80 <= c <= 0xBF && 0x80 <= d <= 0xBF
    requires v == (((a - 0xF0) * 0x40 + (b - 0x80)) * 0x40 + (c - 0x80)) * 0x40 + (d - 0x80)
    requires 0x1_0000 <= v <= 0x10FFFF
    ensures Encode(v) == [a, b, c, d]
  {
    Digit(a - 0xF0, b - 0x80);
    Digit((a - 0xF0) * 0x40 + (b - 0x80), c - 0x80);
    Digit(((a - 0xF0) * 0x40 + (b - 0x80)) * 0x40 + (c - 0x80), d - 0x80);
    DivideAgain(v);
    DivideAgain(v / 0x40);
  }

  /** A lead byte followed by as many continuation bytes as it announces. */
  predicate IsSequence(s: seq<Byte>) {
    1 <= |s| <= 4 && LeadLength(s[0]) == |s| && forall i :: 1 <= i < |s| ==> IsContinuation(s[i])
  }

  predicate IsOverlong(length: nat, v: int) {
    (length == 2 && v < 0x80) || (length == 3 && v < 0x800) || (length == 4 && v < 0x1_0000)
  }

  predicate IsScalar(v: int) {
    0 <= v <= 0x10FFFF && !(0xD800 <= v <= 0xDFFF)
  }

  /** A sequence whose value is a scalar value and not overlong is the encoding of that value. */
  lemma PayloadEncodes(s: seq<Byte>)
    requires IsSequence(s) && !IsOverlong(|s|, Payload(s, |s|)) && IsScalar(Payload(s, |s|))
    ensures Encode(Payload(s, |s|)) == s
  {
    LeadRange(s[0]);
    forall i | 1 <= i < |s| ensures 0x80 <= s[i] <= 0xBF { ContinuationRange(s[i]); }
    if |s| == 2 {
      assert s == [s[0], s[1]];
      PayloadOfTwo(s[0], s[1], 2);
      TwoBytes(s[0], s[1], Payload(s, 2));
    } else if |s| == 3 {
      assert s == [s[0], s[1], s[2]];
      PayloadOfThree(s[0], s[1], s[2], 3);
      ThreeBytes(s[0], s[1], s[2], Payload(s, 3));
    } else if |s| == 4 {
      assert s == [s[0], s[1], s[2], s[3]];
      PayloadOfFour(s[0], s[1], s[2], s[3], 4);
      FourBytes(s[0], s[1], s[2], s[3], Payload(s, 4));
    }
  }

  /** Conversely nothing the encoder writes is overlong. */
  lemma EncodeIsSequence(c: Scalar)
    ensures IsSequence(Encode(c)) && !IsOverlong(|Encode(c)|, c)
  {
    EncodeShape(c);
  }

  /** Two texts that start with encoded scalars and agree start with the same scalar. */
  lemma PrefixCode(c: Scalar, s: seq<Byte>, d: Scalar, t: seq<Byte>)
    requires Encode(c) + s == Encode(d) + t
    ensures c == d && s == t
  {
    EncodeShape(c);
    EncodeShape(d);
    EncodePayload(c);
    EncodePayload(d);
    assert (Encode(c) + s)[0] == Encode(c)[0] && (Encode(d) + t)[0] == Encode(d)[0];
    assert Encode(c) == (Encode(c) + s)[..|Encode(c)|] == (Encode(d) + t)[..|Encode(d)|] == Encode(d);
    assert s == (Encode(c) + s)[|Encode(c)|..] == t;
  }

  lemma {:induction false} EncodingIsInjective(cs: seq<Scalar>, ds: seq<Scalar>)
    requires EncodeAll(cs) == EncodeAll(ds)
    ensures cs == ds
  {
    if cs != [] && ds != [] {
      PrefixCode(cs[0], EncodeAll(cs[1..]), ds[0], EncodeAll(ds[1..]));
      EncodingIsInjective(cs[1..], ds[1..]);
      assert cs == [cs[0]] + cs[1..] && ds == [ds[0]] + ds[1..];
    }
  }

  lemma {:induction false} EncodeAllConcat(cs: seq<Scalar>, ds: seq<Scalar>)
    ensures EncodeAll(cs + ds) == EncodeAll(cs) + EncodeAll(ds)
  {
    if cs == [] {
      assert cs + ds == ds;
    } else {
      EncodeAllConcat(cs[1..], ds);
      assert (cs + ds)[1..] == cs[1..] + ds;
      Associates(Encode(cs[0]), EncodeAll(cs[1..]), EncodeAll(ds));
    }
  }

  // ---------- the validator ----------

  /** The bytes at the front of `s` are one scalar value, encoded as RFC 3629 allows. */
  predicate StartsWithScalar(s: seq<Byte>)
    requires s != []
  {
    var n := LeadLength(s[0]);
    1 <= n <= |s| && IsSequence(s[..n]) && !IsOverlong(n, Payload(s[..n], n)) && IsScalar(Payload(s[..n], n))
  }

  lemma PrependScalar(c: Scalar, s: seq<Byte>)
    requires IsUtf8(s)
    ensures IsUtf8(Encode(c) + s)
  {
    var cs := Scalars(s);
    assert ([c] + cs)[1..] == cs;
    assert EncodeAll([c] + cs) == Encode(c) + s;
  }

  /** A text is valid exactly when it starts with an encoded scalar value and what follows is valid. */
  lemma ValidFromTheFront(s: seq<Byte>)
    requires s != []
    ensures IsUtf8(s) <==> StartsWithScalar(s) && IsUtf8(s[LeadLength(s[0])..])
  {
    var n := LeadLength(s[0]);
    if IsUtf8(s) {
      var cs := Scalars(s);
      var e, rest := Encode(cs[0]), EncodeAll(cs[1..]);
      EncodeIsSequence(cs[0]);
      EncodePayload(cs[0]);
      assert s == e + rest && s[0] == e[0];
      assert s[..n] == e && s[n..] == rest;
    }
    if StartsWithScalar(s) && IsUtf8(s[n..]) {
      PayloadEncodes(s[..n]);
      PrependScalar(Payload(s[..n], n), s[n..]);
      assert s == s[..n] + s[n..];
    }
  }

  lemma EmptyIsValid()
    ensures IsUtf8([])
  {
    assert EncodeAll([]) == [];
  }

  /** The inner loop: takes the continuation bytes into the code point, or stops at one that is not. */
  method TakeContinuations(sequence: seq<Byte>, first: int) returns (ok: bool, codepoint: int)
    requires 1 <= |sequence| <= 4 && LeadLength(sequence[0]) == |sequence|
    requires first == LeadPayload(sequence[0], |sequence|)
    ensures ok <==> IsSequence(sequence)
    ensures ok ==> codepoint == Payload(sequence, |sequence|)
  {
    var length := |sequence|;
    codepoint := first;
    var index := 1;
    while index < length
      invariant 1 <= index <= length
      invariant codepoint == Payload(sequence[..index], length)
      invariant forall i :: 1 <= i < index ==> IsContinuation(sequence[i])
    {
      var continuation := sequence[index];
      if ClearLow(continuation, 0x40) != 0x80 {
        return false, codepoint;
      }
      PayloadAppend(sequence[..index], continuation, length);
      assert sequence[..index] + [continuation] == sequence[..index + 1];
      codepoint := codepoint * 0x40 + continuation % 0x40;
      index := index + 1;
    }
    assert sequence[..length] == sequence;
    return true, codepoint;
  }

  /** What is left of a scalar value when its continuation bytes have taken six bits each. */
  function TopBits(c: Scalar): int {
    if c < 0x80 then c else if c < 0x800 then c / 0x40 else if c < 0x1_0000 then c / 0x1000 else c / 0x4_0000
  }

  lemma LeadHasTopBits(c: Scalar)
    ensures LeadPayload(Encode(c)[0], |Encode(c)|) == TopBits(c)
  {
    TagsDropOut(TopBits(c));
  }

  /** The lead-byte branches. For every scalar value that starts with this byte they yield the length of
      its encoding and the bits that do not come from continuation bytes. */
  method TakeLead(lead: Byte) returns (length: nat, codepoint: int)
    ensures length == LeadLength(lead) && codepoint == LeadPayload(lead, length)
    ensures forall c: Scalar :: Encode(c)[0] == lead ==> length == |Encode(c)| && codepoint == TopBits(c)
  {
    forall c: Scalar | Encode(c)[0] == lead
      ensures LeadLength(lead) == |Encode(c)| && LeadPayload(lead, |Encode(c)|) == TopBits(c)
    {
      EncodeShape(c);
      LeadHasTopBits(c);
    }
    if lead < 0x80 {
      length, codepoint := 1, lead;
    } else if ClearLow(lead, 0x20) == 0xC0 {
      length, codepoint := 2, lead % 0x20;
    } else if ClearLow(lead, 0x10) == 0xE0 {
      length, codepoint := 3, lead % 0x10;
    } else if ClearLow(lead, 0x08) == 0xF0 {
      length, codepoint := 4, lead % 0x08;
    } else {
      length, codepoint := 0, lead;
    }
  }

  /** The validator: true exactly for concatenated encodings of scalar values. */
  method ValidUtf8(text: seq<Byte>) returns (valid: bool)
    ensures valid <==> IsUtf8(text)
  {
    var offset := 0;
    while offset < |text|
      invariant offset <= |text|
      invariant IsUtf8(text) <==> IsUtf8(text[offset..])
    {
      ghost var rest := text[offset..];
      ValidFromTheFront(rest);
      var lead := text[offset];
      var length, codepoint := TakeLead(lead);
      if length == 0 || offset + length > |text| {
        return false;
      }
      var sequence := text[offset..offset + length];
      assert sequence == rest[..length] && text[offset + length..] == rest[length..];
      var ok;
      ok, codepoint := TakeContinuations(sequence, codepoint);
      if !ok || IsOverlong(length, codepoint) || !IsScalar(codepoint) {
        return false;
      }
      offset := offset + length;
    }
    assert text[offset..] == [];
    EmptyIsValid();
    return true;
  }
}
