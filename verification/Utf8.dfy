/** UTF-8 (section 3 of RFC 3629): encoding, branchless decoding and iteration over code points. */
module Utf8 {
  /** An unsigned char, held in a machine word. */
  type byte = b: bv32 | b <= 0xff

  /** A Unicode scalar value. */
  predicate Scalar(c: bv32) { c <= 0xd7ff || 0xe000 <= c <= 0x10ffff }

  type scalar = c: bv32 | Scalar(c)

  /** The bytes of one scalar value. */
  function Bytes(c: scalar): (r: seq<byte>)
    ensures 1 <= |r| <= 4
  {
    if c < 0x80 then [c]
    else if c < 0x800 then [0xc0 | (c >> 6), 0x80 | (c & 0x3f)]
    else if c < 0x10000 then [0xe0 | (c >> 12), 0x80 | ((c & 0xfff) >> 6), 0x80 | (c & 0x3f)]
    else
      assert Scalar(c);
      [0xf0 | (c >> 18), 0x80 | ((c & 0x3ffff) >> 12), 0x80 | ((c & 0xfff) >> 6), 0x80 | (c & 0x3f)]
  }

  function EncodeAll(cs: seq<scalar>): seq<byte> {
    if cs == [] then [] else Bytes(cs[0]) + EncodeAll(cs[1..])
  }

  lemma {:induction false} EncodePush(cs: seq<scalar>, c: scalar)
    ensures EncodeAll(cs + [c]) == EncodeAll(cs) + Bytes(c)
  {
    if cs == [] {
      assert [c][1..] == [] && EncodeAll([c]) == Bytes(c) + [];
    } else {
      assert (cs + [c])[1..] == cs[1..] + [c];
      EncodePush(cs[1..], c);
    }
  }

  predicate Tail(b: bv32) { 0x80 <= b <= 0xbf }

  predicate PairOf(c: bv32, w: bv32, x: bv32) {
    0xc2 <= w <= 0xdf && Tail(x) && c == ((w - 0xc0) << 6) + (x - 0x80)
  }

  predicate TripleOf(c: bv32, w: bv32, x: bv32, y: bv32) {
    0xe0 <= w <= 0xef && Tail(x) && Tail(y) && c == ((w - 0xe0) << 12) + ((x - 0x80) << 6) + (y - 0x80)
  }

  predicate QuadrupleOf(c: bv32, w: bv32, x: bv32, y: bv32, z: bv32) {
    && 0xf0 <= w <= 0xf4 && Tail(x) && Tail(y) && Tail(z)
    && c == ((w - 0xf0) << 18) + ((x - 0x80) << 12) + ((y - 0x80) << 6) + (z - 0x80)
  }

  /** Lead and tail bytes by range, and the bits they carry, highest first. */
  lemma BytesByRange(c: scalar)
    ensures var b := Bytes(c);
            if c < 0x80 then b == [c]
            else if c < 0x800 then |b| == 2 && PairOf(c, b[0], b[1])
            else if c < 0x10000 then |b| == 3 && TripleOf(c, b[0], b[1], b[2])
            else |b| == 4 && QuadrupleOf(c, b[0], b[1], b[2], b[3])
  {
    hide PairOf, TripleOf, QuadrupleOf;
    assert Scalar(c);
    if 0x80 <= c < 0x800 { TwoByRange(c); }
    if 0x800 <= c < 0x10000 { ThreeByRange(c); }
    if c >= 0x10000 { FourByRange(c); }
  }

  lemma TwoByRange(c: bv32)
    requires 0x80 <= c < 0x800
    ensures PairOf(c, 0xc0 | (c >> 6), 0x80 | (c & 0x3f))
  {}

  lemma ThreeByRange(c: bv32)
    requires 0x800 <= c < 0x10000
    ensures TripleOf(c, 0xe0 | (c >> 12), 0x80 | ((c & 0xfff) >> 6), 0x80 | (c & 0x3f))
  {}

  lemma FourByRange(c: bv32)
    requires 0x10000 <= c <= 0x10ffff
    ensures QuadrupleOf(c, 0xf0 | (c >> 18), 0x80 | ((c & 0x3ffff) >> 12), 0x80 | ((c & 0xfff) >> 6), 0x80 | (c & 0x3f))
  {}

  // ---- Decoding one code point ----

  /** The table entry for the lead byte; 0 when the byte cannot lead. */
  function LengthEntry(lead: byte): nat {
    var k := lead >> 3;
    if k < 16 then 1
    else if k < 24 then 0
    else if k < 28 then 2
    else if k < 30 then 3
    else if k < 31 then 4
    else 0
  }

  function CodePointLength(lead: byte): (len: nat)
    ensures 1 <= len <= 4
  {
    LengthEntry(lead) + if LengthEntry(lead) == 0 then 1 else 0
  }

  function Mask(len: nat): bv32 {
    if len == 1 then 0x7f else if len == 2 then 0x1f else if len == 3 then 0x0f else 0x07
  }

  function Min(len: nat): bv32 {
    if len == 1 then 0 else if len == 2 then 128 else if len == 3 then 2048 else 65536
  }

  function Code(b0: byte, b1: byte, b2: byte, b3: byte, len: nat): bv32 {
    var c := ((b0 & Mask(len)) << 18) | ((b1 & 0x3f) << 12) | ((b2 & 0x3f) << 6) | (b3 & 0x3f);
    if len == 1 then c >> 18 else if len == 2 then c >> 12 else if len == 3 then c >> 6 else c
  }

  function Error(c: bv32, b1: byte, b2: byte, b3: byte, len: nat): bv32 {
    var e: bv32 := if c < Min(len) then 1 << 6 else 0;
    var e := e | if c >> 11 == 0x1b then 1 << 7 else 0;
    var e := e | if c > 0x10ffff then 1 << 8 else 0;
    var e := e | ((b1 & 0xc0) >> 2) | ((b2 & 0xc0) >> 4) | (b3 >> 6);
    var e := e ^ 0x2a;
    if len == 1 then e >> 6 else if len == 2 then e >> 4 else if len == 3 then e >> 2 else e
  }

  datatype Decoded = Decoded(len: nat, code: bv32, error: bv32)

  /** Four bytes are read whatever the length; those that do not belong are shifted out. */
  function Decode(b0: byte, b1: byte, b2: byte, b3: byte): (d: Decoded)
    ensures 1 <= d.len <= 4
  {
    var len := CodePointLength(b0);
    var c := Code(b0, b1, b2, b3, len);
    Decoded(len, c, Error(c, b1, b2, b3, len))
  }

  predicate IsTwo(c: bv32, b0: byte, b1: byte) {
    0x80 <= c < 0x800 && b0 == 0xc0 | (c >> 6) && b1 == 0x80 | (c & 0x3f)
  }

  predicate IsThree(c: bv32, b0: byte, b1: byte, b2: byte) {
    && 0x800 <= c < 0x10000 && Scalar(c)
    && b0 == 0xe0 | (c >> 12) && b1 == 0x80 | ((c & 0xfff) >> 6) && b2 == 0x80 | (c & 0x3f)
  }

  predicate IsFour(c: bv32, b0: byte, b1: byte, b2: byte, b3: byte) {
    && 0x10000 <= c <= 0x10ffff && b0 == 0xf0 | (c >> 18) && b1 == 0x80 | ((c & 0x3ffff) >> 12)
    && b2 == 0x80 | ((c & 0xfff) >> 6) && b3 == 0x80 | (c & 0x3f)
  }

  lemma OneBits(b0: byte, b1: byte, b2: byte, b3: byte)
    ensures var c := Code(b0, b1, b2, b3, 1);
            c == b0 & 0x7f && Error(c, b1, b2, b3, 1) == 0
  {
    hide Error;
    assert Code(b0, b1, b2, b3, 1) == b0 & 0x7f;
    LowError(b0 & 0x7f, b1, b2, b3);
  }

  lemma LowError(c: bv32, b1: byte, b2: byte, b3: byte)
    requires c <= 0x7f
    ensures Error(c, b1, b2, b3, 1) == 0
  {}

  lemma TwoBits(b0: byte, b1: byte, b2: byte, b3: byte)
    requires 0xc0 <= b0 <= 0xdf
    ensures var c := Code(b0, b1, b2, b3, 2);
            Error(c, b1, b2, b3, 2) == 0 <==> IsTwo(c, b0, b1)
  {}

  lemma ThreeBits(b0: byte, b1: byte, b2: byte, b3: byte)
    requires 0xe0 <= b0 <= 0xef
    ensures var c := Code(b0, b1, b2, b3, 3);
            Error(c, b1, b2, b3, 3) == 0 <==> IsThree(c, b0, b1, b2)
  {}

  lemma FourBits(b0: byte, b1: byte, b2: byte, b3: byte)
    requires 0xf0 <= b0 <= 0xf7
    ensures var c := Code(b0, b1, b2, b3, 4);
            Error(c, b1, b2, b3, 4) == 0 <==> IsFour(c, b0, b1, b2, b3)
  {}

  lemma LeadRange(b: byte)
    ensures LengthEntry(b) == 1 <==> b < 0x80
    ensures LengthEntry(b) == 2 <==> 0xc0 <= b <= 0xdf
    ensures LengthEntry(b) == 3 <==> 0xe0 <= b <= 0xef
    ensures LengthEntry(b) == 4 <==> 0xf0 <= b <= 0xf7
  {}

  /** No error means exactly that the bytes are those of the code point, or that the lead byte leads nothing. */
  lemma DecodeExact(b0: byte, b1: byte, b2: byte, b3: byte)
    ensures var d := Decode(b0, b1, b2, b3);
            d.error == 0 <==>
              LengthEntry(b0) == 0 || (Scalar(d.code) && Bytes(d.code) == [b0, b1, b2, b3][..d.len])
  {
    hide Code, Error, LengthEntry;
    LeadRange(b0);
    var d := Decode(b0, b1, b2, b3);
    var four := [b0, b1, b2, b3];
    assert four[..1] == [b0] && four[..2] == [b0, b1] && four[..3] == [b0, b1, b2] && four[..4] == four;
    if d.len == 1 {
      OneBits(b0, b1, b2, b3);
      LowBits(b0);
    } else if d.len == 2 {
      TwoBits(b0, b1, b2, b3);
    } else if d.len == 3 {
      ThreeBits(b0, b1, b2, b3);
    } else {
      FourBits(b0, b1, b2, b3);
    }
  }

  lemma LowBits(b: byte)
    ensures b & 0x7f < 0x80 && (b < 0x80 ==> b & 0x7f == b)
  {}

  // ---- Iterating ----

  datatype Visit = Visit(code: bv32, error: bv32)

  /** The byte at i; past the end the padding of the tail block. */
  function At(s: seq<byte>, i: nat): byte { if i < |s| then s[i] else 0 }

  function DecodeAt(s: seq<byte>, i: nat): Decoded {
    Decode(At(s, i), At(s, i + 1), At(s, i + 2), At(s, i + 3))
  }

  /** What is visited from i on. */
  function Visits(s: seq<byte>, i: nat): seq<Visit>
    decreases |s| - i
  {
    if i >= |s| then []
    else
      var d := DecodeAt(s, i);
      [Visit(d.code, d.error)] + Visits(s, i + d.len)
  }

  lemma VisitStep(s: seq<byte>, seen: seq<Visit>, i: nat, d: Decoded)
    requires i < |s| && d == DecodeAt(s, i)
    ensures seen + Visits(s, i) == (seen + [Visit(d.code, d.error)]) + Visits(s, i + d.len)
  {
    hide Decode;
    assert seen + ([Visit(d.code, d.error)] + Visits(s, i + d.len)) ==
        (seen + [Visit(d.code, d.error)]) + Visits(s, i + d.len);
  }

  lemma VisitsDone(s: seq<byte>, seen: seq<Visit>, i: nat)
    requires i >= |s|
    ensures seen + Visits(s, i) == seen
  {}

  /** How many bytes a lead byte asks for; a byte that cannot lead asks for itself. */
  function Asks(lead: byte): nat {
    if 0xc0 <= lead <= 0xdf then 2 else if 0xe0 <= lead <= 0xef then 3 else if 0xf0 <= lead <= 0xf7 then 4 else 1
  }

  /** The k-th visit is of the code point at the k-th position; the next position, or the end, is as many bytes
      further as that asks for. */
  ghost predicate VisitedHere(s: seq<byte>, visits: seq<Visit>, at: seq<nat>, k: nat)
    requires k < |at| == |visits|
  {
    && at[k] < |s|
    && (var d := DecodeAt(s, at[k]); visits[k] == Visit(d.code, d.error))
    && (var next := at[k] + Asks(s[at[k]]); if k + 1 < |at| then at[k + 1] == next else next >= |s|)
  }

  /** The code points visited are those at these positions, from i on until the string is used up, whether
      there are errors or not. */
  ghost predicate VisitedAt(s: seq<byte>, i: nat, visits: seq<Visit>, at: seq<nat>) {
    && |at| == |visits|
    && (if at == [] then i >= |s| else at[0] == i)
    && (forall k: nat :: k < |at| ==> VisitedHere(s, visits, at, k))
  }

  lemma AsksLength(lead: byte)
    ensures CodePointLength(lead) == Asks(lead)
  {
    LeadRange(lead);
    hide LengthEntry;
    ShortEntry(lead);
  }

  lemma ShortEntry(lead: byte)
    ensures LengthEntry(lead) <= 4
  {}

  lemma VisitedLater(s: seq<byte>, visits: seq<Visit>, at: seq<nat>, v: Visit, i: nat, k: nat)
    requires k < |at| == |visits| && VisitedHere(s, visits, at, k)
    ensures VisitedHere(s, [v] + visits, [i] + at, k + 1)
  {
    hide Decode, Asks;
    var more, places := [v] + visits, [i] + at;
    assert places[k + 1] == at[k] && more[k + 1] == visits[k];
    assert k + 1 < |at| ==> places[k + 2] == at[k + 1];
  }

  lemma VisitedMore(s: seq<byte>, i: nat, visits: seq<Visit>, at: seq<nat>)
    requires i < |s| && VisitedAt(s, i + Asks(s[i]), visits, at)
    ensures var d := DecodeAt(s, i); VisitedAt(s, i, [Visit(d.code, d.error)] + visits, [i] + at)
  {
    hide Decode, Asks, VisitedHere;
    var d := DecodeAt(s, i);
    var more, places := [Visit(d.code, d.error)] + visits, [i] + at;
    VisitedNow(s, i, visits, at);
    forall k: nat | k < |places| ensures VisitedHere(s, more, places, k) {
      if k > 0 { VisitedLater(s, visits, at, Visit(d.code, d.error), i, k - 1); }
    }
  }

  lemma VisitedNow(s: seq<byte>, i: nat, visits: seq<Visit>, at: seq<nat>)
    requires i < |s| && |at| == |visits|
    requires if at == [] then i + Asks(s[i]) >= |s| else at[0] == i + Asks(s[i])
    ensures var d := DecodeAt(s, i); VisitedHere(s, [Visit(d.code, d.error)] + visits, [i] + at, 0)
  {
    hide Decode, Asks;
    assert at != [] ==> ([i] + at)[1] == at[0];
  }

  lemma {:induction false} VisitsAreAt(s: seq<byte>, i: nat) returns (at: seq<nat>)
    ensures VisitedAt(s, i, Visits(s, i), at)
    decreases |s| - i
  {
    hide VisitedAt, Code, Error, CodePointLength, Asks;
    if i >= |s| {
      NothingVisited(s, i);
      return [];
    }
    AsksLength(s[i]);
    var rest := VisitsAreAt(s, i + DecodeAt(s, i).len);
    VisitedMore(s, i, Visits(s, i + DecodeAt(s, i).len), rest);
    at := [i] + rest;
  }

  lemma NothingVisited(s: seq<byte>, i: nat)
    requires i >= |s|
    ensures VisitedAt(s, i, [], [])
  {}

  /** Blocks of four in place, then a padded copy of what is left. Returns the calls made to the visitor. */
  method ForEachCodepoint(s: seq<byte>) returns (visits: seq<Visit>)
    ensures visits == Visits(s, 0)
    ensures exists at: seq<nat> :: VisitedAt(s, 0, visits, at)
  {
    hide Decode, Visits, VisitedAt;
    visits := [];
    var p := 0;
    if |s| >= 4 {
      var end := |s| - 4 + 1;
      while p < end
        invariant 0 <= p <= |s| && Visits(s, 0) == visits + Visits(s, p)
        decreases |s| - p
      {
        var d := Decode(s[p], s[p + 1], s[p + 2], s[p + 3]);
        VisitStep(s, visits, p, d);
        visits := visits + [Visit(d.code, d.error)];
        p := p + d.len;
      }
    }
    if p != |s| {
      visits := VisitTail(s, p, visits);
    } else {
      VisitsDone(s, visits, p);
    }
    ghost var at := VisitsAreAt(s, 0);
  }

  /** The last one to three bytes, in a block padded with zeros. */
  method VisitTail(s: seq<byte>, p: nat, seen: seq<Visit>) returns (visits: seq<Visit>)
    requires p < |s| < p + 4
    ensures visits == seen + Visits(s, p)
  {
    hide Decode, Visits;
    var left := |s| - p;
    var buf := PadBlock(s[p..]);
    var q := 0;
    visits := seen;
    assert forall k :: 0 <= k < 7 ==> At(s[p..], k) == At(s, p + k);
    while true
      invariant forall k :: 0 <= k < 7 ==> buf[k] == At(s, p + k)
      invariant 0 <= q < left && seen + Visits(s, p) == visits + Visits(s, p + q)
      decreases left - q
    {
      var d := Decode(buf[q], buf[q + 1], buf[q + 2], buf[q + 3]);
      VisitStep(s, visits, p + q, d);
      visits := visits + [Visit(d.code, d.error)];
      q := q + d.len;
      if q >= left {
        VisitsDone(s, visits, p + q);
        return;
      }
    }
  }

  /** A block of seven bytes that starts with the given ones. */
  method PadBlock(t: seq<byte>) returns (buf: array<byte>)
    requires |t| < 4
    ensures buf.Length == 7 && forall k :: 0 <= k < 7 ==> buf[k] == At(t, k)
  {
    buf := new byte[7](i => 0);
    var i := 0;
    while i < |t|
      invariant 0 <= i <= |t| && forall k :: 0 <= k < 7 ==> buf[k] == if k < i then t[k] else 0
    {
      buf[i] := t[i];
      i := i + 1;
    }
  }

  /** Every code point, each without error. */
  function Clean(cs: seq<scalar>): seq<Visit> {
    if cs == [] then [] else [Visit(cs[0], 0)] + Clean(cs[1..])
  }

  // ---- Round trip ----

  lemma TwoBack(c: scalar, b0: byte, b1: byte, b2: byte, b3: byte)
    requires IsTwo(c, b0, b1)
    ensures 0xc0 <= b0 <= 0xdf && Code(b0, b1, b2, b3, 2) == c
  {}

  lemma ThreeBack(c: scalar, b0: byte, b1: byte, b2: byte, b3: byte)
    requires IsThree(c, b0, b1, b2)
    ensures 0xe0 <= b0 <= 0xef && Code(b0, b1, b2, b3, 3) == c
  {}

  lemma FourBack(c: scalar, b0: byte, b1: byte, b2: byte, b3: byte)
    requires IsFour(c, b0, b1, b2, b3)
    ensures 0xf0 <= b0 <= 0xf7 && Code(b0, b1, b2, b3, 4) == c
  {}

  /** The bytes of c decode to c, whatever follows them. */
  lemma BytesDecode(c: scalar, b0: byte, b1: byte, b2: byte, b3: byte)
    requires Bytes(c) == [b0, b1, b2, b3][..|Bytes(c)|]
    ensures Decode(b0, b1, b2, b3) == Decoded(|Bytes(c)|, c, 0) && LengthEntry(b0) != 0
  {
    hide Code, Error, LengthEntry;
    LeadRange(b0);
    var four := [b0, b1, b2, b3];
    assert four[..1] == [b0] && four[..2] == [b0, b1] && four[..3] == [b0, b1, b2] && four[..4] == four;
    if c < 0x80 {
      OneBits(b0, b1, b2, b3);
      LowBits(b0);
    } else if c < 0x800 {
      TwoBack(c, b0, b1, b2, b3);
      TwoBits(b0, b1, b2, b3);
    } else if c < 0x10000 {
      ThreeBack(c, b0, b1, b2, b3);
      ThreeBits(b0, b1, b2, b3);
    } else {
      assert Scalar(c);
      FourBack(c, b0, b1, b2, b3);
      FourBits(b0, b1, b2, b3);
    }
  }

  lemma BytesDecodeAt(s: seq<byte>, i: nat, c: scalar)
    requires i < |s| && Bytes(c) <= s[i..]
    ensures DecodeAt(s, i) == Decoded(|Bytes(c)|, c, 0) && LengthEntry(s[i]) != 0
  {
    hide Decode, Bytes, LengthEntry;
    var n := |Bytes(c)|;
    var four := [At(s, i), At(s, i + 1), At(s, i + 2), At(s, i + 3)];
    assert forall k :: 0 <= k < n ==> Bytes(c)[k] == s[i..][k] == four[k];
    assert Bytes(c) == four[..n];
    BytesDecode(c, At(s, i), At(s, i + 1), At(s, i + 2), At(s, i + 3));
  }

  /** Every position visited starts a code point and none is in error. */
  predicate Sound(s: seq<byte>, i: nat)
    decreases |s| - i
  {
    i >= |s| ||
    var d := DecodeAt(s, i);
    d.error == 0 && LengthEntry(s[i]) != 0 && Sound(s, i + d.len)
  }

  lemma {:induction false} EncodedVisits(s: seq<byte>, i: nat, cs: seq<scalar>)
    requires i <= |s| && s[i..] == EncodeAll(cs)
    ensures Visits(s, i) == Clean(cs) && Sound(s, i)
    decreases |cs|
  {
    hide Decode, Bytes, LengthEntry;
    if cs != [] {
      EncodedFirst(s, i, cs);
      EncodedVisits(s, i + |Bytes(cs[0])|, cs[1..]);
    }
  }

  lemma EncodedFirst(s: seq<byte>, i: nat, cs: seq<scalar>)
    requires i <= |s| && cs != [] && s[i..] == EncodeAll(cs)
    ensures i < |s| && i + |Bytes(cs[0])| <= |s| && s[i + |Bytes(cs[0])|..] == EncodeAll(cs[1..])
    ensures DecodeAt(s, i) == Decoded(|Bytes(cs[0])|, cs[0], 0) && LengthEntry(s[i]) != 0
  {
    hide Decode, Bytes, LengthEntry;
    var n := |Bytes(cs[0])|;
    assert s[i..] == Bytes(cs[0]) + EncodeAll(cs[1..]);
    assert s[i + n..] == s[i..][n..] == EncodeAll(cs[1..]);
    BytesDecodeAt(s, i, cs[0]);
  }

  /** Encoding any scalar values and iterating visits exactly these, each without error. */
  lemma EncodeRoundTrip(cs: seq<scalar>)
    ensures Visits(EncodeAll(cs), 0) == Clean(cs)
  {
    assert EncodeAll(cs)[0..] == EncodeAll(cs);
    EncodedVisits(EncodeAll(cs), 0, cs);
  }

  /** A sound iteration reads back the encoding of something. */
  lemma {:induction false} SoundIsEncoded(s: seq<byte>, i: nat) returns (cs: seq<scalar>)
    requires i <= |s| && Sound(s, i)
    ensures s[i..] == EncodeAll(cs)
    decreases |s| - i
  {
    hide Decode, Bytes, LengthEntry;
    if i == |s| {
      return [];
    }
    var d := DecodeAt(s, i);
    SoundFirst(s, i);
    var rest := SoundIsEncoded(s, i + d.len);
    cs := [d.code] + rest;
    assert cs[1..] == rest;
    assert s[i..] == s[i..i + d.len] + s[i + d.len..];
  }

  lemma SoundFirst(s: seq<byte>, i: nat)
    requires i < |s| && DecodeAt(s, i).error == 0 && LengthEntry(s[i]) != 0
    ensures var d := DecodeAt(s, i);
            Scalar(d.code) && i + d.len <= |s| && s[i..i + d.len] == Bytes(d.code)
  {
    hide Decode, LengthEntry;
    DecodeExact(At(s, i), At(s, i + 1), At(s, i + 2), At(s, i + 3));
    var d := DecodeAt(s, i);
    TailBytes(d.code);
    InsideString(s, i, Bytes(d.code));
  }

  /** A block that matches bytes other than padding lies inside the string. */
  lemma InsideString(s: seq<byte>, i: nat, t: seq<byte>)
    requires i < |s| && 1 <= |t| <= 4 && t == [At(s, i), At(s, i + 1), At(s, i + 2), At(s, i + 3)][..|t|]
    requires forall k :: 0 < k < |t| ==> t[k] != 0
    ensures i + |t| <= |s| && s[i..i + |t|] == t
  {
    var four := [At(s, i), At(s, i + 1), At(s, i + 2), At(s, i + 3)];
    var last := |t| - 1;
    assert forall k :: 0 <= k < |t| ==> t[k] == four[k] == At(s, i + k);
    assert t[last] == At(s, i + last);
  }

  /** No byte but the first can be padding. */
  lemma TailBytes(c: scalar)
    ensures forall k :: 0 < k < |Bytes(c)| ==> Bytes(c)[k] != 0
  {}

  /** A string is well-formed UTF-8 if and only if the iteration is sound. */
  lemma SoundExactly(s: seq<byte>)
    ensures Sound(s, 0) <==> exists cs: seq<scalar> :: s == EncodeAll(cs)
  {
    assert s[0..] == s;
    if Sound(s, 0) {
      var cs := SoundIsEncoded(s, 0);
    }
    forall cs: seq<scalar> | s == EncodeAll(cs) ensures Sound(s, 0) {
      EncodedVisits(s, 0, cs);
    }
  }

  /** Absence of errors alone is not enough: a stray tail byte is visited as a code point. */
  lemma StrayByteGoesUnnoticed()
    ensures Visits([0x80], 0) == [Visit(0, 0)] && !Sound([0x80], 0)
  {
    assert Visits([0x80], 1) == [];
  }

  // ---- Encoding what a codecvt facet produced ----

  function HighOf(c: bv32): bv32 { 0xd800 | ((c - 0x10000) >> 10) }
  function LowOf(c: bv32): bv32 { 0xdc00 | ((c - 0x10000) & 0x3ff) }

  /** The code units of one scalar value: one, or a surrogate pair when units are 16 bits wide. */
  function Units(c: scalar, short: bool): seq<bv32> {
    if short && c >= 0x10000 then [HighOf(c), LowOf(c)] else [c]
  }

  function UnitsAll(cs: seq<scalar>, short: bool): seq<bv32> {
    if cs == [] then [] else Units(cs[0], short) + UnitsAll(cs[1..], short)
  }

  predicate High(u: bv32) { u & 0xfc00 == 0xd800 }
  predicate Low(u: bv32) { u & 0xfc00 == 0xdc00 }

  /** Values that fit the width of the units. */
  predicate Fit(units: seq<bv32>, short: bool) { short ==> forall k :: 0 <= k < |units| ==> units[k] <= 0xffff }

  function Combined(high: bv32, low: bv32): bv32 { (high << 10) + low - 0x35fdc00 }

  function Paired(high: bv32, low: bv32): scalar
    requires High(high) && Low(low) && high <= 0xffff && low <= 0xffff
  {
    PairBits(high, low);
    Combined(high, low)
  }

  lemma PairBits(high: bv32, low: bv32)
    requires High(high) && Low(low) && high <= 0xffff && low <= 0xffff
    ensures var c := Combined(high, low);
            0x10000 <= c <= 0x10ffff && HighOf(c) == high && LowOf(c) == low
  {}

  /** Both halves are recovered, in terms of the word operations alone. */
  lemma SplitAndCombine(c: bv32)
    requires 0x10000 <= c <= 0x10ffff
    ensures var h, l := 0xd800 | ((c - 0x10000) >> 10), 0xdc00 | ((c - 0x10000) & 0x3ff);
            && h & 0xfc00 == 0xd800 && l & 0xfc00 == 0xdc00 && h <= 0xffff && l <= 0xffff
            && (h << 10) + l - 0x35fdc00 == c
  {}

  lemma PairBitsBack(c: bv32)
    requires 0x10000 <= c <= 0x10ffff
    ensures var h, l := HighOf(c), LowOf(c);
            High(h) && Low(l) && h <= 0xffff && l <= 0xffff && Combined(h, l) == c
  {
    SplitAndCombine(c);
  }

  lemma PairIsUnits(high: bv32, low: bv32)
    requires High(high) && Low(low) && high <= 0xffff && low <= 0xffff
    ensures Units(Paired(high, low), true) == [high, low]
  {
    hide High, Low, HighOf, LowOf, Combined;
    PairBits(high, low);
  }

  lemma UnitsArePair(c: scalar)
    requires c >= 0x10000
    ensures var u := Units(c, true);
            |u| == 2 && High(u[0]) && Low(u[1]) && u[0] <= 0xffff && u[1] <= 0xffff && Paired(u[0], u[1]) == c
  {
    hide High, Low, HighOf, LowOf, Combined;
    assert Scalar(c);
    PairBitsBack(c);
  }

  /** A high and a low surrogate with ten bits each of what the value exceeds 0x10000 by. */
  predicate SurrogatesOf(c: bv32, high: bv32, low: bv32) {
    && 0xd800 <= high <= 0xdbff && 0xdc00 <= low <= 0xdfff
    && c == 0x10000 + ((high - 0xd800) << 10) + (low - 0xdc00)
  }

  lemma HalfBits(c: bv32)
    requires 0x10000 <= c <= 0x10ffff
    ensures 0xd800 <= HighOf(c) <= 0xdbff && HighOf(c) - 0xd800 == (c - 0x10000) >> 10
    ensures 0xdc00 <= LowOf(c) <= 0xdfff && LowOf(c) - 0xdc00 == (c - 0x10000) & 0x3ff
  {}

  lemma SplitTens(d: bv32)
    ensures ((d >> 10) << 10) + (d & 0x3ff) == d
  {}

  lemma HalvesByRange(c: bv32)
    requires 0x10000 <= c <= 0x10ffff
    ensures SurrogatesOf(c, HighOf(c), LowOf(c))
  {
    HalfBits(c);
    SplitTens(c - 0x10000);
  }

  lemma UnitsByRange(c: scalar)
    ensures c < 0x10000 ==> Units(c, true) == [c]
    ensures c >= 0x10000 ==>
              var u := Units(c, true);
              |u| == 2 && SurrogatesOf(c, u[0], u[1])
  {
    hide HighOf, LowOf, SurrogatesOf;
    assert Scalar(c);
    if c >= 0x10000 { HalvesByRange(c); }
  }

  lemma HighIsSurrogate(u: bv32)
    requires u <= 0xffff && High(u)
    ensures 0xd800 <= u <= 0xdfff && !Scalar(u)
  {}

  /** The scalar values the code units from p on stand for, if they stand for any. */
  datatype Text = Malformed | Text(cs: seq<scalar>)

  function Prepend(cs: seq<scalar>, t: Text): Text {
    if t.Malformed? then t else Text(cs + t.cs)
  }

  function TextOf(units: seq<bv32>, p: nat, short: bool): Text
    requires p <= |units| && Fit(units, short)
    decreases |units| - p
  {
    if p == |units| then Text([])
    else
      var c := units[p];
      if short && 0xd800 <= c <= 0xdfff then
        if p + 1 == |units| || !High(c) || !Low(units[p + 1]) then Malformed
        else Prepend([Paired(c, units[p + 1])], TextOf(units, p + 2, short))
      else if Scalar(c) then Prepend([c], TextOf(units, p + 1, short))
      else Malformed
  }

  /** What is read is what the units encode. */
  lemma {:induction false} TextIsUnits(units: seq<bv32>, p: nat, short: bool)
    requires p <= |units| && Fit(units, short) && TextOf(units, p, short).Text?
    ensures units[p..] == UnitsAll(TextOf(units, p, short).cs, short)
    decreases |units| - p
  {
    hide High, Low, HighOf, LowOf, Paired, Units;
    if p < |units| {
      var c, cs := units[p], TextOf(units, p, short).cs;
      if short && 0xd800 <= c <= 0xdfff {
        TextIsUnits(units, p + 2, short);
        PairIsUnits(c, units[p + 1]);
        assert cs[1..] == TextOf(units, p + 2, short).cs;
        assert units[p..] == [c, units[p + 1]] + units[p + 2..];
      } else {
        TextIsUnits(units, p + 1, short);
        SingleUnit(c, short);
        assert cs[1..] == TextOf(units, p + 1, short).cs;
        assert units[p..] == [c] + units[p + 1..];
      }
    }
  }

  lemma SingleUnit(c: scalar, short: bool)
    requires short ==> c <= 0xffff
    ensures Units(c, short) == [c]
  {}

  /** The units of any scalar values are read back. */
  lemma {:induction false} UnitsAreText(units: seq<bv32>, p: nat, short: bool, cs: seq<scalar>)
    requires p <= |units| && Fit(units, short) && units[p..] == UnitsAll(cs, short)
    ensures TextOf(units, p, short) == Text(cs)
    decreases |cs|
  {
    hide High, Low, HighOf, LowOf, Paired, Units;
    if cs != [] {
      var c, rest := cs[0], cs[1..];
      assert units[p..] == Units(c, short) + UnitsAll(rest, short);
      assert cs == [c] + rest;
      if short && c >= 0x10000 {
        UnitsArePair(c);
        assert units[p] == units[p..][0] == Units(c, short)[0] && units[p + 1] == units[p..][1] == Units(c, short)[1];
        HighIsSurrogate(units[p]);
        assert units[p + 2..] == units[p..][2..] == UnitsAll(rest, short);
        UnitsAreText(units, p + 2, short, rest);
      } else {
        SingleUnit(c, short);
        assert units[p] == units[p..][0] == c;
        assert units[p + 1..] == units[p..][1..] == UnitsAll(rest, short);
        assert Scalar(c);
        UnitsAreText(units, p + 1, short, rest);
      }
    }
  }

  /** Encodes the code units, 16 or 32 bits wide; fails on what is no scalar value. */
  method EncodeUnits(units: seq<bv32>, short: bool) returns (ok: bool, str: seq<byte>)
    requires Fit(units, short)
    ensures ok <==> exists cs: seq<scalar> :: units == UnitsAll(cs, short)
    ensures forall cs: seq<scalar> :: ok && units == UnitsAll(cs, short) ==> str == EncodeAll(cs)
  {
    hide High, Low, HighOf, LowOf, Paired, Units, Bytes, UnitsAll, EncodeAll;
    str := [];
    ghost var done: seq<scalar> := [];
    EncodeNothing();
    var p := 0;
    while p != |units|
      invariant 0 <= p <= |units| && str == EncodeAll(done)
      invariant TextOf(units, 0, short) == Prepend(done, TextOf(units, p, short))
      decreases |units| - p
    {
      var c := units[p];
      var next := p + 1;
      if short && 0xd800 <= c <= 0xdfff {
        if next == |units| || !High(c) || !Low(units[next]) {
          OnlyIfText(units, short);
          return false, [];
        }
        c := Paired(c, units[next]);
        next := next + 1;
      }
      if !Scalar(c) {
        OnlyIfText(units, short);
        return false, [];
      }
      PrependMore(done, c, TextOf(units, next, short));
      EncodePush(done, c);
      done := done + [c];
      str := str + Bytes(c);
      p := next;
    }
    OnlyIfText(units, short);
    PrependNothing(done);
    assert TextOf(units, 0, short) == Text(done);
    ok := true;
  }

  lemma PrependNothing(done: seq<scalar>)
    ensures Prepend(done, Text([])) == Text(done)
  {
    assert done + [] == done;
  }

  lemma EncodeNothing()
    ensures EncodeAll([]) == []
  {}

  lemma PrependMore(done: seq<scalar>, c: scalar, t: Text)
    ensures Prepend(done, Prepend([c], t)) == Prepend(done + [c], t)
  {
    if t.Text? { assert done + ([c] + t.cs) == (done + [c]) + t.cs; }
  }

  lemma OnlyIfText(units: seq<bv32>, short: bool)
    requires Fit(units, short)
    ensures TextOf(units, 0, short).Text? <==> exists cs: seq<scalar> :: units == UnitsAll(cs, short)
    ensures forall cs: seq<scalar> :: units == UnitsAll(cs, short) ==> TextOf(units, 0, short) == Text(cs)
  {
    hide TextOf, UnitsAll;
    assert units[0..] == units;
    if TextOf(units, 0, short).Text? {
      TextIsUnits(units, 0, short);
    }
    forall cs: seq<scalar> | units == UnitsAll(cs, short) ensures TextOf(units, 0, short) == Text(cs) {
      UnitsAreText(units, 0, short, cs);
    }
  }
}
