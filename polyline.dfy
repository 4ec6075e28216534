/**
 * The polyline codec of the agent service: decoding of Google's Encoded
 * Polyline Algorithm Format and sampling of representative points.
 *
 * Coordinates are kept as integers in units of 1e-5 degrees, i.e. before the
 * final division by 1e5 that turns them into floating-point degrees.
 */
module Polyline {
  import opened Wrappers

  /** A decoded point, latitude and longitude in 1e-5 degrees. */
  datatype Coord = Coord(lat: int, lng: int)

  // ---------------------------------------------------------------------
  // Arithmetic helpers
  // ---------------------------------------------------------------------

  /** 2^n, the factor of a left shift by n bits. */
  function Pow2(n: nat): (p: nat)
    ensures p >= 1
  {
    if n == 0 then 1 else 2 * Pow2(n - 1)
  }

  lemma Pow2Plus5(n: nat)
    ensures Pow2(n + 5) == 32 * Pow2(n)
  {
    calc {
      Pow2(n + 5);
      2 * Pow2(n + 4);
      4 * Pow2(n + 3);
      8 * Pow2(n + 2);
      16 * Pow2(n + 1);
      32 * Pow2(n);
    }
  }

  lemma MulAtLeast(k: int, p: nat)
    requires k >= 1
    ensures k * p >= p
  {
  }

  /** A value below p plus a five-bit chunk times p stays below 32 p. */
  lemma ChunkFits(lo: nat, c: nat, p: nat)
    requires lo < p && c < 32
    ensures lo + c * p < 32 * p
  {
    assert c * p + (32 - c) * p == 32 * p;
    MulAtLeast(32 - c, p);
  }

  /** Below p, a value plus a multiple of p splits back into the two parts. */
  lemma SplitAt(lo: nat, hi: nat, p: nat)
    requires lo < p
    ensures (lo + hi * p) / p == hi && (lo + hi * p) % p == lo
  {
    var x := lo + hi * p;
    var q, m := x / p, x % p;
    assert x == q * p + m && 0 <= m < p;
    assert (hi - q) * p == m - lo;
    if hi > q {
      MulAtLeast(hi - q, p);
    } else if hi < q {
      MulAtLeast(q - hi, p);
    }
  }

  /**
   * `acc | ((b & 0x1F) << shift)`. As acc < 2^shift, the chunk's bits lie
   * above acc's, so the `|` is an addition: the low `shift` bits are acc,
   * the next five the chunk, and nothing reaches bit shift + 5.
   */
  function AddChunk(acc: nat, b: int, shift: nat): (r: nat)
    requires acc < Pow2(shift)
    ensures r < Pow2(shift + 5)
    ensures r % Pow2(shift) == acc && r / Pow2(shift) == b % 32
  {
    var p, c := Pow2(shift), b % 32;
    Pow2Plus5(shift);
    ChunkFits(acc, c, p);
    SplitAt(acc, c, p);
    acc + c * p
  }

  /** The value a character carries: its code point minus 63. */
  function ChunkOf(c: char): int {
    c as int - 63
  }

  // ---------------------------------------------------------------------
  // Zig-zag sign encoding
  // ---------------------------------------------------------------------

  /**
   * The signed delta held by an accumulated value: `~(result >> 1)` when the
   * low bit is set, `result >> 1` otherwise (for result >= 0, `>> 1` is
   * halving and `~x` is `-x - 1`).
   */
  function ZigZagDecode(result: nat): (d: int)
    ensures d < 0 <==> result % 2 == 1
  {
    if result % 2 == 1 then -(result / 2) - 1 else result / 2
  }

  /** The standard zig-zag encoding of a signed delta: `d << 1`, inverted when d < 0. */
  function ZigZagEncode(d: int): (r: nat)
    ensures r % 2 == 1 <==> d < 0
  {
    if d < 0 then -2 * d - 1 else 2 * d
  }

  /** Decoding inverts the standard zig-zag encoding of every integer delta. */
  lemma ZigZagRoundTrip(d: int)
    ensures ZigZagDecode(ZigZagEncode(d)) == d
  {
  }

  /** Every accumulated value is the encoding of the delta it decodes to. */
  lemma ZigZagEncodeDecode(result: nat)
    ensures ZigZagEncode(ZigZagDecode(result)) == result
  {
  }

  // ---------------------------------------------------------------------
  // Decoding, as a specification
  // ---------------------------------------------------------------------

  /** A value read from the stream and the index of the first character after it. */
  datatype Varint = Varint(value: nat, next: nat)

  /**
   * Reads the chunks of one value starting at s[i]; `shift` is the bit
   * position of the next chunk and `acc` the value accumulated so far.
   * A character whose chunk is below 0x20 ends the value; None when the
   * input ends first.
   */
  function ReadVarint(s: string, i: nat, shift: nat, acc: nat): (r: Option<Varint>)
    requires acc < Pow2(shift)
    ensures r.Some? ==> i < r.value.next <= |s|
    decreases |s| - i
  {
    if i >= |s| then None
    else
      var b := ChunkOf(s[i]);
      var acc' := AddChunk(acc, b, shift);
      if b < 32 then Some(Varint(acc', i + 1))
      else ReadVarint(s, i + 1, shift + 5, acc')
  }

  /**
   * The coordinates decoded from s[i..] when the running latitude and
   * longitude are `lat` and `lng`. Decoding stops, returning what was
   * completed, when the input ends inside a latitude or a longitude.
   */
  function DecodeFrom(s: string, i: nat, lat: int, lng: int): seq<Coord>
    decreases |s| - i
  {
    if i >= |s| then []
    else
      match ReadVarint(s, i, 0, 0)
      case None => []
      case Some(a) =>
        match ReadVarint(s, a.next, 0, 0)
        case None => []
        case Some(b) =>
          var c := Coord(lat + ZigZagDecode(a.value), lng + ZigZagDecode(b.value));
          [c] + DecodeFrom(s, b.next, c.lat, c.lng)
  }

  function Decode(s: string): seq<Coord> {
    DecodeFrom(s, 0, 0, 0)
  }

  // ---------------------------------------------------------------------
  // Decoding, as `decode_polyline` performs it
  // ---------------------------------------------------------------------

  /**
   * The chunk loop of `decode_polyline`, which `decode_polyline` writes out twice
   * (latitude, then longitude): the value starting at s[start] and the
   * index after it, or None when the input ends inside the value.
   */
  method ReadValue(encoded: string, start: nat) returns (r: Option<Varint>)
    requires start <= |encoded|
    ensures r == ReadVarint(encoded, start, 0, 0)
  {
    var index := start;
    var length := |encoded|;
    var shift: nat, result: nat := 0, 0;
    while true
      invariant start <= index <= length
      invariant result < Pow2(shift)
      invariant ReadVarint(encoded, start, 0, 0) == ReadVarint(encoded, index, shift, result)
      decreases length - index
    {
      if index >= length {
        return None;
      }
      var b := ChunkOf(encoded[index]);
      index := index + 1;
      result := AddChunk(result, b, shift);
      shift := shift + 5;
      if b < 0x20 {
        break;
      }
    }
    return Some(Varint(result, index));
  }

  /** `decode_polyline`: the decoding loop, proved to compute Decode. */
  method DecodePolyline(encoded: string) returns (coordinates: seq<Coord>)
    ensures coordinates == Decode(encoded)
  {
    if |encoded| == 0 {
      return [];
    }
    var index, lat, lng := 0, 0, 0;
    coordinates := [];
    var length := |encoded|;
    while index < length
      invariant index <= length
      invariant coordinates + DecodeFrom(encoded, index, lat, lng) == Decode(encoded)
      decreases length - index
    {
      var latValue := ReadValue(encoded, index);
      if latValue.None? {
        DecodeStopsInLat(encoded, index, lat, lng);
        return coordinates;
      }
      var lngValue := ReadValue(encoded, latValue.value.next);
      if lngValue.None? {
        DecodeStopsInLng(encoded, index, lat, lng, latValue.value);
        return coordinates;
      }
      DecodeFromStep(encoded, index, lat, lng, latValue.value, lngValue.value);
      lat := lat + ZigZagDecode(latValue.value.value);
      lng := lng + ZigZagDecode(lngValue.value.value);
      index := lngValue.value.next;
      coordinates := coordinates + [Coord(lat, lng)];
    }
  }

  // ---------------------------------------------------------------------
  // Properties of decoding
  // ---------------------------------------------------------------------

  /** Each coordinate consumes at least two characters (one per component). */
  lemma {:induction false} DecodeLength(s: string, i: nat, lat: int, lng: int)
    requires i <= |s|
    ensures |DecodeFrom(s, i, lat, lng)| <= (|s| - i) / 2
    decreases |s| - i
  {
    if i < |s| {
      match ReadVarint(s, i, 0, 0)
      case None =>
      case Some(a) =>
        match ReadVarint(s, a.next, 0, 0)
        case None =>
        case Some(b) =>
          var c := Coord(lat + ZigZagDecode(a.value), lng + ZigZagDecode(b.value));
          DecodeLength(s, b.next, c.lat, c.lng);
    }
  }

  /** The empty string decodes to nothing, and any input to at most len/2 coordinates. */
  lemma DecodeBound(s: string)
    ensures s == [] ==> Decode(s) == []
    ensures |Decode(s)| <= |s| / 2
  {
    DecodeLength(s, 0, 0, 0);
  }

  /** p is a prefix of s. */
  predicate IsPrefix<T(==)>(p: seq<T>, s: seq<T>) {
    |p| <= |s| && p == s[..|p|]
  }

  /** A value read completely from a prefix is read identically from the whole input. */
  lemma {:induction false} ReadVarintPrefix(p: string, s: string, i: nat, shift: nat, acc: nat)
    requires IsPrefix(p, s) && acc < Pow2(shift)
    requires ReadVarint(p, i, shift, acc).Some?
    ensures ReadVarint(s, i, shift, acc) == ReadVarint(p, i, shift, acc)
    decreases |p| - i
  {
    assert p[i] == s[i];
    var b := ChunkOf(p[i]);
    if b >= 32 {
      ReadVarintPrefix(p, s, i + 1, shift + 5, AddChunk(acc, b, shift));
    }
  }

  lemma {:induction false} DecodeFromPrefix(p: string, s: string, i: nat, lat: int, lng: int)
    requires IsPrefix(p, s)
    ensures IsPrefix(DecodeFrom(p, i, lat, lng), DecodeFrom(s, i, lat, lng))
    decreases |p| - i
  {
    if i < |p| {
      match ReadVarint(p, i, 0, 0)
      case None =>
      case Some(a) =>
        ReadVarintPrefix(p, s, i, 0, 0);
        match ReadVarint(p, a.next, 0, 0)
        case None =>
        case Some(b) =>
          ReadVarintPrefix(p, s, a.next, 0, 0);
          var c := Coord(lat + ZigZagDecode(a.value), lng + ZigZagDecode(b.value));
          DecodeFromPrefix(p, s, b.next, c.lat, c.lng);
    }
  }

  /**
   * Truncation degrades gracefully: decoding any prefix of an input yields a
   * prefix of the coordinates decoded from the whole input.
   */
  lemma DecodeTruncated(s: string, j: nat)
    requires j <= |s|
    ensures IsPrefix(Decode(s[..j]), Decode(s))
  {
    DecodeFromPrefix(s[..j], s, 0, 0, 0);
  }

  // ---------------------------------------------------------------------
  // Cumulative deltas
  // ---------------------------------------------------------------------

  /** The raw (lat, lng) deltas read from s[i..], without accumulation. */
  function DeltasFrom(s: string, i: nat): seq<Coord>
    decreases |s| - i
  {
    if i >= |s| then []
    else
      match ReadVarint(s, i, 0, 0)
      case None => []
      case Some(a) =>
        match ReadVarint(s, a.next, 0, 0)
        case None => []
        case Some(b) => [Coord(ZigZagDecode(a.value), ZigZagDecode(b.value))] + DeltasFrom(s, b.next)
  }

  function Deltas(s: string): seq<Coord> {
    DeltasFrom(s, 0)
  }

  /** Component-wise sum of a sequence of deltas. */
  function Sum(ds: seq<Coord>): Coord {
    if ds == [] then Coord(0, 0)
    else
      var rest := Sum(ds[1..]);
      Coord(ds[0].lat + rest.lat, ds[0].lng + rest.lng)
  }

  lemma {:induction false} DeltasLength(s: string, i: nat, lat: int, lng: int)
    ensures |DeltasFrom(s, i)| == |DecodeFrom(s, i, lat, lng)|
    decreases |s| - i
  {
    if i < |s| {
      match ReadVarint(s, i, 0, 0)
      case None =>
      case Some(a) =>
        match ReadVarint(s, a.next, 0, 0)
        case None =>
        case Some(b) =>
          DeltasLength(s, b.next, lat + ZigZagDecode(a.value), lng + ZigZagDecode(b.value));
    }
  }

  lemma {:induction false} DecodeFromIsPrefixSums(s: string, i: nat, lat: int, lng: int, k: nat)
    requires k < |DecodeFrom(s, i, lat, lng)|
    ensures |DeltasFrom(s, i)| == |DecodeFrom(s, i, lat, lng)|
    ensures DecodeFrom(s, i, lat, lng)[k]
         == Coord(lat + Sum(DeltasFrom(s, i)[..k + 1]).lat, lng + Sum(DeltasFrom(s, i)[..k + 1]).lng)
    decreases |s| - i
  {
    DeltasLength(s, i, lat, lng);
    var a := ReadVarint(s, i, 0, 0).value;
    var b := ReadVarint(s, a.next, 0, 0).value;
    var c := Coord(lat + ZigZagDecode(a.value), lng + ZigZagDecode(b.value));
    var ds := DeltasFrom(s, i);
    assert ds == [Coord(ZigZagDecode(a.value), ZigZagDecode(b.value))] + DeltasFrom(s, b.next);
    if k == 0 {
      assert ds[..1][1..] == [];
    } else {
      DecodeFromIsPrefixSums(s, b.next, c.lat, c.lng, k - 1);
      assert ds[..k + 1][1..] == DeltasFrom(s, b.next)[..k];
    }
  }

  /** The k-th decoded point is the sum of the first k + 1 decoded deltas. */
  lemma DecodeIsCumulative(s: string, k: nat)
    requires k < |Decode(s)|
    ensures |Deltas(s)| == |Decode(s)|
    ensures Decode(s)[k] == Sum(Deltas(s)[..k + 1])
  {
    DecodeFromIsPrefixSums(s, 0, 0, 0, k);
  }

  // ---------------------------------------------------------------------
  // The standard encoder, and the round trip
  // ---------------------------------------------------------------------

  /** Standard encoding of a value: 5-bit chunks, lowest first, 0x20 marking continuation, offset 63. */
  function EncodeVarint(v: nat): (e: string)
    ensures |e| >= 1
    decreases v
  {
    if v < 32 then [(v + 63) as char]
    else [((v % 32) + 0x20 + 63) as char] + EncodeVarint(v / 32)
  }

  /** Standard encoding of points as zig-zag deltas from the previous point. */
  function EncodeFrom(cs: seq<Coord>, lat: int, lng: int): string
  {
    if cs == [] then []
    else
      EncodeVarint(ZigZagEncode(cs[0].lat - lat)) + EncodeVarint(ZigZagEncode(cs[0].lng - lng))
      + EncodeFrom(cs[1..], cs[0].lat, cs[0].lng)
  }

  function Encode(cs: seq<Coord>): string {
    EncodeFrom(cs, 0, 0)
  }

  lemma ChunkSplit(v: nat, p: nat)
    ensures (v % 32) * p + (v / 32) * (32 * p) == v * p
  {
    assert v == v % 32 + 32 * (v / 32);
    assert (v / 32) * (32 * p) == (32 * (v / 32)) * p;
    assert (v % 32) * p + (32 * (v / 32)) * p == (v % 32 + 32 * (v / 32)) * p;
  }

  lemma {:induction false} ReadEncodedVarint(s: string, i: nat, v: nat, shift: nat, acc: nat)
    requires acc < Pow2(shift)
    requires i + |EncodeVarint(v)| <= |s|
    requires s[i..i + |EncodeVarint(v)|] == EncodeVarint(v)
    ensures ReadVarint(s, i, shift, acc) == Some(Varint(acc + v * Pow2(shift), i + |EncodeVarint(v)|))
    decreases v
  {
    var e := EncodeVarint(v);
    assert s[i] == e[0];
    var p := Pow2(shift);
    if v < 32 {
      assert ChunkOf(s[i]) == v;
      assert AddChunk(acc, v, shift) == acc + v * p;
    } else {
      var b := ChunkOf(s[i]);
      assert b == v % 32 + 32;
      assert b % 32 == v % 32;
      var acc' := acc + (v % 32) * p;
      assert AddChunk(acc, b, shift) == acc';
      var rest := EncodeVarint(v / 32);
      assert s[i + 1..i + 1 + |rest|] == rest by {
        assert e == [e[0]] + rest;
        assert s[i + 1..i + 1 + |rest|] == e[1..];
      }
      ReadEncodedVarint(s, i + 1, v / 32, shift + 5, acc');
      Pow2Plus5(shift);
      ChunkSplit(v, p);
      assert acc' + (v / 32) * Pow2(shift + 5) == acc + v * p;
    }
  }

  /** A value encoded at s[i] followed by y reads back, leaving y. */
  lemma ReadEncodedAt(s: string, i: nat, v: nat, y: string)
    requires i <= |s| && s[i..] == EncodeVarint(v) + y
    ensures ReadVarint(s, i, 0, 0) == Some(Varint(v, i + |EncodeVarint(v)|))
    ensures s[i + |EncodeVarint(v)|..] == y
  {
    SplitSuffix(s, i, EncodeVarint(v), y);
    ReadEncodedVarint(s, i, v, 0, 0);
  }

  lemma SplitSuffix(s: string, i: nat, x: string, y: string)
    requires i <= |s| && s[i..] == x + y
    ensures i + |x| <= |s| && s[i..i + |x|] == x && s[i + |x|..] == y
  {
    assert s[i..][..|x|] == x;
    assert s[i..][|x|..] == y;
  }

  /** Decoding ends with nothing more when the input ends inside a latitude. */
  lemma DecodeStopsInLat(s: string, i: nat, lat: int, lng: int)
    requires ReadVarint(s, i, 0, 0).None?
    ensures DecodeFrom(s, i, lat, lng) == []
  {
  }

  /** Decoding ends with nothing more when the input ends inside a longitude. */
  lemma DecodeStopsInLng(s: string, i: nat, lat: int, lng: int, a: Varint)
    requires ReadVarint(s, i, 0, 0) == Some(a) && ReadVarint(s, a.next, 0, 0).None?
    ensures DecodeFrom(s, i, lat, lng) == []
  {
  }

  /** One step of decoding: a latitude and a longitude read completely. */
  lemma DecodeFromStep(s: string, i: nat, lat: int, lng: int, a: Varint, b: Varint)
    requires ReadVarint(s, i, 0, 0) == Some(a) && ReadVarint(s, a.next, 0, 0) == Some(b)
    ensures DecodeFrom(s, i, lat, lng)
         == [Coord(lat + ZigZagDecode(a.value), lng + ZigZagDecode(b.value))]
          + DecodeFrom(s, b.next, lat + ZigZagDecode(a.value), lng + ZigZagDecode(b.value))
  {
  }

  lemma EncodeFromCons(cs: seq<Coord>, lat: int, lng: int)
    requires cs != []
    ensures EncodeFrom(cs, lat, lng)
      == EncodeVarint(ZigZagEncode(cs[0].lat - lat))
       + (EncodeVarint(ZigZagEncode(cs[0].lng - lng)) + EncodeFrom(cs[1..], cs[0].lat, cs[0].lng))
  {
  }

  lemma {:induction false} DecodeEncodedFrom(s: string, i: nat, cs: seq<Coord>, lat: int, lng: int)
    requires i <= |s| && s[i..] == EncodeFrom(cs, lat, lng)
    ensures DecodeFrom(s, i, lat, lng) == cs
    decreases cs
  {
    if cs != [] {
      var rest := EncodeFrom(cs[1..], cs[0].lat, cs[0].lng);
      assert s[i..] == EncodeVarint(ZigZagEncode(cs[0].lat - lat))
        + (EncodeVarint(ZigZagEncode(cs[0].lng - lng)) + rest) by {
        EncodeFromCons(cs, lat, lng);
      }
      var k := DecodeEncodedStep(s, i, cs[0], lat, lng, rest);
      DecodeEncodedFrom(s, k, cs[1..], cs[0].lat, cs[0].lng);
      assert [cs[0]] + cs[1..] == cs;
    }
  }

  /** An encoded value cut before its last character reads as None: the input ends inside it. */
  lemma {:induction false} ReadCutVarint(s: string, i: nat, v: nat, j: nat, shift: nat, acc: nat)
    requires acc < Pow2(shift)
    requires j < |EncodeVarint(v)| && i <= |s| && s[i..] == EncodeVarint(v)[..j]
    ensures ReadVarint(s, i, shift, acc).None?
    decreases v
  {
    if j > 0 {
      var e := EncodeVarint(v);
      var rest := EncodeVarint(v / 32);
      assert s[i] == e[0];
      assert e == [e[0]] + rest;
      var b := ChunkOf(s[i]);
      assert b == v % 32 + 32;
      assert s[i + 1..] == rest[..j - 1];
      ReadCutVarint(s, i + 1, v / 32, j - 1, shift + 5, AddChunk(acc, b, shift));
    }
  }

  /** A latitude and longitude cut before the longitude's last character decode to nothing. */
  lemma DecodeCutPair(s: string, i: nat, x: nat, y: nat, j: nat, lat: int, lng: int)
    requires j < |EncodeVarint(x) + EncodeVarint(y)|
    requires i <= |s| && s[i..] == (EncodeVarint(x) + EncodeVarint(y))[..j]
    ensures DecodeFrom(s, i, lat, lng) == []
  {
    var ex, ey := EncodeVarint(x), EncodeVarint(y);
    if j < |ex| {
      assert (ex + ey)[..j] == ex[..j];
      ReadCutVarint(s, i, x, j, 0, 0);
      DecodeStopsInLat(s, i, lat, lng);
    } else {
      var k := i + |ex|;
      assert s[i..][..|ex|] == ex;
      ReadEncodedVarint(s, i, x, 0, 0);
      assert s[k..] == ey[..j - |ex|] by {
        assert s[k..] == s[i..][|ex|..];
        assert (ex + ey)[..j][|ex|..] == ey[..j - |ex|];
      }
      ReadCutVarint(s, k, y, j - |ex|, 0, 0);
      DecodeStopsInLng(s, i, lat, lng, Varint(x, k));
    }
  }

  /** One encoded coordinate followed by t decodes to that coordinate, then whatever t, at k, decodes to. */
  lemma DecodeEncodedStep(s: string, i: nat, c: Coord, lat: int, lng: int, t: string) returns (k: nat)
    requires i <= |s|
    requires s[i..] == EncodeVarint(ZigZagEncode(c.lat - lat)) + (EncodeVarint(ZigZagEncode(c.lng - lng)) + t)
    ensures k <= |s| && s[k..] == t
    ensures DecodeFrom(s, i, lat, lng) == [c] + DecodeFrom(s, k, c.lat, c.lng)
  {
    var va, vb := ZigZagEncode(c.lat - lat), ZigZagEncode(c.lng - lng);
    ReadEncodedAt(s, i, va, EncodeVarint(vb) + t);
    var j := i + |EncodeVarint(va)|;
    ReadEncodedAt(s, j, vb, t);
    k := j + |EncodeVarint(vb)|;
    ZigZagRoundTrip(c.lat - lat);
    ZigZagRoundTrip(c.lng - lng);
    DecodeFromStep(s, i, lat, lng, Varint(va, j), Varint(vb, k));
  }

  lemma {:induction false} DecodeCutFrom(s: string, i: nat, cs: seq<Coord>, lat: int, lng: int, cut: string, x: nat, y: nat, j: nat)
    requires j < |EncodeVarint(x) + EncodeVarint(y)| && cut == (EncodeVarint(x) + EncodeVarint(y))[..j]
    requires i <= |s| && s[i..] == EncodeFrom(cs, lat, lng) + cut
    ensures DecodeFrom(s, i, lat, lng) == cs
    decreases cs
  {
    if cs == [] {
      DecodeCutPair(s, i, x, y, j, lat, lng);
    } else {
      var rest := EncodeFrom(cs[1..], cs[0].lat, cs[0].lng);
      assert s[i..] == EncodeVarint(ZigZagEncode(cs[0].lat - lat))
        + (EncodeVarint(ZigZagEncode(cs[0].lng - lng)) + (rest + cut)) by {
        EncodeFromCons(cs, lat, lng);
      }
      var k := DecodeEncodedStep(s, i, cs[0], lat, lng, rest + cut);
      DecodeCutFrom(s, k, cs[1..], cs[0].lat, cs[0].lng, cut, x, y, j);
      assert [cs[0]] + cs[1..] == cs;
    }
  }

  /**
   * Input cut anywhere inside the next coordinate (mid-latitude, right after
   * the latitude, or mid-longitude) decodes to exactly the coordinates
   * completed before the cut.
   */
  lemma DecodeCutKeepsCompleted(cs: seq<Coord>, x: nat, y: nat, j: nat)
    requires j < |EncodeVarint(x) + EncodeVarint(y)|
    ensures Decode(Encode(cs) + (EncodeVarint(x) + EncodeVarint(y))[..j]) == cs
  {
    var s := Encode(cs) + (EncodeVarint(x) + EncodeVarint(y))[..j];
    assert s[0..] == s;
    DecodeCutFrom(s, 0, cs, 0, 0, (EncodeVarint(x) + EncodeVarint(y))[..j], x, y, j);
  }

  /** Decoding inverts the standard Encoded Polyline Algorithm Format. */
  lemma DecodeEncode(cs: seq<Coord>)
    ensures Decode(Encode(cs)) == cs
  {
    var s := Encode(cs);
    assert s[0..] == s;
    DecodeEncodedFrom(s, 0, cs, 0, 0);
  }

  // ---------------------------------------------------------------------
  // Sampling representative points
  // ---------------------------------------------------------------------

  /** `max(0.0, min(1.0, r))`. */
  function ClampRatio(r: real): (c: real)
    ensures 0.0 <= c <= 1.0
    ensures 0.0 <= r <= 1.0 ==> c == r
  {
    if r > 1.0 then 1.0 else if r < 0.0 then 0.0 else r
  }

  /**
   * The index picked for ratio r among n points: the integer part of the
   * clamped ratio times n - 1 (truncation is the floor, the product being
   * non-negative), then clamped to [0, n - 1]. The second clamp never
   * changes the value: the result is the floor itself.
   */
  function SampleIndex(r: real, n: nat): (idx: nat)
    requires n >= 1
    ensures idx < n
    ensures idx as real <= ClampRatio(r) * (n - 1) as real < idx as real + 1.0
  {
    var c := ClampRatio(r);
    var m := (n - 1) as real;
    assert 0.0 <= c * m <= m by {
      assert c * m <= 1.0 * m;
    }
    var i := (c * m).Floor;
    var clamped: int := if i < 0 then 0 else if i > n - 1 then n - 1 else i;
    clamped
  }

  /** The point picked for each ratio, in ratio order (the list `out`). */
  function Picks(points: seq<Coord>, ratios: seq<real>): seq<Coord>
    requires |points| >= 1
  {
    seq(|ratios|, k requires 0 <= k < |ratios| => points[SampleIndex(ratios[k], |points|)])
  }

  predicate NoDuplicates<T(==)>(s: seq<T>) {
    forall i, j :: 0 <= i < j < |s| ==> s[i] != s[j]
  }

  /** Order-preserving de-duplication: each element kept at its first occurrence. */
  function Dedupe<T(==)>(s: seq<T>): (r: seq<T>)
    ensures NoDuplicates(r)
    ensures forall i :: 0 <= i < |r| ==> r[i] in s
    ensures forall i :: 0 <= i < |s| ==> s[i] in r
    ensures |r| <= |s|
    decreases |s|
  {
    if s == [] then []
    else
      var d := Dedupe(s[..|s| - 1]);
      if s[|s| - 1] in d then d else d + [s[|s| - 1]]
  }

  /** Position of the first occurrence of x in s. */
  function FirstIndex<T(==)>(s: seq<T>, x: T): (i: nat)
    requires x in s
    ensures i < |s| && s[i] == x && x !in s[..i]
  {
    if s[0] == x then 0
    else
      var k := FirstIndex(s[1..], x);
      assert s[..k + 1] == [s[0]] + s[1..][..k];
      k + 1
  }

  lemma FirstIndexOfPrefix<T>(p: seq<T>, s: seq<T>, x: T)
    requires IsPrefix(p, s) && x in p
    ensures FirstIndex(s, x) == FirstIndex(p, x)
  {
    var k, k' := FirstIndex(s, x), FirstIndex(p, x);
    assert s[k'] == x;
  }

  /** Dedupe keeps first-seen order: kept elements appear in the order of their first occurrences. */
  lemma {:induction false} DedupeKeepsFirstSeenOrder<T>(s: seq<T>, i: nat, j: nat)
    requires i < j < |Dedupe(s)|
    ensures FirstIndex(s, Dedupe(s)[i]) < FirstIndex(s, Dedupe(s)[j])
    decreases |s|
  {
    var init, last := s[..|s| - 1], s[|s| - 1];
    var d := Dedupe(init);
    var x := Dedupe(s)[i];
    assert x in d && x in init;
    FirstIndexOfPrefix(init, s, x);
    if j < |d| {
      var y := Dedupe(s)[j];
      assert y == d[j] && y in init;
      FirstIndexOfPrefix(init, s, y);
      DedupeKeepsFirstSeenOrder(init, i, j);
    } else {
      assert Dedupe(s)[j] == last && last !in init;
      assert s[..|s| - 1] == init;
    }
  }

  /** The points sample_points returns, as a specification. */
  function Sample(points: seq<Coord>, ratios: seq<real>): seq<Coord> {
    if |points| == 0 then []
    else if |points| == 1 then [points[0]]
    else if |points| == 2 then [points[0], points[1]]
    else Dedupe(Picks(points, ratios))
  }

  /** `sample_points`: picks by ratio, then de-duplicates with a seen-set, proved to compute Sample. */
  method SamplePoints(points: seq<Coord>, ratios: seq<real>) returns (uniq: seq<Coord>)
    ensures uniq == Sample(points, ratios)
    ensures |points| == 0 ==> uniq == []
    ensures |points| == 1 ==> uniq == [points[0]]
    ensures |points| == 2 ==> uniq == points
  {
    if |points| == 0 {
      return [];
    }
    var n := |points|;
    if n == 1 {
      return [points[0]];
    }
    if n == 2 {
      return [points[0], points[1]];
    }

    var out: seq<Coord> := [];
    for i := 0 to |ratios|
      invariant |out| == i
      invariant forall k :: 0 <= k < i ==> out[k] == points[SampleIndex(ratios[k], n)]
    {
      var idx := SampleIndex(ratios[i], n);
      out := out + [points[idx]];
    }
    assert out == Picks(points, ratios);

    uniq := [];
    var seen: set<Coord> := {};
    for j := 0 to |out|
      invariant uniq == Dedupe(out[..j])
      invariant forall p :: p in seen <==> p in uniq
    {
      var p := out[j];
      assert out[..j + 1][..j] == out[..j];
      assert out[..j + 1][j] == p;
      if p in seen {
        assert Dedupe(out[..j + 1]) == uniq;
        continue;
      }
      assert Dedupe(out[..j + 1]) == uniq + [p];
      seen := seen + {p};
      uniq := uniq + [p];
    }
    assert out[..|out|] == out;
  }

  /**
   * For three or more points: no duplicates, at most one point per ratio,
   * and every point one of the input's.
   */
  lemma SampleBounds(points: seq<Coord>, ratios: seq<real>)
    requires |points| >= 3
    ensures NoDuplicates(Sample(points, ratios))
    ensures |Sample(points, ratios)| <= |ratios|
    ensures forall i :: 0 <= i < |Sample(points, ratios)| ==> Sample(points, ratios)[i] in points
  {
    var picks := Picks(points, ratios);
    assert Sample(points, ratios) == Dedupe(picks);
    forall i | 0 <= i < |Dedupe(picks)|
      ensures Dedupe(picks)[i] in points
    {
      var k := FirstIndex(picks, Dedupe(picks)[i]);
      assert picks[k] == points[SampleIndex(ratios[k], |points|)];
    }
  }

  /** For three or more points, the kept points are exactly the points picked for the ratios. */
  lemma SampleKeepsEveryPick(points: seq<Coord>, ratios: seq<real>)
    requires |points| >= 3
    ensures forall k :: 0 <= k < |ratios| ==> points[SampleIndex(ratios[k], |points|)] in Sample(points, ratios)
    ensures forall i :: 0 <= i < |Sample(points, ratios)| ==>
      exists k :: 0 <= k < |ratios| && Sample(points, ratios)[i] == points[SampleIndex(ratios[k], |points|)]
  {
    var picks := Picks(points, ratios);
    var u := Dedupe(picks);
    assert Sample(points, ratios) == u;
    forall k | 0 <= k < |ratios|
      ensures points[SampleIndex(ratios[k], |points|)] in u
    {
      assert picks[k] == points[SampleIndex(ratios[k], |points|)];
    }
    forall i | 0 <= i < |u|
      ensures exists k :: 0 <= k < |ratios| && u[i] == points[SampleIndex(ratios[k], |points|)]
    {
      var k := FirstIndex(picks, u[i]);
      assert u[i] == points[SampleIndex(ratios[k], |points|)];
    }
  }

  /** For three or more points, kept points appear in the order they were first picked. */
  lemma SampleKeepsFirstSeenOrder(points: seq<Coord>, ratios: seq<real>, i: nat, j: nat)
    requires |points| >= 3
    requires i < j < |Sample(points, ratios)|
    ensures FirstIndex(Picks(points, ratios), Sample(points, ratios)[i])
          < FirstIndex(Picks(points, ratios), Sample(points, ratios)[j])
  {
    DedupeKeepsFirstSeenOrder(Picks(points, ratios), i, j);
  }

  /** With five points the quartile ratios land on indices 0, 1, 2, 3 and 4. */
  lemma SampleIndexQuartiles()
    ensures SampleIndex(0.0, 5) == 0 && SampleIndex(0.25, 5) == 1 && SampleIndex(0.5, 5) == 2
    ensures SampleIndex(0.75, 5) == 3 && SampleIndex(1.0, 5) == 4
  {
  }
}
