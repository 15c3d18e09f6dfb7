/**
 Bit packing of share values: sixteen field values as 17-bit big-endian groups
 in 34 bytes, and the seed as sixteen 16-bit chunks.

 The specification regroups one big-endian bit stream; the loops address single
 bits of single bytes.
 */
module Packing {
  import opened Outcomes
  import opened NumberTheory
  import opened Hex
  import opened ShareField

  const CHUNKS: nat := 16
  const PACKED_BYTES: nat := 34

  type Bit = b: nat | b < 2

  predicate AllBelow(vs: seq<nat>, bound: nat)
  {
    forall i :: 0 <= i < |vs| ==> vs[i] < bound
  }

  // ----- the bit stream -----

  /** Big-endian bits of the low `w` bits of `v`. */
  function ToBits(v: nat, w: nat): (bits: seq<Bit>)
    ensures |bits| == w
  {
    if w == 0 then [] else ToBits(v / 2, w - 1) + [v % 2]
  }

  function FromBits(bits: seq<Bit>): nat
  {
    if bits == [] then 0 else 2 * FromBits(bits[..|bits| - 1]) + bits[|bits| - 1]
  }

  function Stream(vs: seq<nat>, w: nat): (bits: seq<Bit>)
    ensures |bits| == |vs| * w
  {
    if vs == [] then [] else
      assert |vs| * w == w + (|vs| - 1) * w;
      ToBits(vs[0], w) + Stream(vs[1..], w)
  }

  /** The first `n` groups of `w` bits, as numbers. */
  function Groups(bits: seq<Bit>, w: nat, n: nat): (vs: seq<nat>)
    requires |bits| == n * w
    ensures |vs| == n
    decreases n
  {
    if n == 0 then [] else
      assert n * w == w + (n - 1) * w;
      [FromBits(bits[..w])] + Groups(bits[w..], w, n - 1)
  }

  lemma {:induction false} FromToBits(v: nat, w: nat)
    requires v < Pow2(w)
    ensures FromBits(ToBits(v, w)) == v
  {
    if w > 0 {
      FromToBits(v / 2, w - 1);
      assert ToBits(v, w)[..w - 1] == ToBits(v / 2, w - 1);
    }
  }

  lemma {:induction false} ToFromBits(bits: seq<Bit>)
    ensures ToBits(FromBits(bits), |bits|) == bits
    ensures FromBits(bits) < Pow2(|bits|)
  {
    if bits != [] {
      ToFromBits(bits[..|bits| - 1]);
    }
  }

  lemma {:induction false} GroupsOfStream(vs: seq<nat>, w: nat)
    requires AllBelow(vs, Pow2(w))
    ensures Groups(Stream(vs, w), w, |vs|) == vs
  {
    if vs != [] {
      var bits := Stream(vs, w);
      assert |vs| * w == w + (|vs| - 1) * w;
      assert bits[..w] == ToBits(vs[0], w) && bits[w..] == Stream(vs[1..], w);
      FromToBits(vs[0], w);
      GroupsOfStream(vs[1..], w);
    }
  }

  lemma {:induction false} StreamOfGroups(bits: seq<Bit>, w: nat, n: nat)
    requires |bits| == n * w
    ensures Stream(Groups(bits, w, n), w) == bits
    ensures AllBelow(Groups(bits, w, n), Pow2(w))
    decreases n
  {
    if n > 0 {
      assert n * w == w + (n - 1) * w;
      StreamOfGroups(bits[w..], w, n - 1);
      ToFromBits(bits[..w]);
      assert Groups(bits, w, n)[1..] == Groups(bits[w..], w, n - 1);
      assert bits == bits[..w] + bits[w..];
    } else {
      assert Groups(bits, w, n) == [];
    }
  }

  // ----- packing as regrouping -----

  function BytesOfBits(bits: seq<Bit>, n: nat): (bytes: seq<Byte>)
    requires |bits| == 8 * n
    ensures |bytes| == n
  {
    StreamOfGroups(bits, 8, n);
    Pow2Values();
    var groups := Groups(bits, 8, n);
    assert forall i :: 0 <= i < n ==> groups[i] < 256;
    groups
  }

  lemma Pow2Values()
    ensures Pow2(8) == 256 && Pow2(16) == 65536 && Pow2(17) == 131072
  {
    assert Pow2(4) == 16;
    assert Pow2(8) == 256;
    assert Pow2(12) == 4096;
    assert Pow2(16) == 65536;
  }

  predicate InField(values: seq<nat>)
  {
    AllBelow(values, FIELD_MOD)
  }

  /** The 34 bytes of sixteen field values. */
  function PackedOf(values: seq<nat>): (bytes: seq<Byte>)
    requires |values| == 16
    ensures |bytes| == 34
  {
    BytesOfBits(Stream(values, 17), 34)
  }

  /** The sixteen 17-bit groups of 34 bytes. */
  function UnpackedOf(bytes: seq<Byte>): (values: seq<nat>)
    requires |bytes| == 34
    ensures |values| == 16
    ensures AllBelow(values, 131072)
  {
    StreamOfGroups(Stream(bytes, 8), 17, 16);
    Pow2Values();
    Groups(Stream(bytes, 8), 17, 16)
  }

  /** Unpacking returns the packed field values. */
  lemma UnpackPack(values: seq<nat>)
    requires |values| == 16 && InField(values)
    ensures UnpackedOf(PackedOf(values)) == values
  {
    Pow2Values();
    StreamOfGroups(Stream(values, 17), 8, 34);
    GroupsOfStream(values, 17);
  }

  /** Packing what was unpacked returns the same bytes. */
  lemma PackUnpack(bytes: seq<Byte>)
    requires |bytes| == 34
    ensures PackedOf(UnpackedOf(bytes)) == bytes
  {
    Pow2Values();
    StreamOfGroups(Stream(bytes, 8), 17, 16);
    GroupsOfStream(bytes, 8);
  }

  // ----- single bits of machine words -----

  /** `(v >> k) & 1`. */
  function BitAt(v: nat, k: nat): Bit
  {
    if k == 0 then v % 2 else BitAt(v / 2, k - 1)
  }

  /** `v | (b << k)`. */
  function OrBit(v: nat, k: nat, b: Bit): nat
  {
    if k == 0 then (if b == 1 && v % 2 == 0 then v + 1 else v)
    else 2 * OrBit(v / 2, k - 1, b) + v % 2
  }

  lemma {:induction false} OrBitEffect(v: nat, k: nat, b: Bit, w: nat)
    requires k < w && v < Pow2(w) && BitAt(v, k) == 0
    ensures OrBit(v, k, b) < Pow2(w)
    ensures forall j :: 0 <= j < w ==> BitAt(OrBit(v, k, b), j) == if j == k then b else BitAt(v, j)
  {
    hide OrBit, BitAt, Pow2;
    BitAtHalf(v, k);
    OrBitHalves(v, k, b);
    HalfBelow(v, w);
    HalfBelow(OrBit(v, k, b), w);
    if k > 0 {
      OrBitEffect(v / 2, k - 1, b, w - 1);
    }
    forall j | 0 <= j < w ensures BitAt(OrBit(v, k, b), j) == if j == k then b else BitAt(v, j) {
      BitAtHalf(OrBit(v, k, b), j);
      BitAtHalf(v, j);
    }
  }

  /** Setting a bit of `v` sets it in the lowest digit, or in the half. */
  lemma OrBitHalves(v: nat, k: nat, b: Bit)
    requires k == 0 ==> v % 2 == 0 || b == 0
    ensures k == 0 ==> OrBit(v, k, b) / 2 == v / 2 && (v % 2 == 0 ==> OrBit(v, k, b) % 2 == b)
    ensures k > 0 ==> OrBit(v, k, b) / 2 == OrBit(v / 2, k - 1, b) && OrBit(v, k, b) % 2 == v % 2
  {
  }

  lemma BitAtHalf(v: nat, j: nat)
    ensures BitAt(v, j) == if j == 0 then v % 2 else BitAt(v / 2, j - 1)
  {
  }

  lemma HalfBelow(v: nat, w: nat)
    requires w > 0
    ensures v < Pow2(w) <==> v / 2 < Pow2(w - 1)
  {
  }

  lemma {:induction false} ToBitsAt(v: nat, w: nat, j: nat)
    requires j < w
    ensures ToBits(v, w)[j] == BitAt(v, w - 1 - j)
  {
    if j < w - 1 {
      ToBitsAt(v / 2, w - 1, j);
    }
  }

  lemma {:induction false} StreamAt(vs: seq<nat>, w: nat, i: nat, j: nat)
    requires i < |vs| && j < w
    ensures 0 <= i * w + j < |vs| * w
    ensures Stream(vs, w)[i * w + j] == BitAt(vs[i], w - 1 - j)
  {
    assert |vs| * w == w + (|vs| - 1) * w;
    if i == 0 {
      assert 0 * w == 0;
      assert (|vs| - 1) * w >= 0;
      ToBitsAt(vs[0], w, j);
    } else {
      StreamAt(vs[1..], w, i - 1, j);
      assert i * w == w + (i - 1) * w;
    }
  }

  lemma Stream17At(vs: seq<nat>, p: nat)
    requires p < 17 * |vs|
    ensures Stream(vs, 17)[p] == BitAt(vs[p / 17], 16 - p % 17)
  {
    StreamAt(vs, 17, p / 17, p % 17);
  }

  lemma Stream8At(vs: seq<nat>, p: nat)
    requires p < 8 * |vs|
    ensures Stream(vs, 8)[p] == BitAt(vs[p / 8], 7 - p % 8)
  {
    StreamAt(vs, 8, p / 8, p % 8);
  }

  lemma {:induction false} BitsOfZero(k: nat)
    ensures BitAt(0, k) == 0
  {
    if k > 0 {
      BitsOfZero(k - 1);
    }
  }

  // ----- the loops -----

  /** Every bit of `out` before position `n` holds its stream bit; the rest are still zero. */
  ghost predicate Written(out: seq<nat>, bits: seq<Bit>, n: nat)
    requires |bits| == 8 * |out|
  {
    forall p :: 0 <= p < |bits| ==> BitAt(out[p / 8], 7 - p % 8) == if p < n then bits[p] else 0
  }

  lemma WriteBit(out: seq<Byte>, bits: seq<Bit>, n: nat)
    requires |bits| == 8 * |out| && n < |bits| && Written(out, bits, n)
    ensures OrBit(out[n / 8], 7 - n % 8, bits[n]) < 256
    ensures Written(out[n / 8 := OrBit(out[n / 8], 7 - n % 8, bits[n])], bits, n + 1)
  {
    Pow2Values();
    var old8 := out[n / 8];
    OrBitEffect(old8, 7 - n % 8, bits[n], 8);
    var out' := out[n / 8 := OrBit(old8, 7 - n % 8, bits[n])];
    forall p | 0 <= p < |bits|
      ensures BitAt(out'[p / 8], 7 - p % 8) == if p < n + 1 then bits[p] else 0
    {
      assert BitAt(out[p / 8], 7 - p % 8) == if p < n then bits[p] else 0;
      assert p / 8 == n / 8 && 7 - p % 8 == 7 - n % 8 ==> p == n;
    }
  }

  /** Bytes all of whose bits are written spell the stream. */
  lemma WrittenOut(out: seq<Byte>, bits: seq<Bit>)
    requires |bits| == 8 * |out| && Written(out, bits, |bits|)
    ensures BytesOfBits(bits, |out|) == out
  {
    Pow2Values();
    forall p | 0 <= p < |bits| ensures Stream(out, 8)[p] == bits[p] {
      Stream8At(out, p);
    }
    assert Stream(out, 8) == bits;
    GroupsOfStream(out, 8);
  }

  function PackHex(values: seq<nat>): Outcome<string>
    requires |values| == 16
  {
    if InField(values) then Ok(HexOf(PackedOf(values))) else Throw("y_chunk_out_of_field_range")
  }

  method PackYChunksHex(values: seq<U32>) returns (r: Outcome<string>)
    requires |values| == CHUNKS
    ensures r == PackHex(values)
  {
    ghost var bits := Stream(values, 17);
    var out := new Byte[PACKED_BYTES](_ => 0);
    NothingWritten(out[..], bits);
    for i := 0 to CHUNKS
      invariant Written(out[..], bits, 17 * i)
      invariant forall j :: 0 <= j < i ==> values[j] < FIELD_MOD
    {
      if values[i] >= FIELD_MOD {
        return Throw("y_chunk_out_of_field_range");
      }
      WriteGroup(out, values, i);
    }
    WrittenOut(out[..], bits);
    var hex := BytesToHex(out[..]);
    r := Ok(hex);
  }

  lemma NothingWritten(out: seq<Byte>, bits: seq<Bit>)
    requires |bits| == 8 * |out| && forall i :: 0 <= i < |out| ==> out[i] == 0
    ensures Written(out, bits, 0)
  {
    forall p | 0 <= p < |bits| ensures BitAt(out[p / 8], 7 - p % 8) == 0 {
      BitsOfZero(7 - p % 8);
    }
  }

  /** Position `n` of the stream goes to bit `7 - n % 8` of byte `n / 8`. */
  function WriteStep(out: seq<nat>, values: seq<nat>, n: nat): (r: seq<nat>)
    requires 8 * |out| == 17 * |values| && n < 8 * |out|
  {
    out[n / 8 := OrBit(out[n / 8], 7 - n % 8, BitAt(values[n / 17], 16 - n % 17))]
  }

  lemma WriteStepWritten(out: seq<Byte>, values: seq<nat>, n: nat)
    requires 8 * |out| == 17 * |values| && n < 8 * |out|
    requires Written(out, Stream(values, 17), n)
    ensures WriteStep(out, values, n)[n / 8] < 256
    ensures Written(WriteStep(out, values, n), Stream(values, 17), n + 1)
  {
    Stream17At(values, n);
    WriteBit(out, Stream(values, 17), n);
  }

  /** The inner loop: the seventeen bits of value `i`, most significant first. */
  method WriteGroup(out: array<Byte>, values: seq<U32>, i: nat)
    requires |values| == CHUNKS && out.Length == PACKED_BYTES && i < CHUNKS
    requires Written(out[..], Stream(values, 17), 17 * i)
    modifies out
    ensures Written(out[..], Stream(values, 17), 17 * (i + 1))
  {
    hide Written, Stream, OrBit, BitAt;
    for bit := 17 downto 0
      invariant Written(out[..], Stream(values, 17), 17 * i + 17 - bit)
    {
      var bitPos := 17 * i + 16 - bit;
      ghost var next := WriteStep(out[..], values, bitPos);
      WriteStepWritten(out[..], values, bitPos);
      out[bitPos / 8] := OrBit(out[bitPos / 8], 7 - bitPos % 8, BitAt(values[i], bit));
      assert out[..] == next;
    }
  }

  function UnpackHex(hex: string): Outcome<seq<nat>>
  {
    var bytes :- ParseHex(hex);
    if |bytes| != 34 then Throw("bad_packed_y_size") else Ok(UnpackedOf(bytes))
  }

  method UnpackYChunksHex(hex: string) returns (r: Outcome<seq<U32>>)
    ensures r == UnpackHex(hex)
  {
    var parsed := HexToBytes(hex);
    if parsed.Throw? {
      return Throw(parsed.error);
    }
    if |parsed.value| != PACKED_BYTES {
      return Throw("bad_packed_y_size");
    }
    var out := UnpackBytes(parsed.value);
    r := Ok(out);
  }

  method UnpackBytes(bytes: seq<Byte>) returns (out: seq<U32>)
    requires |bytes| == PACKED_BYTES
    ensures out == UnpackedOf(bytes)
  {
    hide FromBits, Groups, Stream;
    ghost var bits := Stream(bytes, 8);
    out := [];
    var bitPos := 0;
    for i := 0 to CHUNKS
      invariant bitPos == 17 * i && |out| == i
      invariant out == UnpackedOf(bytes)[..i]
    {
      var v := ReadGroup(bytes, bitPos);
      GroupAt(bits, 17, 16, i);
      bitPos := bitPos + 17;
      out := out + [v];
    }
  }

  lemma NoBits(bits: seq<Bit>)
    requires bits == []
    ensures FromBits(bits) == 0 && Pow2(0) == 1
  {
  }

  lemma OneMoreBit(bits: seq<Bit>, start: nat, end: nat)
    requires start <= end < |bits|
    ensures FromBits(bits[start..end + 1]) == 2 * FromBits(bits[start..end]) + bits[end]
  {
    assert bits[start..end + 1][..end - start] == bits[start..end];
  }

  lemma Pow2Double(n: nat)
    ensures Pow2(n + 1) == 2 * Pow2(n)
  {
  }

  /** One value: `v = (v << 1) | b` seventeen times, the low bit being free after the shift. */
  method ReadGroup(bytes: seq<Byte>, start: nat) returns (v: U32)
    requires start + 17 <= 8 * |bytes|
    ensures v == FromBits(Stream(bytes, 8)[start..start + 17])
  {
    hide Stream, FromBits, BitAt, Pow2;
    ghost var bits := Stream(bytes, 8);
    v := 0;
    var bitPos := start;
    Pow2Values();
    NoBits(bits[start..start]);
    for bit := 17 downto 0
      invariant bitPos == start + 17 - bit
      invariant v == FromBits(bits[start..bitPos]) && v < Pow2(17 - bit)
    {
      var b := BitAt(bytes[bitPos / 8], 7 - bitPos % 8);
      Stream8At(bytes, bitPos);
      OneMoreBit(bits, start, bitPos);
      Pow2Double(16 - bit);
      Pow2Mono(17 - bit, 17);
      v := 2 * v + b;
      bitPos := bitPos + 1;
    }
  }

  lemma {:induction false} GroupAt(bits: seq<Bit>, w: nat, n: nat, i: nat)
    requires |bits| == n * w && i < n
    ensures 0 <= i * w <= i * w + w <= n * w
    ensures Groups(bits, w, n)[i] == FromBits(bits[i * w..i * w + w])
    decreases n
  {
    assert n * w == w + (n - 1) * w;
    if i == 0 {
      assert 0 * w == 0 && (n - 1) * w >= 0;
    } else {
      GroupAt(bits[w..], w, n - 1, i - 1);
      assert i * w == w + (i - 1) * w;
      assert bits[w..][(i - 1) * w..(i - 1) * w + w] == bits[i * w..i * w + w];
    }
  }

  lemma {:induction false} Pow2Mono(m: nat, n: nat)
    requires m <= n
    ensures Pow2(m) <= Pow2(n)
  {
    if m < n {
      Pow2Mono(m, n - 1);
    }
  }

  /** Text round trip: unpacking packed field values returns them. */
  lemma UnpackPackHex(values: seq<nat>)
    requires |values| == 16 && InField(values)
    ensures PackHex(values).Ok? && UnpackHex(PackHex(values).value) == Ok(values)
  {
    ParseOfHex(PackedOf(values));
    UnpackPack(values);
  }

  /** Text round trip: packing unpacked groups below the modulus gives the canonical text back. */
  lemma PackUnpackHex(hex: string)
    requires UnpackHex(hex).Ok?
    ensures InField(UnpackHex(hex).value) ==> PackHex(UnpackHex(hex).value) == Ensure0x(hex)
    ensures !InField(UnpackHex(hex).value) ==> PackHex(UnpackHex(hex).value).Throw?
  {
    PackUnpack(ParseHex(hex).value);
    HexOfParse(hex);
  }

  // ----- the seed as sixteen 16-bit chunks -----

  function ChunksOf(bytes: seq<Byte>, n: nat): (chunks: seq<nat>)
    requires |bytes| == 2 * n
    ensures |chunks| == n
    ensures AllBelow(chunks, 65536)
    decreases n
  {
    if n == 0 then [] else
      var c: nat := 256 * (bytes[0] as nat) + bytes[1];
      [c] + ChunksOf(bytes[2..], n - 1)
  }

  function ChunkBytes(chunks: seq<nat>): (bytes: seq<Byte>)
    requires AllBelow(chunks, 65536)
    ensures |bytes| == 2 * |chunks|
  {
    if chunks == [] then [] else
      var pair: seq<Byte> := [chunks[0] / 256, chunks[0] % 256];
      pair + ChunkBytes(chunks[1..])
  }

  lemma {:induction false} ChunkBytesOfChunks(bytes: seq<Byte>, n: nat)
    requires |bytes| == 2 * n
    ensures ChunkBytes(ChunksOf(bytes, n)) == bytes
    decreases n
  {
    if n > 0 {
      ChunkBytesOfChunks(bytes[2..], n - 1);
      assert ChunksOf(bytes, n)[1..] == ChunksOf(bytes[2..], n - 1);
      assert bytes == [bytes[0], bytes[1]] + bytes[2..];
    }
  }

  lemma {:induction false} ChunksOfChunkBytes(chunks: seq<nat>)
    requires AllBelow(chunks, 65536)
    ensures ChunksOf(ChunkBytes(chunks), |chunks|) == chunks
  {
    if chunks != [] {
      ChunksOfChunkBytes(chunks[1..]);
      assert ChunkBytes(chunks)[2..] == ChunkBytes(chunks[1..]);
    }
  }

  function SplitSeed(seed: string): Outcome<seq<nat>>
  {
    var norm :- NormalizeDigest(seed);
    DigestParses(seed);
    Ok(ChunksOf(ParseHex(norm).value, 16))
  }

  function JoinSeed(chunks: seq<nat>): Outcome<string>
    requires |chunks| == 16
  {
    if AllBelow(chunks, 65536) then Ok(HexOf(ChunkBytes(chunks)))
    else Throw("recovered_chunk_out_of_16bit_range")
  }

  method SplitSeedHex(seed: string) returns (r: Outcome<seq<U32>>)
    ensures r == SplitSeed(seed)
  {
    var norm := NormalizeDigest(seed);
    if norm.Throw? {
      return Throw(norm.error);
    }
    DigestParses(seed);
    var parsed := HexToBytes(norm.value);
    var chunks := SplitBytes(parsed.value);
    r := Ok(chunks);
  }

  method SplitBytes(bytes: seq<Byte>) returns (r: seq<U32>)
    requires |bytes| == 32
    ensures r == ChunksOf(bytes, 16)
  {
    hide ChunksOf;
    ghost var spec := ChunksOf(bytes, 16);
    var chunks := new U32[CHUNKS](_ => 0);
    for i := 0 to CHUNKS
      invariant forall k :: 0 <= k < i ==> chunks[k] == spec[k]
    {
      ChunkAt(bytes, 16, i);
      chunks[i] := 256 * (bytes[2 * i] as nat) + bytes[2 * i + 1];
    }
    r := chunks[..];
  }

  lemma {:induction false} ChunkAt(bytes: seq<Byte>, n: nat, i: nat)
    requires |bytes| == 2 * n && i < n
    ensures ChunksOf(bytes, n)[i] == 256 * (bytes[2 * i] as nat) + bytes[2 * i + 1]
    decreases n
  {
    if i > 0 {
      ChunkAt(bytes[2..], n - 1, i - 1);
    }
  }

  method ChunksToSeedHex(chunks: seq<U32>) returns (r: Outcome<string>)
    requires |chunks| == CHUNKS
    ensures r == JoinSeed(chunks)
  {
    var bytes := new Byte[32](_ => 0);
    for i := 0 to CHUNKS
      invariant AllBelow(chunks[..i], 65536)
      invariant bytes[..2 * i] == ChunkBytes(chunks[..i])
    {
      var c := chunks[i];
      if c > 0xFFFF {
        return Throw("recovered_chunk_out_of_16bit_range");
      }
      bytes[2 * i] := c / 256;
      bytes[2 * i + 1] := c % 256;
      ChunkBytesSnoc(chunks[..i], c);
      assert chunks[..i + 1] == chunks[..i] + [c];
      assert bytes[..2 * (i + 1)] == bytes[..2 * i] + [c / 256, c % 256];
    }
    assert chunks[..16] == chunks && bytes[..32] == bytes[..];
    var hex := BytesToHex(bytes[..]);
    r := Ok(hex);
  }

  lemma {:induction false} ChunkBytesSnoc(chunks: seq<nat>, c: nat)
    requires c < 65536 && AllBelow(chunks, 65536)
    ensures ChunkBytes(chunks + [c]) == ChunkBytes(chunks) + [c / 256, c % 256]
  {
    if chunks != [] {
      ChunkBytesSnoc(chunks[1..], c);
      assert (chunks + [c])[1..] == chunks[1..] + [c];
    }
  }

  /** Splitting a seed and joining the chunks gives the normalised seed. */
  lemma JoinSplit(seed: string)
    requires SplitSeed(seed).Ok?
    ensures JoinSeed(SplitSeed(seed).value) == NormalizeDigest(seed)
  {
    DigestParses(seed);
    var bytes := ParseHex(NormalizeDigest(seed).value).value;
    ChunkBytesOfChunks(bytes, 16);
  }

  /** Joining chunks and splitting the seed gives the chunks. */
  lemma SplitJoin(chunks: seq<nat>)
    requires |chunks| == 16 && JoinSeed(chunks).Ok?
    ensures SplitSeed(JoinSeed(chunks).value) == Ok(chunks)
  {
    var bytes := ChunkBytes(chunks);
    HexNormalized(bytes);
    ParseOfHex(bytes);
    ChunksOfChunkBytes(chunks);
  }
}
