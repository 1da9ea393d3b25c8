/**
  The GELF-over-UDP chunking encoder of `GelfLogger`: deciding between one
  datagram and a chunk set, splitting the compressed payload, and packing each
  slice behind a chunk header. Also the receiving side's reading of a chunk and
  of a chunk set, as the independent definition the encoder is checked against.
 */
module GelfChunking {
  import opened Wrappers

  /** One octet of a datagram. */
  newtype Byte = b: int | 0 <= b < 256
  type Bytes = seq<Byte>

  /** A payload of at most this many bytes goes out as one datagram; otherwise
      every slice but the last has exactly this size. */
  const MaxChunkSize: nat := 8154

  /** GELF's ceiling on the number of chunks of one message. */
  const MaxChunksAllowed: nat := 128

  /** Bytes of a chunk header besides the message id: two magic bytes, a
      16-bit sequence number and a 16-bit sequence count. */
  const FixedHeaderBytes: nat := 6

  /** The two bytes that open every chunk, 0x1e 0x0f. */
  const Magic: Bytes := [0x1E, 0x0F]

  /** PHP's `"0"`, the one non-empty string that is falsy. */
  const FalsyZero: Bytes := [0x30]

  //----------------------------------------------------------------------------
  // Splitting (`str_split`)
  //----------------------------------------------------------------------------

  /** The concatenation of a list of slices. */
  function Flatten(slices: seq<Bytes>): Bytes
  {
    if |slices| == 0 then [] else slices[0] + Flatten(slices[1..])
  }

  /** The sizes of a cut of `s` into `size`-byte slices: every slice but the
      last has exactly `size` bytes, the last one the 1..size bytes that remain
      (or none when `s` is empty). */
  predicate SliceSizes(slices: seq<Bytes>, s: Bytes, size: nat)
  {
    && |slices| >= 1
    && (forall i | 0 <= i < |slices| - 1 :: |slices[i]| == size)
    && |slices[|slices| - 1]| <= size
    && (|s| > 0 ==> |slices[|slices| - 1]| > 0)
  }

  /** `slices` cut `s` into consecutive `size`-byte pieces. */
  predicate IsChunking(slices: seq<Bytes>, s: Bytes, size: nat)
  {
    SliceSizes(slices, s, size) && Flatten(slices) == s
  }

  /** `str_split(s, size)`. */
  function Split(s: Bytes, size: nat): (r: seq<Bytes>)
    requires size > 0
    ensures SliceSizes(r, s, size)
    decreases |s|
  {
    if |s| <= size then [s] else [s[..size]] + Split(s[size..], size)
  }

  /** The slices of `str_split` concatenate back to the payload. */
  lemma {:induction false} SplitFlatten(s: Bytes, size: nat)
    requires size > 0
    ensures Flatten(Split(s, size)) == s
    ensures IsChunking(Split(s, size), s, size)
    decreases |s|
  {
    var r := Split(s, size);
    if |s| <= size {
      assert r == [s];
      assert r[1..] == [];
      assert Flatten(r) == s + [];
    } else {
      var rest := Split(s[size..], size);
      assert r == [s[..size]] + rest;
      assert r[1..] == rest;
      SplitFlatten(s[size..], size);
      assert Flatten(r) == s[..size] + s[size..];
    }
  }

  /** A chunking of `s` is unique: whatever satisfies `IsChunking` is `Split`. */
  lemma {:induction false} SplitUnique(slices: seq<Bytes>, s: Bytes, size: nat)
    requires size > 0
    requires IsChunking(slices, s, size)
    ensures slices == Split(s, size)
    decreases |s|
  {
    assert Flatten(slices) == slices[0] + Flatten(slices[1..]);
    if |slices| == 1 {
      assert Flatten(slices[1..]) == [];
      assert slices[0] + [] == slices[0];
      assert slices == [s];
    } else {
      var tail := slices[1..];
      FlattenCoversLast(tail);
      assert |tail[|tail| - 1]| > 0 by {
        assert tail[|tail| - 1] == slices[|slices| - 1];
        assert |slices[0]| == size;
      }
      assert s[..size] == slices[0];
      assert s[size..] == Flatten(tail);
      assert IsChunking(tail, s[size..], size) by {
        forall i | 0 <= i < |tail| - 1
          ensures |tail[i]| == size
        {
          assert tail[i] == slices[i + 1];
        }
      }
      SplitUnique(tail, s[size..], size);
      assert slices == [slices[0]] + tail;
    }
  }

  /** The last slice's bytes are part of the concatenation. */
  lemma {:induction false} FlattenCoversLast(slices: seq<Bytes>)
    requires |slices| > 0
    ensures |Flatten(slices)| >= |slices[|slices| - 1]|
  {
    if |slices| > 1 {
      FlattenCoversLast(slices[1..]);
    }
  }

  /** A non-empty payload of S bytes splits into ceil(S / size) slices. */
  lemma {:induction false} SplitCount(s: Bytes, size: nat)
    requires size > 0
    requires |s| > 0
    ensures |Split(s, size)| == (|s| + size - 1) / size
    decreases |s|
  {
    if |s| <= size {
      assert |Split(s, size)| == 1;
      DivUnique(|s| + size - 1, size, 1, |s| - 1);
    } else {
      var rest := s[size..];
      assert |Split(s, size)| == 1 + |Split(rest, size)|;
      SplitCount(rest, size);
      assert |rest| + size - 1 == |s| - 1;
      DivPlusOne(|s| - 1, size);
      assert (|s| - 1) + size == |s| + size - 1;
    }
  }

  /** Adding the divisor adds one to the quotient. */
  lemma DivPlusOne(a: int, d: int)
    requires d > 0
    requires a >= 0
    ensures (a + d) / d == a / d + 1
  {
    var q, r := a / d, a % d;
    assert a + d == (q + 1) * d + r;
    DivUnique(a + d, d, q + 1, r);
  }

  /** Euclidean division is determined by quotient and remainder. */
  lemma DivUnique(a: int, d: int, q: int, r: int)
    requires d > 0
    requires 0 <= r < d
    requires a == q * d + r
    ensures a / d == q && a % d == r
  {
    var q', r' := a / d, a % d;
    assert a == q' * d + r';
    if q' < q {
      assert (q - q') * d == r' - r;
      assert (q - q') * d >= d by { MulAtLeast(q - q', d); }
    } else if q' > q {
      assert (q' - q) * d == r - r';
      assert (q' - q) * d >= d by { MulAtLeast(q' - q, d); }
    }
  }

  /** A positive multiple of `d` is at least `d`. */
  lemma MulAtLeast(k: int, d: int)
    requires k >= 1
    requires d > 0
    ensures k * d >= d
  {
  }

  /** At most k slices exactly when the payload is at most k full slices long:
      the rejection threshold without division. */
  lemma {:induction false} SplitCountAtMost(s: Bytes, size: nat, k: nat)
    requires size > 0
    requires k >= 1
    ensures |Split(s, size)| <= k <==> |s| <= k * size
    decreases |s|
  {
    if |s| > size {
      if k == 1 {
        assert |Split(s, size)| >= 2;
      } else {
        SplitCountAtMost(s[size..], size, k - 1);
        assert (k - 1) * size == k * size - size;
      }
    } else {
      assert size <= k * size by { MulAtLeast(k, size); }
    }
  }

  //----------------------------------------------------------------------------
  // Chunk header (`pack('CC', 30, 15) . $msgId . pack('nn', $seq, $count)`)
  //----------------------------------------------------------------------------

  /** The unsigned value of two bytes read most significant first. */
  function Be16Value(hi: Byte, lo: Byte): nat
  {
    hi as nat * 256 + lo as nat
  }

  /** `pack('n', x)`: the low 16 bits of `x`, most significant byte first. */
  function BigEndian16(x: nat): (r: Bytes)
    ensures |r| == 2
    ensures Be16Value(r[0], r[1]) == x % 0x1_0000
  {
    var hi, lo := (x / 256) % 256, x % 256;
    LowSixteenBits(x);
    var r := [hi as Byte, lo as Byte];
    assert r[0] as nat == hi && r[1] as nat == lo;
    r
  }

  /** The two bytes `pack('n', x)` keeps are the low 16 bits of `x`. */
  lemma LowSixteenBits(x: nat)
    ensures ((x / 256) % 256) * 256 + x % 256 == x % 0x1_0000
  {
    var q, rest := x / 0x1_0000, x % 0x1_0000;
    var hi, lo := rest / 256, rest % 256;
    DivUnique(x, 256, q * 256 + hi, lo);
    DivUnique(q * 256 + hi, 256, q, hi);
  }

  /** One datagram read back in the logger's own chunk format (two-byte
      magic, the whole message id, 16-bit sequence number and count). */
  datatype Chunk = Chunk(msgId: Bytes, seqNo: nat, count: nat, payload: Bytes)

  /** Does the datagram open with the chunk magic? */
  predicate HasMagic(d: Bytes)
  {
    |d| >= 2 && d[0] == Magic[0] && d[1] == Magic[1]
  }

  /** How a receiver reads a datagram as a chunk whose message id is `idLen`
      bytes long: magic, id, big-endian sequence number, big-endian count,
      then the payload. */
  function ParseChunk(d: Bytes, idLen: nat): Option<Chunk>
  {
    if |d| < FixedHeaderBytes + idLen || !HasMagic(d) then None
    else Some(Chunk(d[2..2 + idLen],
                    Be16Value(d[2 + idLen], d[3 + idLen]),
                    Be16Value(d[4 + idLen], d[5 + idLen]),
                    d[FixedHeaderBytes + idLen..]))
  }

  /** One packed chunk: header, then the slice. */
  function PackChunk(msgId: Bytes, seqNo: nat, count: nat, slice: Bytes): (d: Bytes)
    ensures |d| == FixedHeaderBytes + |msgId| + |slice|
  {
    Magic + msgId + BigEndian16(seqNo) + BigEndian16(count) + slice
  }

  /** A receiver reads back from a packed chunk the id, the slice, and the
      sequence number and count cut to 16 bits, as `pack('n', ...)` does. */
  lemma PackParse(msgId: Bytes, seqNo: nat, count: nat, slice: Bytes)
    ensures ParseChunk(PackChunk(msgId, seqNo, count, slice), |msgId|)
              == Some(Chunk(msgId, seqNo % 0x1_0000, count % 0x1_0000, slice))
  {
    var d := PackChunk(msgId, seqNo, count, slice);
    var L := |msgId|;
    assert d[2..2 + L] == msgId;
    assert d[2 + L..4 + L] == BigEndian16(seqNo);
    assert d[4 + L..6 + L] == BigEndian16(count);
    assert d[FixedHeaderBytes + L..] == slice;
  }

  //----------------------------------------------------------------------------
  // prepareChunks
  //----------------------------------------------------------------------------

  /** PHP truthiness of the `$msgId` argument: null, "" and "0" are falsy. */
  predicate Falsy(given: Option<Bytes>)
  {
    given.None? || given.value == [] || given.value == FalsyZero
  }

  /** `$msgId ?: hash(...)`: the id given, unless it is falsy, in which case
      the raw digest, untruncated. */
  function EffectiveId(given: Option<Bytes>, digest: Bytes): (id: Bytes)
    ensures id == digest || !Falsy(Some(id))
    ensures id == digest || (given.Some? && id == given.value)
    ensures !Falsy(given) ==> id == given.value
  {
    if Falsy(given) then digest else given.value
  }

  /** `prepareChunks`: all slices packed behind headers with one shared id,
      sequence numbers in order and the slice count; or rejection of the
      whole set when there are more than 128 slices. */
  function PrepareChunks(slices: seq<Bytes>, given: Option<Bytes>, digest: Bytes): (r: Option<seq<Bytes>>)
    ensures r.None? <==> |slices| > MaxChunksAllowed
    ensures r.Some? ==> |r.value| == |slices|
    ensures r.Some? ==>
      forall i | 0 <= i < |r.value| ::
        ParseChunk(r.value[i], |EffectiveId(given, digest)|)
          == Some(Chunk(EffectiveId(given, digest), i, |slices|, slices[i]))
    ensures r.Some? ==>
      forall i | 0 <= i < |r.value| ::
        |r.value[i]| == FixedHeaderBytes + |EffectiveId(given, digest)| + |slices[i]|
  {
    var id := EffectiveId(given, digest);
    var count := |slices|;
    if count > MaxChunksAllowed then None
    else
      var ds := seq(count, i requires 0 <= i < count => PackChunk(id, i, count, slices[i]));
      assert forall i | 0 <= i < count :: ParseChunk(ds[i], |id|) == Some(Chunk(id, i, count, slices[i])) by {
        forall i | 0 <= i < count
          ensures ParseChunk(ds[i], |id|) == Some(Chunk(id, i, count, slices[i]))
        {
          PackedInRange(id, i, count, slices[i]);
        }
      }
      Some(ds)
  }

  /** Below 2^16 the sequence number and count survive packing unchanged. */
  lemma PackedInRange(msgId: Bytes, seqNo: nat, count: nat, slice: Bytes)
    requires seqNo < count <= MaxChunksAllowed
    ensures ParseChunk(PackChunk(msgId, seqNo, count, slice), |msgId|) == Some(Chunk(msgId, seqNo, count, slice))
  {
    PackParse(msgId, seqNo, count, slice);
    ModSmall(seqNo);
    ModSmall(count);
  }

  /** A value below 2^16 survives the 16-bit truncation of `pack('n')`. */
  lemma ModSmall(x: nat)
    requires x < 0x1_0000
    ensures x % 0x1_0000 == x
  {
  }

  /** The header of chunk `i` byte by byte: 0x1e, 0x0f, the id, then the
      sequence number and the count as 16-bit big-endian values. With at most
      128 chunks both high bytes are zero. */
  lemma HeaderBytes(slices: seq<Bytes>, given: Option<Bytes>, digest: Bytes)
    requires |slices| <= MaxChunksAllowed
    ensures PrepareChunks(slices, given, digest).Some?
    ensures var ds := PrepareChunks(slices, given, digest).value;
      var id := EffectiveId(given, digest);
      forall i | 0 <= i < |ds| ::
        ds[i] == [0x1E, 0x0F] + id + [0, i as Byte, 0, |slices| as Byte] + slices[i]
  {
    var ds := PrepareChunks(slices, given, digest).value;
    var id := EffectiveId(given, digest);
    forall i | 0 <= i < |ds|
      ensures ds[i] == [0x1E, 0x0F] + id + [0, i as Byte, 0, |slices| as Byte] + slices[i]
    {
      assert ds[i] == PackChunk(id, i, |slices|, slices[i]);
      assert BigEndian16(i) == [0, i as Byte];
      assert BigEndian16(|slices|) == [0, |slices| as Byte];
    }
  }

  //----------------------------------------------------------------------------
  // Reassembly on the receiving side
  //----------------------------------------------------------------------------

  /** Datagram `i` is chunk `i` of `|ds|` of the message with id `id`. */
  predicate ChunkAt(ds: seq<Bytes>, idLen: nat, id: Bytes, i: nat)
    requires i < |ds|
  {
    match ParseChunk(ds[i], idLen)
    case None => false
    case Some(c) => c.msgId == id && c.seqNo == i && c.count == |ds|
  }

  /** Every datagram is a chunk of message `id`, in sequence order, each
      naming the right count. */
  predicate InSequence(ds: seq<Bytes>, idLen: nat, id: Bytes)
  {
    forall i | 0 <= i < |ds| :: ChunkAt(ds, idLen, id, i)
  }

  /** The bytes after each chunk header. */
  function Payloads(ds: seq<Bytes>, idLen: nat): seq<Bytes>
  {
    seq(|ds|, i requires 0 <= i < |ds| =>
      if |ds[i]| >= FixedHeaderBytes + idLen then ds[i][FixedHeaderBytes + idLen..] else [])
  }

  /** A receiver's reassembly of a complete chunk set sent in sequence order:
      the id is read from the first chunk, every chunk must carry it with its
      own position and the set's size, and the payloads are concatenated. */
  function Reassemble(ds: seq<Bytes>, idLen: nat): Option<Bytes>
  {
    if |ds| == 0 then None
    else match ParseChunk(ds[0], idLen)
      case None => None
      case Some(first) =>
        if InSequence(ds, idLen, first.msgId) then Some(Flatten(Payloads(ds, idLen))) else None
  }

  /** Receiving one message: a lone datagram without the chunk magic is the
      payload itself; anything else must reassemble as a chunk set. */
  function Receive(ds: seq<Bytes>, idLen: nat): Option<Bytes>
  {
    if |ds| == 1 && !HasMagic(ds[0]) then Some(ds[0]) else Reassemble(ds, idLen)
  }

  /** Datagrams that parse as chunks 0..n-1 of one message reassemble to the
      concatenation of their payloads. */
  lemma {:induction false} WellFormedReassembles(ds: seq<Bytes>, id: Bytes, slices: seq<Bytes>)
    requires |ds| >= 1
    requires |slices| == |ds|
    requires forall i | 0 <= i < |ds| :: ParseChunk(ds[i], |id|) == Some(Chunk(id, i, |ds|, slices[i]))
    ensures Reassemble(ds, |id|) == Some(Flatten(slices))
  {
    forall i | 0 <= i < |ds|
      ensures ChunkAt(ds, |id|, id, i)
    {
      assert ParseChunk(ds[i], |id|) == Some(Chunk(id, i, |ds|, slices[i]));
    }
    forall i | 0 <= i < |ds|
      ensures Payloads(ds, |id|)[i] == slices[i]
    {
      assert ParseChunk(ds[i], |id|) == Some(Chunk(id, i, |ds|, slices[i]));
    }
    assert Payloads(ds, |id|) == slices;
    assert ParseChunk(ds[0], |id|).value.msgId == id;
  }

  /** Round trip of `prepareChunks`: the chunk set it produces reassembles to
      the concatenation of the slices it was given. */
  lemma ChunksReassemble(slices: seq<Bytes>, given: Option<Bytes>, digest: Bytes)
    requires 1 <= |slices| <= MaxChunksAllowed
    ensures PrepareChunks(slices, given, digest).Some?
    ensures Reassemble(PrepareChunks(slices, given, digest).value, |EffectiveId(given, digest)|)
              == Some(Flatten(slices))
  {
    var ds := PrepareChunks(slices, given, digest).value;
    WellFormedReassembles(ds, EffectiveId(given, digest), slices);
  }

  /** A payload longer than one slice splits into at least two. */
  lemma SplitLong(s: Bytes, size: nat)
    requires size > 0
    requires |s| > size
    ensures |Split(s, size)| >= 2
  {
  }

  //----------------------------------------------------------------------------
  // prepareMessage
  //----------------------------------------------------------------------------

  /** `prepareMessage`, from the compressed payload on (`None` when
      serialisation or `gzcompress` failed): one datagram holding the payload
      as is when it fits, otherwise the chunk set of its 8154-byte slices
      under the digest as message id, or rejection. */
  function PrepareMessage(compressed: Option<Bytes>, digest: Bytes): (r: Option<seq<Bytes>>)
    ensures compressed.None? ==> r.None?
    ensures compressed.Some? && |compressed.value| <= MaxChunkSize ==> r == Some([compressed.value])
    ensures compressed.Some? ==> (r.None? <==> |compressed.value| > MaxChunksAllowed * MaxChunkSize)
    ensures r.Some? ==> 1 <= |r.value| <= MaxChunksAllowed
  {
    match compressed
    case None => None
    case Some(s) =>
      if |s| <= MaxChunkSize then Some([s])
      else
        var slices := Split(s, MaxChunkSize);
        SplitCountAtMost(s, MaxChunkSize, MaxChunksAllowed);
        PrepareChunks(slices, None, digest)
  }

  /** On the chunked path `prepareMessage` hands `prepareChunks` exactly the
      8154-byte slices, with the digest as message id. */
  lemma ChunkedPath(s: Bytes, digest: Bytes)
    requires MaxChunkSize < |s| <= MaxChunksAllowed * MaxChunkSize
    ensures PrepareMessage(Some(s), digest) == PrepareChunks(Split(s, MaxChunkSize), None, digest)
  {
  }

  /** The chunked path of `prepareMessage` emits ceil(S / 8154) datagrams,
      at least two. */
  lemma ChunkedCount(s: Bytes, digest: Bytes)
    requires MaxChunkSize < |s| <= MaxChunksAllowed * MaxChunkSize
    ensures PrepareMessage(Some(s), digest).Some?
    ensures |PrepareMessage(Some(s), digest).value| == (|s| + MaxChunkSize - 1) / MaxChunkSize
    ensures |PrepareMessage(Some(s), digest).value| >= 2
  {
    SplitCount(s, MaxChunkSize);
    SplitLong(s, MaxChunkSize);
    ChunkedPath(s, digest);
  }

  /** Chunk `i` of the chunk set built from the 8154-byte slices of `s` is
      chunk `i` of all of them under the digest as message id, carries the
      `i`-th run of 8154 payload bytes, and is at most 8154 bytes plus its
      header long. */
  lemma SliceChunksLayout(s: Bytes, digest: Bytes)
    requires |s| <= MaxChunksAllowed * MaxChunkSize
    ensures PrepareChunks(Split(s, MaxChunkSize), None, digest).Some?
    ensures var ds := PrepareChunks(Split(s, MaxChunkSize), None, digest).value;
      forall i | 0 <= i < |ds| ::
        && ParseChunk(ds[i], |digest|) == Some(Chunk(digest, i, |ds|, SliceAt(s, i)))
        && |ds[i]| <= FixedHeaderBytes + |digest| + MaxChunkSize
  {
    var slices := Split(s, MaxChunkSize);
    SplitSlices(s);
    SplitCountAtMost(s, MaxChunkSize, MaxChunksAllowed);
    SplitBounded(slices, s, MaxChunkSize);
    DigestChunksLayout(slices, digest, MaxChunkSize);
    var ds := PrepareChunks(slices, None, digest).value;
    forall i | 0 <= i < |ds|
      ensures ParseChunk(ds[i], |digest|) == Some(Chunk(digest, i, |ds|, SliceAt(s, i)))
    {
      assert slices[i] == SliceAt(s, i);
    }
  }

  /** Every slice of a chunking is at most `size` bytes long. */
  lemma SplitBounded(slices: seq<Bytes>, s: Bytes, size: nat)
    requires SliceSizes(slices, s, size)
    ensures forall i | 0 <= i < |slices| :: |slices[i]| <= size
  {
    forall i | 0 <= i < |slices|
      ensures |slices[i]| <= size
    {
      if i < |slices| - 1 {
        assert |slices[i]| == size;
      }
    }
  }

  /** Chunk sets built with the digest as id: chunk `i` of all of them,
      carrying slice `i`, at most `bound` bytes plus its header long. */
  lemma DigestChunksLayout(slices: seq<Bytes>, digest: Bytes, bound: nat)
    requires |slices| <= MaxChunksAllowed
    requires forall i | 0 <= i < |slices| :: |slices[i]| <= bound
    ensures PrepareChunks(slices, None, digest).Some?
    ensures var ds := PrepareChunks(slices, None, digest).value;
      forall i | 0 <= i < |ds| ::
        && ParseChunk(ds[i], |digest|) == Some(Chunk(digest, i, |ds|, slices[i]))
        && |ds[i]| <= FixedHeaderBytes + |digest| + bound
  {
    assert EffectiveId(None, digest) == digest;
  }

  /** The same for the datagrams of `prepareMessage` on its chunked path. */
  lemma ChunkedLayout(s: Bytes, digest: Bytes)
    requires MaxChunkSize < |s| <= MaxChunksAllowed * MaxChunkSize
    ensures PrepareMessage(Some(s), digest).Some?
    ensures var ds := PrepareMessage(Some(s), digest).value;
      forall i | 0 <= i < |ds| ::
        && ParseChunk(ds[i], |digest|) == Some(Chunk(digest, i, |ds|, SliceAt(s, i)))
        && |ds[i]| <= FixedHeaderBytes + |digest| + MaxChunkSize
  {
    SliceChunksLayout(s, digest);
    ChunkedPath(s, digest);
  }

  /** The `i`-th run of 8154 bytes of `s`, cut short by the end of `s`. */
  function SliceAt(s: Bytes, i: nat): Bytes
  {
    var lo := if i * MaxChunkSize <= |s| then i * MaxChunkSize else |s|;
    var hi := if (i + 1) * MaxChunkSize <= |s| then (i + 1) * MaxChunkSize else |s|;
    s[lo..hi]
  }

  /** Slice `i` of the 8154-byte split of `s` is the `i`-th run of 8154
      bytes of `s`. */
  lemma {:induction false} SplitSlices(s: Bytes)
    ensures forall i | 0 <= i < |Split(s, MaxChunkSize)| :: Split(s, MaxChunkSize)[i] == SliceAt(s, i)
    decreases |s|
  {
    var slices := Split(s, MaxChunkSize);
    if |s| <= MaxChunkSize {
      assert slices == [s];
      assert SliceAt(s, 0) == s;
    } else {
      var rest := s[MaxChunkSize..];
      var tail := Split(rest, MaxChunkSize);
      assert slices == [s[..MaxChunkSize]] + tail;
      SplitSlices(rest);
      assert SliceAt(s, 0) == s[..MaxChunkSize];
      forall i | 1 <= i < |slices|
        ensures slices[i] == SliceAt(s, i)
      {
        var j := i - 1;
        assert slices[i] == tail[j] == SliceAt(rest, j);
        var lo := if j * MaxChunkSize <= |rest| then j * MaxChunkSize else |rest|;
        var hi := if (j + 1) * MaxChunkSize <= |rest| then (j + 1) * MaxChunkSize else |rest|;
        assert SliceAt(rest, j) == rest[lo..hi];
        assert rest[lo..hi] == s[MaxChunkSize + lo..MaxChunkSize + hi];
        assert MaxChunkSize + j * MaxChunkSize == i * MaxChunkSize;
        assert MaxChunkSize + (j + 1) * MaxChunkSize == (i + 1) * MaxChunkSize;
      }
    }
  }

  /** Every datagram `prepareMessage` emits has at least one byte, unless
      the payload itself is empty: a chunk always carries its header, and a
      lone datagram is the payload. */
  lemma DatagramsNonEmpty(s: Bytes, digest: Bytes)
    requires |s| <= MaxChunksAllowed * MaxChunkSize
    ensures PrepareMessage(Some(s), digest).Some?
    ensures var ds := PrepareMessage(Some(s), digest).value;
      forall i | 0 <= i < |ds| :: |ds[i]| > 0 <==> |s| > 0
  {
    if |s| > MaxChunkSize {
      ChunkedPath(s, digest);
    }
  }

  /** Round trip of `prepareMessage`: whatever it emits is received as the
      original compressed bytes. The payload must not open with the chunk
      magic; a zlib stream never does (its first byte names compression
      method 8 in its low four bits, section 2.2 of RFC 1950). */
  lemma MessageRoundTrip(s: Bytes, digest: Bytes)
    requires !HasMagic(s)
    requires |s| <= MaxChunksAllowed * MaxChunkSize
    ensures PrepareMessage(Some(s), digest).Some?
    ensures Receive(PrepareMessage(Some(s), digest).value, |digest|) == Some(s)
  {
    if |s| > MaxChunkSize {
      var slices := Split(s, MaxChunkSize);
      SplitCountAtMost(s, MaxChunkSize, MaxChunksAllowed);
      SplitLong(s, MaxChunkSize);
      assert EffectiveId(None, digest) == digest;
      assert PrepareMessage(Some(s), digest) == PrepareChunks(slices, None, digest);
      ChunksReassemble(slices, None, digest);
      SplitFlatten(s, MaxChunkSize);
    }
  }
}
