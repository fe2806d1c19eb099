/**
 * Chunk transfer: the serving node cuts a 512 KiB chunk into fragments of
 * at most 8112 bytes and sends each as one datagram headed by the file
 * hash (`writeUTF`) and four big-endian integers; the downloader keeps the
 * datagrams for its hash and chunk in a map keyed by fragment index and
 * concatenates them in index order.
 */
module ChunkTransfer {
  import opened Wrappers
  import opened Bytes

  const CHUNK_SIZE: int := 512 * 1024
  const MAX_UDP_PACKET_SIZE: int := 8192
  /** Room the sender sets aside for the header: a 64-byte hash and four integers. */
  const HEADER_LENGTH: int := 64 + 4 * 4
  const MAX_DATA: int := MAX_UDP_PACKET_SIZE - HEADER_LENGTH
  /** A fragment datagram longer than this makes the sender throw. */
  const MAX_PACKET: int := MAX_UDP_PACKET_SIZE + 10
  /** The downloader's receive buffer; `getData()` hands the whole of it to the parser. */
  const RECEIVE_BUFFER: int := MAX_UDP_PACKET_SIZE + 20

  function Min(a: int, b: int): int { if a <= b then a else b }

  function Max(a: int, b: int): int { if a >= b then a else b }

  /** `(int) Math.ceil((double) n / d)` where the quotient is exact enough: the least `q` with `n <= q * d`. */
  function CeilDiv(n: int, d: int): (q: int)
    requires d > 0
    ensures (q - 1) * d < n <= q * d
  {
    if n >= 0 then
      var q := (n + d - 1) / d;
      assert (n + d - 1) - d < q * d <= n + d - 1;
      q
    else
      var q := -((-n) / d);
      assert (-n) - d < ((-n) / d) * d <= -n;
      q
  }

  // ----- cutting a chunk into fragments -----

  /** The fragment payloads of `data`, in order: full 8112-byte pieces, then the rest. */
  function Fragments(data: seq<byte>): (fs: seq<seq<byte>>)
    ensures |fs| == CeilDiv(|data|, MAX_DATA)
    ensures fs == [] <==> data == []
    ensures forall i :: 0 <= i < |fs| ==> 0 < |fs[i]| <= Min(|data|, MAX_DATA)
    decreases |data|
  {
    if |data| == 0 then []
    else if |data| <= MAX_DATA then [data]
    else
      var rest := Fragments(data[MAX_DATA..]);
      assert CeilDiv(|data|, MAX_DATA) == 1 + CeilDiv(|data| - MAX_DATA, MAX_DATA);
      [data[..MAX_DATA]] + rest
  }

  /** A chunk is at most 65 fragments, so every index and count fits an `int`. */
  lemma FragmentCount(data: seq<byte>)
    requires |data| <= CHUNK_SIZE
    ensures |Fragments(data)| <= 65
  {
  }

  /** Fragment `i` covers `[i * 8112, min((i + 1) * 8112, |data|))`. */
  lemma FragmentAt(data: seq<byte>, i: nat)
    requires i < |Fragments(data)|
    ensures i * MAX_DATA < |data|
    ensures Fragments(data)[i] == data[i * MAX_DATA .. Min((i + 1) * MAX_DATA, |data|)]
  {
    FragmentSpan(data, i, i * MAX_DATA);
  }

  /** The same, with the offset `off == i * 8112` carried along so the induction stays linear. */
  lemma {:induction false} FragmentSpan(data: seq<byte>, i: nat, off: nat)
    requires i < |Fragments(data)| && off == i * MAX_DATA
    ensures off < |data|
    ensures Fragments(data)[i] == data[off .. Min(off + MAX_DATA, |data|)]
    decreases i
  {
    if i > 0 {
      var rest := data[MAX_DATA..];
      assert Fragments(data)[i] == Fragments(rest)[i - 1];
      assert (i - 1) * MAX_DATA == off - MAX_DATA;
      FragmentSpan(rest, i - 1, off - MAX_DATA);
      SliceOfSuffix(data, MAX_DATA, off - MAX_DATA, Min(off, |rest|));
    }
  }

  /** The bytes of a sequence of pieces laid end to end. */
  function Concat(fs: seq<seq<byte>>): (r: seq<byte>)
  {
    if fs == [] then [] else fs[0] + Concat(fs[1..])
  }

  lemma {:induction false} ConcatSnoc(fs: seq<seq<byte>>, x: seq<byte>)
    ensures Concat(fs + [x]) == Concat(fs) + x
  {
    if fs != [] {
      assert (fs + [x])[1..] == fs[1..] + [x];
      ConcatSnoc(fs[1..], x);
    }
  }

  /** Laid end to end, the fragments give back the chunk. */
  lemma {:induction false} ConcatFragments(data: seq<byte>)
    ensures Concat(Fragments(data)) == data
    decreases |data|
  {
    if |data| > MAX_DATA {
      ConcatFragments(data[MAX_DATA..]);
      assert ([data[..MAX_DATA]] + Fragments(data[MAX_DATA..]))[1..] == Fragments(data[MAX_DATA..]);
    }
  }

  /** A full chunk is 65 fragments, the last of 5120 bytes. */
  lemma FullChunkFragments(data: seq<byte>)
    requires |data| == CHUNK_SIZE
    ensures |Fragments(data)| == 65
    ensures |Fragments(data)[64]| == 5120
  {
    FragmentAt(data, 64);
  }

  // ----- the fragment datagram -----

  /**
   * One datagram: the `writeUTF` form of the hash, then chunk index,
   * fragment index, fragment count and payload size as `writeInt`, then
   * the payload.
   */
  function Packet(hashUtf: seq<byte>, chunkIndex: int, i: int, total: int, piece: seq<byte>): (p: seq<byte>)
    requires IsInt32(chunkIndex) && IsInt32(i) && IsInt32(total) && |piece| <= INT32_MAX
    ensures |p| == |hashUtf| + 16 + |piece|
  {
    hashUtf + (Int32Bytes(chunkIndex) + (Int32Bytes(i) + (Int32Bytes(total) + (Int32Bytes(|piece|) + piece))))
  }

  /** The datagrams the serving node sends for `data` when nothing goes wrong. */
  function Packets(hashUtf: seq<byte>, chunkIndex: int, data: seq<byte>): (ps: seq<seq<byte>>)
    requires IsInt32(chunkIndex) && |data| <= CHUNK_SIZE
    ensures |ps| == |Fragments(data)|
  {
    var fs := Fragments(data);
    seq(|fs|, i requires 0 <= i < |fs| => Packet(hashUtf, chunkIndex, i, |fs|, fs[i]))
  }

  lemma PacketsAt(hashUtf: seq<byte>, chunkIndex: int, data: seq<byte>, i: nat)
    requires IsInt32(chunkIndex) && |data| <= CHUNK_SIZE && i < |Fragments(data)|
    ensures Packets(hashUtf, chunkIndex, data)[i]
         == Packet(hashUtf, chunkIndex, i, |Fragments(data)|, Fragments(data)[i])
  {
  }

  lemma SliceOfSuffix<T>(s: seq<T>, k: nat, lo: nat, hi: nat)
    requires k <= |s| && lo <= hi <= |s| - k
    ensures s[k..][lo..hi] == s[k + lo .. k + hi]
  {
  }

  lemma PrefixStep<T>(s: seq<T>, i: nat)
    requires i < |s|
    ensures s[..i + 1] == s[..i] + [s[i]]
  {
  }

  /**
   * Whether the first (and longest) datagram for `n` bytes passes the
   * sender's checks: `writeUTF` accepts the hash and the datagram is at
   * most 8202 bytes.
   */
  predicate Fits(hash: string, n: int) {
    |ModifiedUtf8(hash)| < 0x1_0000 && 2 + |ModifiedUtf8(hash)| + 16 + Min(n, MAX_DATA) <= MAX_PACKET
  }

  /** With a 64-character ASCII hash every datagram is at most 82 + 8112 = 8194 bytes. */
  lemma HexHashFits(hash: string, data: seq<byte>, chunkIndex: int)
    requires |hash| == 64 && IsAscii(hash) && |data| <= CHUNK_SIZE && IsInt32(chunkIndex)
    ensures Fits(hash, |data|)
    ensures forall p :: p in Packets(WriteUtf(hash).value, chunkIndex, data) ==> |p| <= 82 + MAX_DATA
  {
    ModifiedUtf8OfAscii(hash);
  }

  /** Fragment `i` of what a read of `bytesRead` bytes left in the buffer, as the sender slices it. */
  lemma FragmentOfBuffer(buffer: seq<byte>, bytesRead: int, i: nat)
    requires 0 <= bytesRead <= |buffer| && i < CeilDiv(bytesRead, MAX_DATA)
    ensures var data := buffer[..bytesRead];
      && i < |Fragments(data)|
      && i * MAX_DATA <= Min(i * MAX_DATA + MAX_DATA, bytesRead)
      && buffer[i * MAX_DATA .. Min(i * MAX_DATA + MAX_DATA, bytesRead)] == Fragments(data)[i]
      && (i == 0 ==> |Fragments(data)[i]| == Min(|data|, MAX_DATA))
  {
    var data := buffer[..bytesRead];
    FragmentAt(data, i);
  }

  /** The body of the sender's loop for fragment `i`: slice the buffer and prepend the header. */
  method FragmentDatagram(chunkData: array<byte>, bytesRead: int, hashUtf: seq<byte>, chunkIndex: int, i: nat)
      returns (packetData: seq<byte>)
    requires chunkData.Length == CHUNK_SIZE && 0 <= bytesRead <= CHUNK_SIZE && IsInt32(chunkIndex)
    requires i < CeilDiv(bytesRead, MAX_DATA)
    ensures var data := chunkData[..bytesRead];
      && packetData == Packets(hashUtf, chunkIndex, data)[i]
      && |packetData| <= |hashUtf| + 16 + Min(bytesRead, MAX_DATA)
      && (i == 0 ==> |packetData| == |hashUtf| + 16 + Min(bytesRead, MAX_DATA))
  {
    var totalFragments := CeilDiv(bytesRead, MAX_DATA);
    var start := i * MAX_DATA;
    var end := Min(start + MAX_DATA, bytesRead);
    FragmentOfBuffer(chunkData[..], bytesRead, i);
    FragmentCount(chunkData[..bytesRead]);
    assert IsInt32(i) && IsInt32(totalFragments);
    var fragmentData := chunkData[start..end];
    packetData := Packet(hashUtf, chunkIndex, i, totalFragments, fragmentData);
    PacketsAt(hashUtf, chunkIndex, chunkData[..bytesRead], i);
  }

  /**
   * `sendFragments`: the number of fragments is `ceil(bytesRead / 8112)`
   * (none for the end-of-file result -1), fragment `i` is
   * `chunkData[i * 8112 .. min((i + 1) * 8112, bytesRead))`; the first
   * failed check throws before anything is sent, so the node sends either
   * every fragment or none.
   */
  method SendFragments(chunkData: array<byte>, bytesRead: int, fileHash: string, chunkIndex: int)
      returns (sent: seq<seq<byte>>, failed: bool)
    requires chunkData.Length == CHUNK_SIZE && -1 <= bytesRead <= CHUNK_SIZE && IsInt32(chunkIndex)
    ensures var data := chunkData[..Max(bytesRead, 0)];
      && (failed <==> |data| > 0 && !Fits(fileHash, |data|))
      && sent == if failed || |data| == 0 then [] else Packets(WriteUtf(fileHash).value, chunkIndex, data)
  {
    ghost var data := chunkData[..Max(bytesRead, 0)];
    var totalFragments := CeilDiv(bytesRead, MAX_DATA);
    assert totalFragments == |Fragments(data)|;
    var header := WriteUtf(fileHash);
    sent := [];
    var i := 0;
    while i < totalFragments
      invariant 0 <= i <= totalFragments
      invariant i > 0 ==> header.Some? && Fits(fileHash, |data|)
      invariant i > 0 ==> sent == Packets(header.value, chunkIndex, data)[..i]
      invariant i == 0 ==> sent == []
    {
      if header.None? {
        return [], true;
      }
      var packetData := FragmentDatagram(chunkData, bytesRead, header.value, chunkIndex, i);
      if |packetData| > MAX_PACKET {
        return [], true;
      }
      PrefixStep(Packets(header.value, chunkIndex, data), i);
      sent := sent + [packetData];
      i := i + 1;
    }
    failed := false;
    if i > 0 {
      ghost var ps := Packets(header.value, chunkIndex, data);
      assert ps[..i] == ps;
    } else {
      assert data == [];
    }
  }

  // ----- the serving side -----

  /**
   * The bytes `sendChunk` reads for a non-negative chunk index: from offset
   * `chunkIndex * 524288`, as much of the chunk as the file still holds,
   * nothing at or past its end.
   */
  function ServedBytes(file: seq<byte>, chunkIndex: nat): (r: seq<byte>)
    ensures |r| <= CHUNK_SIZE
    ensures chunkIndex * CHUNK_SIZE < |file| ==> |r| == Min(CHUNK_SIZE, |file| - chunkIndex * CHUNK_SIZE)
    ensures forall k :: 0 <= k < |r| ==> chunkIndex * CHUNK_SIZE + k < |file| && r[k] == file[chunkIndex * CHUNK_SIZE + k]
  {
    var pos := chunkIndex * CHUNK_SIZE;
    if pos >= |file| then [] else file[pos .. Min(pos + CHUNK_SIZE, |file|)]
  }

  /**
   * `sendChunk` once the file for the hash has been found: a negative index
   * makes `seek` throw and nothing is sent; otherwise the chunk is read into
   * a fresh 512 KiB buffer (`read` returns -1 at end of file) and handed to
   * `sendFragments`, whose exception is caught here.
   */
  method SendChunk(file: seq<byte>, fileHash: string, chunkIndex: int) returns (sent: seq<seq<byte>>)
    requires IsInt32(chunkIndex)
    ensures chunkIndex < 0 ==> sent == []
    ensures chunkIndex >= 0 ==>
      var data := ServedBytes(file, chunkIndex);
      sent == if |data| == 0 || !Fits(fileHash, |data|) then [] else Packets(WriteUtf(fileHash).value, chunkIndex, data)
  {
    if chunkIndex < 0 {
      return [];
    }
    var chunkPosition := chunkIndex * CHUNK_SIZE;
    var buffer := new byte[CHUNK_SIZE](_ => 0);
    var bytesRead;
    if chunkPosition >= |file| {
      bytesRead := -1;
    } else {
      bytesRead := Min(CHUNK_SIZE, |file| - chunkPosition);
      forall k | 0 <= k < bytesRead {
        buffer[k] := file[chunkPosition + k];
      }
    }
    assert buffer[..Max(bytesRead, 0)] == ServedBytes(file, chunkIndex);
    var failed;
    sent, failed := SendFragments(buffer, bytesRead, fileHash, chunkIndex);
  }

  // ----- the receiving side -----

  /** The receive buffer after a datagram lands in it: its bytes, then the zeros of a fresh array. */
  function ReceiveBuffer(datagram: seq<byte>): (buf: seq<byte>)
    ensures |buf| == RECEIVE_BUFFER
    ensures forall k :: 0 <= k < Min(|datagram|, RECEIVE_BUFFER) ==> buf[k] == datagram[k]
    ensures forall k :: |datagram| <= k < RECEIVE_BUFFER ==> buf[k] == 0
  {
    if |datagram| >= RECEIVE_BUFFER then datagram[..RECEIVE_BUFFER]
    else datagram + Zeros(RECEIVE_BUFFER - |datagram|)
  }

  lemma ReceiveBufferOfShort(datagram: seq<byte>)
    requires |datagram| <= RECEIVE_BUFFER
    ensures ReceiveBuffer(datagram) == datagram + Zeros(RECEIVE_BUFFER - |datagram|)
  {
  }

  /**
   * The two kinds of exception the receive path can raise: an
   * `IOException` (an `EOFException` or a `UTFDataFormatException`), which
   * `run` catches, and an unchecked one, which nothing catches.
   */
  datatype Thrown = IoException | RuntimeException

  /** What the downloader makes of one datagram. */
  datatype Received =
    | Skip                                          // another file or chunk: `continue`
    | Fault(thrown: Thrown)                         // an exception ends the download
    | Frag(index: int, total: int, data: seq<byte>)

  /**
   * The header parse: `readUTF` (a short stream or malformed modified
   * UTF-8 is an `IOException`), `readInt` for the chunk index, the
   * comparison with the expected hash and chunk, then fragment index,
   * fragment count and size; `new byte[size]` throws the unchecked
   * `NegativeArraySizeException` for a negative size, and `readFully`
   * an `EOFException` when the buffer holds fewer bytes.
   */
  function ReadFragment(buf: seq<byte>, expectedHash: string, expectedChunk: int): (r: Received)
    ensures r.Frag? ==> |r.data| <= |buf|
    ensures r == Fault(RuntimeException) ==>
      |buf| >= 2 && 2 + ReadUInt16(buf) + 16 <= |buf| && ReadInt32(buf[2 + ReadUInt16(buf) + 12..]) < 0
  {
    if |buf| < 2 then Fault(IoException)
    else
      var n := ReadUInt16(buf);
      if |buf| < 2 + n + 4 then Fault(IoException)
      else
        match DecodeModifiedUtf8(buf[2..2 + n])
        case None => Fault(IoException)
        case Some(units) =>
          if units != Utf16(expectedHash) || ReadInt32(buf[2 + n..]) != expectedChunk then Skip
          else if |buf| < 2 + n + 16 then Fault(IoException)
          else
            var size := ReadInt32(buf[2 + n + 12..]);
            if size < 0 then Fault(RuntimeException)
            else if |buf| < 2 + n + 16 + size then Fault(IoException)
            else Frag(ReadInt32(buf[2 + n + 4..]), ReadInt32(buf[2 + n + 8..]), buf[2 + n + 16 .. 2 + n + 16 + size])
  }

  /** The header fields as the reader finds them, at their offsets behind the hash. */
  lemma HeaderAt(w: seq<byte>, chunkIndex: int, i: int, total: int, piece: seq<byte>, pad: seq<byte>)
    requires IsInt32(chunkIndex) && IsInt32(i) && IsInt32(total) && |piece| <= INT32_MAX
    ensures var buf := Packet(w, chunkIndex, i, total, piece) + pad;
      var n := |w|;
      && ReadInt32(buf[n..]) == chunkIndex
      && ReadInt32(buf[n + 4..]) == i
      && ReadInt32(buf[n + 8..]) == total
      && ReadInt32(buf[n + 12..]) == |piece|
      && buf[n + 16 .. n + 16 + |piece|] == piece
  {
    var t3 := Int32Bytes(|piece|) + (piece + pad);
    var t2 := Int32Bytes(total) + t3;
    var t1 := Int32Bytes(i) + t2;
    var t0 := Int32Bytes(chunkIndex) + t1;
    var buf := Packet(w, chunkIndex, i, total, piece) + pad;
    var n := |w|;
    assert buf == w + t0;
    assert buf[n..] == t0;
    assert buf[n + 4..] == t1;
    assert buf[n + 8..] == t2;
    assert buf[n + 12..] == t3;
    ReadInt32OfInt32Bytes(chunkIndex, t1);
    ReadInt32OfInt32Bytes(i, t2);
    ReadInt32OfInt32Bytes(total, t3);
    ReadInt32OfInt32Bytes(|piece|, piece + pad);
  }

  /**
   * A datagram the sender built, followed by anything, reads back as its
   * fragment when the downloader expects its hash and chunk, and is
   * skipped otherwise.
   */
  lemma ReadFragmentOfPacket(hash: string, chunkIndex: int, i: int, total: int, piece: seq<byte>, pad: seq<byte>,
                             expectedHash: string, expectedChunk: int)
    requires WriteUtf(hash).Some? && IsInt32(chunkIndex) && IsInt32(i) && IsInt32(total) && |piece| <= INT32_MAX
    ensures ReadFragment(Packet(WriteUtf(hash).value, chunkIndex, i, total, piece) + pad, expectedHash, expectedChunk)
         == if Utf16(hash) == Utf16(expectedHash) && chunkIndex == expectedChunk then Frag(i, total, piece) else Skip
  {
    var w := WriteUtf(hash).value;
    var e := ModifiedUtf8(hash);
    var buf := Packet(w, chunkIndex, i, total, piece) + pad;
    assert w == UInt16Bytes(|e|) + e;
    assert buf[..|w|] == w;
    assert ReadUInt16(buf) == |e| by {
      assert buf[0] == w[0] && buf[1] == w[1];
      ReadUInt16OfUInt16Bytes(|e|, e);
    }
    assert buf[2..2 + |e|] == e by {
      assert buf[2..2 + |e|] == w[2..];
    }
    DecodeModifiedUtf8Inverts(hash);
    HeaderAt(w, chunkIndex, i, total, piece, pad);
    ReadFragmentOfFields(buf, expectedHash, expectedChunk, |e|, Utf16(hash), chunkIndex, i, total, piece);
  }

  /** The parse, given what the hash decodes to and the header fields behind it. */
  lemma ReadFragmentOfFields(buf: seq<byte>, expectedHash: string, expectedChunk: int,
                             n: nat, units: seq<nat>, chunkIndex: int, i: int, total: int, piece: seq<byte>)
    requires |buf| >= 2 && ReadUInt16(buf) == n && 2 + n + 16 + |piece| <= |buf|
    requires DecodeModifiedUtf8(buf[2..2 + n]) == Some(units)
    requires ReadInt32(buf[2 + n..]) == chunkIndex && ReadInt32(buf[2 + n + 4..]) == i
    requires ReadInt32(buf[2 + n + 8..]) == total && ReadInt32(buf[2 + n + 12..]) == |piece|
    requires buf[2 + n + 16 .. 2 + n + 16 + |piece|] == piece
    ensures ReadFragment(buf, expectedHash, expectedChunk)
         == if units == Utf16(expectedHash) && chunkIndex == expectedChunk then Frag(i, total, piece) else Skip
  {
  }

  /** The downloader's receive state: the fragment map, the last declared count, and the exception that ended it, if any. */
  datatype Collection = Collection(fragments: map<int, seq<byte>>, totalFragments: int, thrown: Option<Thrown>)

  /** Before the first datagram: no fragments and a count of -1. */
  const Initial: Collection := Collection(map[], -1, None)

  /** `fragments.size() == totalFragments`, the loop's exit test. */
  predicate AllReceived(c: Collection) {
    |c.fragments| == c.totalFragments
  }

  /** One parsed datagram: a fragment is put under its index and its count replaces the old one. */
  function Store(c: Collection, r: Received): Collection {
    match r
    case Skip => c
    case Fault(e) => c.(thrown := Some(e))
    case Frag(i, t, d) => Collection(c.fragments[i := d], t, None)
  }

  /**
   * The receive loop over the datagrams that arrive before the 10-second
   * timeout: it stops at the first exception, once the map holds as many
   * fragments as the last count declared, or when the datagrams run out.
   */
  function Gather(arrivals: seq<seq<byte>>, hash: string, chunkIndex: int, c: Collection): (r: Collection)
    ensures c.fragments.Keys <= r.fragments.Keys
    ensures c.thrown.Some? ==> r == c
    decreases |arrivals|
  {
    if c.thrown.Some? || AllReceived(c) || arrivals == [] then c
    else Gather(arrivals[1..], hash, chunkIndex, Store(c, ReadFragment(ReceiveBuffer(arrivals[0]), hash, chunkIndex)))
  }

  /** The receive loop reading the datagram at position `k`: the rest of the loop starts from what it stored. */
  lemma GatherAt(arrivals: seq<seq<byte>>, k: nat, hash: string, chunkIndex: int, c: Collection)
    requires k < |arrivals| && c.thrown.None? && !AllReceived(c)
    ensures Gather(arrivals[k..], hash, chunkIndex, c)
         == Gather(arrivals[k + 1..], hash, chunkIndex, Store(c, ReadFragment(ReceiveBuffer(arrivals[k]), hash, chunkIndex)))
  {
    assert arrivals[k..][1..] == arrivals[k + 1..];
  }

  /** A repeated fragment overwrites its entry and does not raise the count of fragments held. */
  lemma DuplicateFragment(c: Collection, i: int, total: int, d: seq<byte>, d': seq<byte>)
    requires i in c.fragments
    ensures |Store(c, Frag(i, total, d')).fragments| == |c.fragments|
    ensures Store(Store(c, Frag(i, total, d)), Frag(i, total, d')) == Store(c, Frag(i, total, d'))
  {
    assert c.fragments[i := d'].Keys == c.fragments.Keys;
  }

  /** Once every declared fragment is held, later datagrams are never read. */
  lemma {:induction false} GatherStopsWhenComplete(arrivals: seq<seq<byte>>, k: nat, hash: string, chunkIndex: int, c: Collection)
    requires k <= |arrivals|
    requires AllReceived(Gather(arrivals[..k], hash, chunkIndex, c))
    ensures Gather(arrivals, hash, chunkIndex, c) == Gather(arrivals[..k], hash, chunkIndex, c)
    decreases k
  {
    if !(c.thrown.Some? || AllReceived(c)) && k > 0 {
      var c' := Store(c, ReadFragment(ReceiveBuffer(arrivals[0]), hash, chunkIndex));
      assert arrivals[..k][1..] == arrivals[1..][..k - 1];
      GatherStopsWhenComplete(arrivals[1..], k - 1, hash, chunkIndex, c');
    }
  }

  /** `assembleChunk`: the fragments `0 .. totalFragments - 1` that are present, in index order. */
  function Assembled(fragments: map<int, seq<byte>>, totalFragments: int): seq<byte>
    decreases totalFragments
  {
    if totalFragments <= 0 then []
    else
      Assembled(fragments, totalFragments - 1)
        + (if totalFragments - 1 in fragments then fragments[totalFragments - 1] else [])
  }

  /** With every fragment present, assembly is the concatenation of the fragments. */
  lemma {:induction false} AssembledFull(fragments: map<int, seq<byte>>, fs: seq<seq<byte>>, n: nat)
    requires n <= |fs|
    requires forall k :: 0 <= k < n ==> k in fragments && fragments[k] == fs[k]
    ensures Assembled(fragments, n) == Concat(fs[..n])
  {
    if n > 0 {
      AssembledFull(fragments, fs, n - 1);
      assert fs[..n] == fs[..n - 1] + [fs[n - 1]];
      ConcatSnoc(fs[..n - 1], fs[n - 1]);
    }
  }

  /** Missing fragments leave no gap: assembly only sees the entries at indices below the count. */
  lemma {:induction false} AssembledSkipsGaps(fragments: map<int, seq<byte>>, n: int, i: int)
    requires 0 <= i < n && i !in fragments
    ensures Assembled(fragments, n) == Assembled(fragments[i := []], n)
    decreases n
  {
    if n - 1 > i {
      AssembledSkipsGaps(fragments, n - 1, i);
    } else {
      AssembledUpTo(fragments, fragments[i := []], i);
    }
  }

  lemma {:induction false} AssembledUpTo(m1: map<int, seq<byte>>, m2: map<int, seq<byte>>, n: int)
    requires forall k :: 0 <= k < n ==> (k in m1 <==> k in m2) && (k in m1 ==> m1[k] == m2[k])
    ensures Assembled(m1, n) == Assembled(m2, n)
    decreases n
  {
    if n > 0 {
      AssembledUpTo(m1, m2, n - 1);
    }
  }

  /** Nothing accepted before the timeout: the count stays -1 and the chunk is empty, never absent. */
  lemma NothingAssembled()
    ensures Assembled(Initial.fragments, Initial.totalFragments) == []
  {
  }

  // ----- the round trip -----

  lemma {:induction false} SizeOfIndexSet(s: set<int>, n: nat)
    requires forall k :: k in s ==> 0 <= k < n
    ensures |s| <= n
  {
    if n > 0 {
      var s' := s - {n - 1};
      SizeOfIndexSet(s', n - 1);
      if n - 1 in s {
        assert s == s' + {n - 1};
      } else {
        assert s == s';
      }
    } else {
      assert forall k :: k !in s;
      assert s == {};
    }
  }

  /** `n` distinct indices below `n` are all of them. */
  lemma {:induction false} FullRange(s: set<int>, n: nat)
    requires forall k :: k in s ==> 0 <= k < n
    requires |s| == n
    ensures forall k :: 0 <= k < n ==> k in s
  {
    if n > 0 {
      if n - 1 in s {
        FullRange(s - {n - 1}, n - 1);
      } else {
        SizeOfIndexSet(s, n - 1);
      }
    }
  }

  /** What the downloader holds while only the sender's datagrams for `fs` have been accepted. */
  predicate Consistent(c: Collection, fs: seq<seq<byte>>) {
    && c.thrown.None?
    && ((c.totalFragments == -1 && c.fragments == map[]) || c.totalFragments == |fs|)
    && forall k :: k in c.fragments ==> 0 <= k < |fs| && c.fragments[k] == fs[k]
  }

  /** Every datagram is one the sender built for this chunk, or one the downloader skips. */
  predicate OnlyChunkTraffic(arrivals: seq<seq<byte>>, ps: seq<seq<byte>>, hash: string, chunkIndex: int) {
    forall a :: a in arrivals ==> a in ps || ReadFragment(ReceiveBuffer(a), hash, chunkIndex).Skip?
  }

  lemma PacketFitsBuffer(hash: string, chunkIndex: int, data: seq<byte>, k: nat)
    requires WriteUtf(hash).Some? && Fits(hash, |data|) && |data| <= CHUNK_SIZE && IsInt32(chunkIndex)
    requires k < |Fragments(data)|
    ensures |Packets(WriteUtf(hash).value, chunkIndex, data)[k]| <= MAX_PACKET
  {
    PacketsAt(WriteUtf(hash).value, chunkIndex, data, k);
  }

  /** The sender's `k`-th datagram, received, is fragment `k`. */
  lemma ReceivePacket(hash: string, chunkIndex: int, data: seq<byte>, k: nat)
    requires WriteUtf(hash).Some? && Fits(hash, |data|) && |data| <= CHUNK_SIZE && IsInt32(chunkIndex)
    requires k < |Fragments(data)|
    ensures var fs := Fragments(data);
      ReadFragment(ReceiveBuffer(Packets(WriteUtf(hash).value, chunkIndex, data)[k]), hash, chunkIndex) == Frag(k, |fs|, fs[k])
  {
    var fs := Fragments(data);
    var p := Packets(WriteUtf(hash).value, chunkIndex, data)[k];
    FragmentCount(data);
    assert IsInt32(k) && IsInt32(|fs|) && |fs[k]| <= INT32_MAX;
    PacketsAt(WriteUtf(hash).value, chunkIndex, data, k);
    PacketFitsBuffer(hash, chunkIndex, data, k);
    ReceiveBufferOfShort(p);
    ReadFragmentOfPacket(hash, chunkIndex, k, |fs|, fs[k], Zeros(RECEIVE_BUFFER - |p|), hash, chunkIndex);
  }

  /** Storing a skip, or one of the sender's own fragments, keeps the collection consistent. */
  lemma StoreKeepsConsistent(c: Collection, received: Received, fs: seq<seq<byte>>)
    requires Consistent(c, fs)
    requires received.Skip? || (received.Frag? && 0 <= received.index < |fs| && received.total == |fs| && received.data == fs[received.index])
    ensures Consistent(Store(c, received), fs)
  {
  }

  lemma {:induction false} GatherConsistent(arrivals: seq<seq<byte>>, hash: string, chunkIndex: int, data: seq<byte>, c: Collection)
    requires WriteUtf(hash).Some? && Fits(hash, |data|) && |data| <= CHUNK_SIZE && IsInt32(chunkIndex)
    requires OnlyChunkTraffic(arrivals, Packets(WriteUtf(hash).value, chunkIndex, data), hash, chunkIndex)
    requires Consistent(c, Fragments(data))
    ensures var r := Gather(arrivals, hash, chunkIndex, c);
      var ps := Packets(WriteUtf(hash).value, chunkIndex, data);
      && Consistent(r, Fragments(data))
      && (AllReceived(r) || forall k :: 0 <= k < |ps| && ps[k] in arrivals ==> k in r.fragments)
    decreases |arrivals|
  {
    var fs := Fragments(data);
    var ps := Packets(WriteUtf(hash).value, chunkIndex, data);
    if !(c.thrown.Some? || AllReceived(c) || arrivals == []) {
      var a := arrivals[0];
      var received := ReadFragment(ReceiveBuffer(a), hash, chunkIndex);
      if a in ps {
        var j :| 0 <= j < |ps| && ps[j] == a;
        ReceivePacket(hash, chunkIndex, data, j);
      }
      var c' := Store(c, received);
      StoreKeepsConsistent(c, received, fs);
      assert OnlyChunkTraffic(arrivals[1..], ps, hash, chunkIndex) by {
        forall x | x in arrivals[1..] ensures x in arrivals { }
      }
      GatherConsistent(arrivals[1..], hash, chunkIndex, data, c');
      var r := Gather(arrivals[1..], hash, chunkIndex, c');
      if !AllReceived(r) {
        forall k | 0 <= k < |ps| && ps[k] in arrivals ensures k in r.fragments {
          if ps[k] == a {
            ReceivePacket(hash, chunkIndex, data, k);
            assert k in c'.fragments;
          } else {
            assert ps[k] in arrivals[1..];
          }
        }
      }
    }
  }

  /**
   * The fragmentation round trip: when every datagram the sender built for
   * a chunk arrives before the timeout, in any order and any number of
   * times, among datagrams the downloader skips, the assembled chunk is
   * exactly the data that was sent.
   */
  lemma ChunkRoundTrip(arrivals: seq<seq<byte>>, hash: string, chunkIndex: int, data: seq<byte>)
    requires WriteUtf(hash).Some? && Fits(hash, |data|) && |data| <= CHUNK_SIZE && IsInt32(chunkIndex)
    requires var ps := Packets(WriteUtf(hash).value, chunkIndex, data);
      (forall p :: p in ps ==> p in arrivals) && OnlyChunkTraffic(arrivals, ps, hash, chunkIndex)
    ensures var r := Gather(arrivals, hash, chunkIndex, Initial);
      r.thrown.None? && Assembled(r.fragments, r.totalFragments) == data
  {
    var fs := Fragments(data);
    var ps := Packets(WriteUtf(hash).value, chunkIndex, data);
    GatherConsistent(arrivals, hash, chunkIndex, data, Initial);
    var r := Gather(arrivals, hash, chunkIndex, Initial);
    if |fs| == 0 {
      assert data == [];
    } else {
      if AllReceived(r) {
        FullRange(r.fragments.Keys, |fs|);
      } else {
        assert ps[0] in arrivals;
      }
      assert r.totalFragments == |fs|;
      AssembledFull(r.fragments, fs, |fs|);
      assert fs[..|fs|] == fs;
      ConcatFragments(data);
    }
  }
}
