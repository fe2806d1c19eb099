/**
 * The downloader: one object per download, which walks the chunks of the
 * file, asks a randomly chosen peer for each missing one, reassembles the
 * fragments that come back and writes the chunk at its offset in the
 * output file, reporting progress after every chunk.
 */
module Downloader {
  import opened Wrappers
  import opened Bytes
  import opened Peers
  import opened Protocol
  import opened ChunkTransfer

  // ----- the output file -----

  /** The byte offset of chunk `j` in the file. */
  function ChunkOffset(j: nat): nat {
    j * CHUNK_SIZE
  }

  /**
   * A write of `d` at `offset`: bytes before the offset are kept, a gap
   * past the old end reads as zeros, `d` replaces what was there, and
   * bytes after it are kept.
   */
  function Overwrite(f: seq<byte>, offset: nat, d: seq<byte>): (r: seq<byte>)
    ensures |r| == Max(|f|, offset + |d|)
    ensures forall k :: offset <= k < offset + |d| ==> r[k] == d[k - offset]
    ensures forall k :: 0 <= k < |f| && !(offset <= k < offset + |d|) ==> r[k] == f[k]
    ensures forall k :: |f| <= k < offset ==> r[k] == 0
  {
    var front := if offset <= |f| then f[..offset] else f + Zeros(offset - |f|);
    var back := if offset + |d| < |f| then f[offset + |d|..] else [];
    front + d + back
  }

  /** The file opened with mode "rw": existing contents are kept and written over in place. */
  class OutputFile {
    var bytes: seq<byte>

    constructor (existing: seq<byte>)
      ensures bytes == existing
    {
      bytes := existing;
    }

    /** `seek(offset)` then `write(d)`. */
    method WriteAt(offset: nat, d: seq<byte>)
      modifies this
      ensures bytes == Overwrite(old(bytes), offset, d)
    {
      bytes := Overwrite(bytes, offset, d);
    }
  }

  /** The file after a series of chunk writes, each `(chunk index, data)`, in order. */
  function ApplyWrites(f: seq<byte>, writes: seq<(nat, seq<byte>)>): seq<byte>
  {
    if writes == [] then f
    else
      var last := writes[|writes| - 1];
      Overwrite(ApplyWrites(f, writes[..|writes| - 1]), ChunkOffset(last.0), last.1)
  }

  /** The writes of a complete download of `source`: chunk `j` carries the bytes served for chunk `j`. */
  function ServedWrites(source: seq<byte>, n: nat): (ws: seq<(nat, seq<byte>)>)
    ensures |ws| == n
  {
    seq(n, j requires 0 <= j < n => (j as nat, ServedBytes(source, j)))
  }

  /**
   * Writing the chunks the serving node reads, in index order, into an
   * empty file rebuilds the shared file.
   */
  lemma DownloadRebuildsFile(source: seq<byte>)
    requires |source| <= INT32_MAX * CHUNK_SIZE
    ensures ApplyWrites([], ServedWrites(source, TotalChunks(|source|))) == source
  {
    var n := TotalChunks(|source|);
    ApplyServedWrites(source, n);
    assert Min(n * CHUNK_SIZE, |source|) == |source|;
  }

  /** Writing the next stretch of a file at the end of its prefix extends the prefix. */
  lemma OverwriteExtends(source: seq<byte>, b: nat, e: nat)
    requires b <= e <= |source|
    ensures Overwrite(source[..b], b, source[b..e]) == source[..e]
  {
  }

  /** Every chunk index below the chunk count starts inside the file. */
  lemma ChunkStartInFile(fileSize: nat, j: nat)
    requires fileSize <= INT32_MAX * CHUNK_SIZE && j < TotalChunks(fileSize)
    ensures j * CHUNK_SIZE < fileSize
  {
    var n := TotalChunks(fileSize);
    assert j * CHUNK_SIZE <= (n - 1) * CHUNK_SIZE;
  }

  /** Writing the first `m` served chunks in order rebuilds the first `m` chunks of the file. */
  lemma {:induction false} ApplyServedWrites(source: seq<byte>, m: nat)
    requires |source| <= INT32_MAX * CHUNK_SIZE && m <= TotalChunks(|source|)
    ensures ApplyWrites([], ServedWrites(source, m)) == source[..Min(m * CHUNK_SIZE, |source|)]
  {
    if m > 0 {
      var ws := ServedWrites(source, m);
      assert ws[..m - 1] == ServedWrites(source, m - 1);
      ApplyServedWrites(source, m - 1);
      ServedChunkExtends(source, m - 1);
    }
  }

  /** The bytes served for chunk `j`, written after chunks `0 .. j - 1`, extend the rebuilt prefix. */
  lemma ServedChunkExtends(source: seq<byte>, j: nat)
    requires |source| <= INT32_MAX * CHUNK_SIZE && j < TotalChunks(|source|)
    ensures Overwrite(source[..Min(j * CHUNK_SIZE, |source|)], j * CHUNK_SIZE, ServedBytes(source, j))
         == source[..Min((j + 1) * CHUNK_SIZE, |source|)]
  {
    var b: nat := j * CHUNK_SIZE;
    assert (j + 1) * CHUNK_SIZE == b + CHUNK_SIZE;
    var e := Min(b + CHUNK_SIZE, |source|);
    ChunkStartInFile(|source|, j);
    assert ServedBytes(source, j) == source[b..e];
    OverwriteExtends(source, b, e);
  }

  // ----- arithmetic of `run` and `updateDownloadProgress` -----

  /**
   * `(int) Math.ceil((double) fileSize / CHUNK_SIZE)`. The cast saturates
   * at the `int` range; beyond 2^50 bytes the quotient is saturated anyway,
   * so the rounding of `fileSize` to a double never shows.
   */
  function TotalChunks(fileSize: int): (n: int)
    ensures IsInt32(n)
    ensures fileSize >= 0 ==> n >= 0
    ensures 0 <= fileSize <= INT32_MAX * CHUNK_SIZE ==> (n - 1) * CHUNK_SIZE < fileSize <= n * CHUNK_SIZE
  {
    var q := CeilDiv(fileSize, CHUNK_SIZE);
    if q > INT32_MAX then INT32_MAX else if q < INT32_MIN then INT32_MIN else q
  }

  /** A 1,200,000-byte file is three chunks, the last of 151,424 bytes. */
  lemma ExampleChunks(source: seq<byte>)
    requires |source| == 1200000
    ensures TotalChunks(|source|) == 3
    ensures |ServedBytes(source, 2)| == 151424
  {
  }

  /** The progress figure, as the floor of `chunksDownloaded * 100 / totalChunks`. */
  function ProgressPercentage(chunksDownloaded: int, totalChunks: int): int
    requires totalChunks > 0
  {
    chunksDownloaded * 100 / totalChunks
  }

  /** Reported progress stays within 0..100. */
  lemma ProgressBounds(chunksDownloaded: int, totalChunks: int)
    requires 0 <= chunksDownloaded <= totalChunks && totalChunks > 0
    ensures 0 <= ProgressPercentage(chunksDownloaded, totalChunks) <= 100
  {
    DivAtMost(chunksDownloaded * 100, totalChunks, 100);
  }

  lemma DivAtMost(a: int, t: int, k: int)
    requires 0 <= a <= k * t && t > 0
    ensures 0 <= a / t <= k
  {
    var q := a / t;
    assert q * t <= a;
    assert (k - q) * t == k * t - q * t;
    if q > k {
      PositiveFactor(q - k, t);
    }
  }

  /** Progress never goes down as chunks arrive. */
  lemma ProgressMonotone(d1: int, d2: int, totalChunks: int)
    requires 0 <= d1 <= d2 && totalChunks > 0
    ensures ProgressPercentage(d1, totalChunks) <= ProgressPercentage(d2, totalChunks)
  {
    DivMonotone(d1 * 100, d2 * 100, totalChunks);
  }

  lemma DivMonotone(a: int, b: int, t: int)
    requires 0 <= a <= b && t > 0
    ensures a / t <= b / t
  {
    var qa := a / t;
    var qb := b / t;
    assert qa * t <= a;
    assert b < (qb + 1) * t;
    assert (qb + 1 - qa) * t == (qb + 1) * t - qa * t;
    PositiveFactor(qb + 1 - qa, t);
  }

  lemma PositiveFactor(x: int, t: int)
    requires x * t > 0 && t > 0
    ensures x > 0
  {
  }

  /** 100 is reported exactly when the last chunk is in. */
  lemma ProgressComplete(chunksDownloaded: int, totalChunks: int)
    requires 0 <= chunksDownloaded <= totalChunks && totalChunks > 0
    ensures ProgressPercentage(chunksDownloaded, totalChunks) == 100 <==> chunksDownloaded == totalChunks
  {
    if chunksDownloaded < totalChunks {
      assert chunksDownloaded * 100 < totalChunks * 100;
    }
  }

  /** How many flags are set. */
  function CountTrue(flags: seq<bool>): (n: nat)
    ensures n <= |flags|
  {
    if flags == [] then 0 else CountTrue(flags[..|flags| - 1]) + (if flags[|flags| - 1] then 1 else 0)
  }

  /** Setting a clear flag raises the count by one. */
  lemma {:induction false} CountTrueSet(flags: seq<bool>, i: nat)
    requires i < |flags| && !flags[i]
    ensures CountTrue(flags[i := true]) == CountTrue(flags) + 1
  {
    var last := |flags| - 1;
    if i < last {
      assert flags[i := true][..last] == flags[..last][i := true];
      CountTrueSet(flags[..last], i);
    } else {
      assert flags[i := true][..last] == flags[..last];
    }
  }

  /** The count reaches the length only when every flag is set. */
  lemma {:induction false} CountTrueFull(flags: seq<bool>)
    requires CountTrue(flags) == |flags|
    ensures forall j :: 0 <= j < |flags| ==> flags[j]
  {
    if flags != [] {
      var last := |flags| - 1;
      CountTrueFull(flags[..last]);
      assert forall j :: 0 <= j < last ==> flags[..last][j] == flags[j];
    }
  }

  // ----- one attempt at a chunk -----

  /** What `receiveAndAssembleChunk` gives back: the assembled chunk, or the exception it throws. */
  datatype Attempt = Got(data: seq<byte>) | Threw(thrown: Thrown)

  /**
   * Asking `peer` for chunk `chunkIndex` when the datagrams `arrivals`
   * come back before the timeout: a port outside 0..65535 makes building
   * the request datagram throw an unchecked `IllegalArgumentException`;
   * otherwise the receive loop runs and its exception, if any, is
   * propagated, and else the gathered fragments are assembled.
   */
  function ChunkAttempt(peer: Peer, arrivals: seq<seq<byte>>, hash: string, chunkIndex: int): (a: Attempt)
    ensures !IsPort(peer.port) ==> a == Threw(RuntimeException)
    ensures a.Got? ==> IsPort(peer.port) && Gather(arrivals, hash, chunkIndex, Initial).thrown.None?
  {
    if !IsPort(peer.port) then Threw(RuntimeException)
    else
      var c := Gather(arrivals, hash, chunkIndex, Initial);
      match c.thrown
      case Some(e) => Threw(e)
      case None => Got(Assembled(c.fragments, c.totalFragments))
  }

  /**
   * An attempt at a peer with a usable port that receives every datagram
   * the serving node sends for the chunk, among skipped traffic, yields
   * exactly the served data.
   */
  lemma AttemptRoundTrip(peer: Peer, arrivals: seq<seq<byte>>, hash: string, chunkIndex: int, data: seq<byte>)
    requires IsPort(peer.port)
    requires WriteUtf(hash).Some? && Fits(hash, |data|) && |data| <= CHUNK_SIZE && IsInt32(chunkIndex)
    requires var ps := Packets(WriteUtf(hash).value, chunkIndex, data);
      (forall p :: p in ps ==> p in arrivals) && OnlyChunkTraffic(arrivals, ps, hash, chunkIndex)
    ensures ChunkAttempt(peer, arrivals, hash, chunkIndex) == Got(data)
  {
    ChunkRoundTrip(arrivals, hash, chunkIndex, data);
  }

  /**
   * The datagrams `arrivals` that reach the downloader carry every datagram
   * the serving node sends for chunk `chunkIndex` with contents `data`, and
   * nothing else that the downloader would not skip.
   */
  predicate Delivers(arrivals: seq<seq<byte>>, hash: string, chunkIndex: int, data: seq<byte>) {
    && IsInt32(chunkIndex) && |data| <= CHUNK_SIZE && WriteUtf(hash).Some? && Fits(hash, |data|)
    && var ps := Packets(WriteUtf(hash).value, chunkIndex, data);
       (forall p :: p in ps ==> p in arrivals) && OnlyChunkTraffic(arrivals, ps, hash, chunkIndex)
  }

  /**
   * A pass that asked `chosen[j]` for chunk `j` of `source` and got every
   * chunk back, where each attempt received the datagrams the serving node
   * sends for that chunk, wrote exactly the served chunks in order: an
   * output file that started empty ends up equal to the source.
   */
  lemma {:induction false} CompletedPassRebuildsFile(source: seq<byte>, hash: string, chosen: seq<Peer>, added: seq<(nat, seq<byte>)>,
                                                     traffic: (Peer, int, nat) -> seq<seq<byte>>)
    requires |source| <= INT32_MAX * CHUNK_SIZE
    requires |added| == |chosen| == TotalChunks(|source|)
    requires forall j :: 0 <= j < |added| ==> added[j].0 == j && Attempts(chosen, traffic, hash)[j] == Got(added[j].1)
    requires forall j :: 0 <= j < |chosen| ==>
      IsPort(chosen[j].port) && Delivers(traffic(chosen[j], j, j), hash, j, ServedBytes(source, j))
    ensures ApplyWrites([], added) == source
  {
    var n := |added|;
    forall j | 0 <= j < n
      ensures added[j] == ServedWrites(source, n)[j]
    {
      AttemptRoundTrip(chosen[j], traffic(chosen[j], j, j), hash, j, ServedBytes(source, j));
    }
    assert added == ServedWrites(source, n);
    DownloadRebuildsFile(source);
  }

  /** The request datagram for one attempt: none when the port is out of range. */
  function RequestOf(peer: Peer, hash: string, chunkIndex: int): (rs: seq<(Peer, string)>)
    ensures |rs| <= 1
  {
    if IsPort(peer.port) then [(peer, RequestChunkMessage(hash, chunkIndex))] else []
  }

  /**
   * The attempts of a pass that asked `chosen[j]` for chunk `j`: attempt
   * `j` gets the datagrams `traffic(chosen[j], j, j)`.
   */
  function Attempts(chosen: seq<Peer>, traffic: (Peer, int, nat) -> seq<seq<byte>>, hash: string): (tries: seq<Attempt>)
    ensures |tries| == |chosen|
  {
    seq(|chosen|, j requires 0 <= j < |chosen| => ChunkAttempt(chosen[j], traffic(chosen[j], j, j), hash, j))
  }

  /** The request datagrams of a pass that asked `chosen[j]` for chunk `j`, in order. */
  function RequestLog(chosen: seq<Peer>, hash: string): (rs: seq<(Peer, string)>)
    ensures |rs| <= |chosen|
  {
    if chosen == [] then []
    else RequestLog(chosen[..|chosen| - 1], hash) + RequestOf(chosen[|chosen| - 1], hash, |chosen| - 1)
  }

  lemma RequestLogStep(chosen: seq<Peer>, p: Peer, hash: string)
    ensures RequestLog(chosen + [p], hash) == RequestLog(chosen, hash) + RequestOf(p, hash, |chosen|)
  {
    assert (chosen + [p])[..|chosen|] == chosen;
  }

  // ----- the downloader -----

  /** How `run` ends. */
  datatype RunOutcome =
    | Completed   // every chunk flag is set
    | Failed      // an IOException from the receive path was caught by `run`
    | Crashed     // an unchecked exception escaped `run`: a negative chunk count, a port
                  // out of range or a negative fragment size

  class FileDownloader {
    const fileName: string
    const fileHash: string
    const fileSize: int
    const targetFolderPath: string
    const peers: seq<Peer>
    /** Request datagrams sent: destination and text. */
    ghost var requests: seq<(Peer, string)>
    /** Progress figures handed to the user interface, in order. */
    ghost var reports: seq<int>
    /** Chunk writes made to the output file, in order. */
    ghost var writes: seq<(nat, seq<byte>)>

    constructor (fileName: string, fileHash: string, fileSize: int, targetFolderPath: string, peers: seq<Peer>)
      ensures this.fileName == fileName && this.fileHash == fileHash && this.fileSize == fileSize
      ensures this.targetFolderPath == targetFolderPath && this.peers == peers
      ensures requests == [] && reports == [] && writes == []
    {
      this.fileName := fileName;
      this.fileHash := fileHash;
      this.fileSize := fileSize;
      this.targetFolderPath := targetFolderPath;
      this.peers := peers;
      requests := [];
      reports := [];
      writes := [];
    }

    /** `selectPeerForChunk`: none for an empty list, otherwise some listed peer (the choice is random). */
    method SelectPeerForChunk(chunkIndex: int) returns (p: Option<Peer>)
      ensures p.None? <==> peers == []
      ensures p.Some? ==> p.value in peers
    {
      if peers == [] {
        return None;
      }
      var k :| 0 <= k < |peers|;
      return Some(peers[k]);
    }

    /**
     * `requestChunkFromPeer`: one REQUEST_CHUNK datagram to the peer's
     * address and port. A port outside 0..65535 makes the datagram
     * constructor throw before anything is sent (`ok` is false).
     */
    method RequestChunkFromPeer(peer: Peer, chunkIndex: int) returns (ok: bool)
      modifies this
      ensures ok <==> IsPort(peer.port)
      ensures ok ==> requests == old(requests) + [(peer, RequestChunkMessage(fileHash, chunkIndex))]
      ensures !ok ==> requests == old(requests)
      ensures reports == old(reports) && writes == old(writes)
    {
      if !IsPort(peer.port) {
        return false;
      }
      requests := requests + [(peer, RequestChunkMessage(fileHash, chunkIndex))];
      return true;
    }

    /**
     * `receiveAndAssembleChunk`: send the request, then read datagrams
     * until every declared fragment is held or the datagrams that arrive
     * before the timeout run out, and assemble what was kept. An exception
     * from the request or the parse is returned as `Threw`; a timeout is
     * not one, and yields whatever was assembled (nothing, if no datagram
     * was accepted).
     */
    method ReceiveAndAssembleChunk(peer: Peer, chunkIndex: int, arrivals: seq<seq<byte>>) returns (chunk: Attempt)
      modifies this
      ensures requests == old(requests) + RequestOf(peer, fileHash, chunkIndex)
      ensures reports == old(reports) && writes == old(writes)
      ensures chunk == ChunkAttempt(peer, arrivals, fileHash, chunkIndex)
    {
      var sent := RequestChunkFromPeer(peer, chunkIndex);
      if !sent {
        return Threw(RuntimeException);
      }
      var fragments: map<int, seq<byte>> := map[];
      var totalFragments := -1;
      var receivedAllFragments := false;
      var k := 0;
      while !receivedAllFragments
        invariant 0 <= k <= |arrivals|
        invariant receivedAllFragments == AllReceived(Collection(fragments, totalFragments, None))
        invariant Gather(arrivals[k..], fileHash, chunkIndex, Collection(fragments, totalFragments, None))
               == Gather(arrivals, fileHash, chunkIndex, Initial)
        modifies {}
        decreases |arrivals| - k
      {
        if k == |arrivals| {
          break;
        }
        GatherAt(arrivals, k, fileHash, chunkIndex, Collection(fragments, totalFragments, None));
        var buffer := ReceiveBuffer(arrivals[k]);
        var received := ReadFragment(buffer, fileHash, chunkIndex);
        k := k + 1;
        match received
        case Skip =>
        case Fault(e) =>
          return Threw(e);
        case Frag(fragmentIndex, total, fragmentData) =>
          fragments := fragments[fragmentIndex := fragmentData];
          totalFragments := total;
          receivedAllFragments := |fragments| == totalFragments;
      }
      var assembled := AssembleChunk(fragments, totalFragments);
      return Got(assembled);
    }

    /** `assembleChunk`: append the fragments present at indices `0 .. totalFragments - 1`. */
    static method AssembleChunk(fragments: map<int, seq<byte>>, totalFragments: int) returns (r: seq<byte>)
      ensures r == Assembled(fragments, totalFragments)
    {
      r := [];
      var i := 0;
      while i < totalFragments
        invariant 0 <= i <= Max(totalFragments, 0)
        invariant r == Assembled(fragments, i)
      {
        if i in fragments {
          r := r + fragments[i];
        }
        i := i + 1;
      }
    }

    /** `writeChunkToFile`: the chunk lands at offset `chunkIndex * 524288`. */
    method WriteChunkToFile(chunkData: seq<byte>, chunkIndex: nat, file: OutputFile)
      modifies this, file
      ensures file.bytes == Overwrite(old(file.bytes), ChunkOffset(chunkIndex), chunkData)
      ensures writes == old(writes) + [(chunkIndex, chunkData)]
      ensures requests == old(requests) && reports == old(reports)
    {
      file.WriteAt(ChunkOffset(chunkIndex), chunkData);
      writes := writes + [(chunkIndex, chunkData)];
    }

    /** `updateDownloadProgress`: one progress figure for the user interface. */
    method UpdateDownloadProgress(chunksDownloaded: int, totalChunks: int)
      requires totalChunks > 0
      modifies this
      ensures reports == old(reports) + [ProgressPercentage(chunksDownloaded, totalChunks)]
      ensures requests == old(requests) && writes == old(writes)
    {
      reports := reports + [ProgressPercentage(chunksDownloaded, totalChunks)];
    }

    /**
     * The work `run` does for a chunk whose flag is clear, the counter
     * then standing at `i`: pick a peer, fetch the chunk with the
     * datagrams that arrive for this attempt, and when it comes back write
     * it at its offset and report the progress with the counter raised to
     * `i + 1`. `Threw` is the exception that ends `run`; nothing is
     * written or reported then.
     */
    method DownloadChunk(file: OutputFile, traffic: (Peer, int, nat) -> seq<seq<byte>>, attempt: nat, i: nat, totalChunks: int)
        returns (result: Attempt, ghost peer: Peer)
      requires peers != [] && i < totalChunks
      modifies this, file
      ensures peer in peers
      ensures result == ChunkAttempt(peer, traffic(peer, i, attempt), fileHash, i)
      ensures requests == old(requests) + RequestOf(peer, fileHash, i)
      ensures result.Threw? ==> writes == old(writes) && reports == old(reports) && file.bytes == old(file.bytes)
      ensures result.Got? ==>
        && writes == old(writes) + [(i, result.data)]
        && file.bytes == Overwrite(old(file.bytes), ChunkOffset(i), result.data)
        && reports == old(reports) + [ProgressPercentage(i + 1, totalChunks)]
    {
      var selectedPeer := SelectPeerForChunk(i);
      if selectedPeer.None? {
        assert false;
      }
      peer := selectedPeer.value;
      result := ReceiveAndAssembleChunk(selectedPeer.value, i, traffic(selectedPeer.value, i, attempt));
      if result.Got? {
        WriteChunkToFile(result.data, i, file);
        UpdateDownloadProgress(i + 1, totalChunks);
      }
    }

    /**
     * `run`. Each request gets the datagrams `traffic(peer, chunk, attempt)`
     * that arrive before its timeout. Every attempt either yields a chunk
     * (an empty one after a timeout) or throws, and a throw ends `run`, so
     * a single pass asks `chosen[j]` for chunk `j` until the first throw.
     * The returned flags and counter are the final values of
     * `chunksReceived` and `chunksDownloaded`.
     */
    method Run(file: OutputFile, traffic: (Peer, int, nat) -> seq<seq<byte>>)
        returns (outcome: RunOutcome, ghost chosen: seq<Peer>, ghost added: seq<(nat, seq<byte>)>,
                 ghost flags: seq<bool>, ghost downloaded: int)
      requires peers != [] || TotalChunks(fileSize) <= 0
      modifies this, file
      // which peers were asked, and how each attempt went
      ensures |chosen| <= Max(TotalChunks(fileSize), 0)
      ensures forall j :: 0 <= j < |chosen| ==> chosen[j] in peers
      ensures var tries := Attempts(chosen, traffic, fileHash);
        forall j :: 0 <= j < |chosen| - 1 ==> tries[j].Got?
      // the outcome
      ensures var tries := Attempts(chosen, traffic, fileHash);
        outcome == Completed <==> TotalChunks(fileSize) >= 0 && |chosen| == TotalChunks(fileSize) && forall j :: 0 <= j < |chosen| ==> tries[j].Got?
      ensures var tries := Attempts(chosen, traffic, fileHash);
        outcome == Failed <==> chosen != [] && tries[|chosen| - 1] == Threw(IoException)
      ensures var tries := Attempts(chosen, traffic, fileHash);
        outcome == Crashed <==> TotalChunks(fileSize) < 0 || (chosen != [] && tries[|chosen| - 1] == Threw(RuntimeException))
      // the requests, the writes and the file
      ensures requests == old(requests) + RequestLog(chosen, fileHash)
      ensures writes == old(writes) + added
      ensures |added| == if outcome == Completed then |chosen| else Max(|chosen| - 1, 0)
      ensures var tries := Attempts(chosen, traffic, fileHash);
        forall j :: 0 <= j < |added| ==> added[j].0 == j && j < |tries| && tries[j] == Got(added[j].1)
      ensures file.bytes == ApplyWrites(old(file.bytes), added)
      // the progress reports and the final flags and counter
      ensures TotalChunks(fileSize) < 0 ==> reports == old(reports)
      ensures TotalChunks(fileSize) >= 0 ==>
        && reports == old(reports) + ProgressReports(|added|, TotalChunks(fileSize))
        && flags == Flags(|added|, TotalChunks(fileSize))
        && downloaded == |added| == CountTrue(flags)
    {
      var totalChunks := TotalChunks(fileSize);
      if totalChunks < 0 {
        return Crashed, [], [], [], 0;
      }
      var chunksReceived := new bool[totalChunks](_ => false);
      assert chunksReceived[..] == Flags(0, totalChunks);
      ghost var start := CurrentLogs(file);
      var thrown, chunksDownloaded;
      thrown, chosen, added, chunksDownloaded := DownloadAll(file, traffic, chunksReceived, totalChunks);
      ProgressedEnds(start, CurrentLogs(file), chosen, added, traffic, fileHash, peers, totalChunks);
      FlagsCount(|added|, totalChunks);
      outcome := match thrown
        case None => Completed
        case Some(IoException) => Failed
        case Some(RuntimeException) => Crashed;
      return outcome, chosen, added, chunksReceived[..], chunksDownloaded;
    }

    /**
     * The `try` block of `run`, from a flag array with no flag set: the
     * `while` loop over passes and the `for` loop over chunk indices. The
     * first exception ends it and is returned; `None` means the loops ran
     * to completion. The counter is returned with it.
     */
    method DownloadAll(file: OutputFile, traffic: (Peer, int, nat) -> seq<seq<byte>>, chunksReceived: array<bool>, totalChunks: int)
        returns (thrown: Option<Thrown>, ghost chosen: seq<Peer>, ghost added: seq<(nat, seq<byte>)>, chunksDownloaded: int)
      requires peers != [] || totalChunks == 0
      requires chunksReceived.Length == totalChunks && chunksReceived[..] == Flags(0, totalChunks)
      modifies this, file, chunksReceived
      ensures Progressed(old(CurrentLogs(file)), CurrentLogs(file), chosen, added, traffic, fileHash, peers, totalChunks)
      ensures chunksDownloaded == |added| && chunksReceived[..] == Flags(|added|, totalChunks)
      ensures thrown.None? <==> |chosen| == |added|
      ensures thrown.None? ==> |added| == totalChunks
      ensures thrown.Some? ==> |chosen| == |added| + 1 && Attempts(chosen, traffic, fileHash)[|added|] == Threw(thrown.value)
    {
      ghost var start := CurrentLogs(file);
      chosen := [];
      added := [];
      chunksDownloaded := 0;
      var attempt := 0;
      ProgressedStart(start, traffic, fileHash, peers, totalChunks);
      while chunksDownloaded < totalChunks
        invariant 0 <= chunksDownloaded <= totalChunks
        invariant chunksDownloaded < totalChunks ==> chunksDownloaded == 0 && attempt == 0
        invariant chunksReceived[..] == Flags(chunksDownloaded, totalChunks)
        invariant |added| == |chosen| == chunksDownloaded
        invariant Progressed(start, CurrentLogs(file), chosen, added, traffic, fileHash, peers, totalChunks)
        decreases totalChunks - chunksDownloaded
      {
        for i := 0 to totalChunks
          invariant chunksDownloaded == i && attempt == i && |added| == |chosen| == i
          invariant chunksReceived[..] == Flags(i, totalChunks)
          invariant Progressed(start, CurrentLogs(file), chosen, added, traffic, fileHash, peers, totalChunks)
        {
          assert chunksReceived[i] == Flags(i, totalChunks)[i];
          if !chunksReceived[i] {
            ghost var before := CurrentLogs(file);
            var result;
            ghost var peer;
            result, peer := DownloadChunk(file, traffic, attempt, i, totalChunks);
            attempt := attempt + 1;
            if result.Threw? {
              ProgressedThrew(start, before, CurrentLogs(file), chosen, added, traffic, fileHash, peers, totalChunks, peer, result);
              chosen := chosen + [peer];
              return Some(result.thrown), chosen, added, chunksDownloaded;
            }
            ProgressedStep(start, before, CurrentLogs(file), chosen, added, traffic, fileHash, peers, totalChunks, peer, result.data);
            ghost var entry: (nat, seq<byte>) := (i, result.data);
            added := added + [entry];
            chosen := chosen + [peer];
            FlagsStep(i, totalChunks);
            chunksReceived[i] := true;
            chunksDownloaded := chunksDownloaded + 1;
          } else {
            assert false;
          }
        }
      }
      return None, chosen, added, chunksDownloaded;
    }

    /** The logs as values: writes made, progress reported, file contents, requests sent. */
    ghost function CurrentLogs(file: OutputFile): Logs
      reads this, file
    {
      Logs(writes, reports, file.bytes, requests)
    }
  }

  /** A snapshot of what a downloader has logged and of its output file. */
  datatype Logs = Logs(writes: seq<(nat, seq<byte>)>, reports: seq<int>, bytes: seq<byte>, requests: seq<(Peer, string)>)

  /**
   * The bookkeeping of `run` from the logs `start` to the logs `now`,
   * after the attempts at `chosen[0]`, `chosen[1]`, ... for chunks
   * `0, 1, ...` of `n`: every attempt but possibly the last came back, and
   * the writes `added` are theirs, made in index order; a further attempt,
   * if there is one, threw. The file holds the result of the writes, one
   * progress figure was reported per chunk written, and one request went
   * out per attempt whose port was usable.
   */
  ghost predicate Progressed(start: Logs, now: Logs, chosen: seq<Peer>, added: seq<(nat, seq<byte>)>,
                             traffic: (Peer, int, nat) -> seq<seq<byte>>, hash: string, peers: seq<Peer>, n: nat)
  {
    Attempted(chosen, added, traffic, hash, peers, n) && LogsFollow(start, now, chosen, added, hash, n)
  }

  /** The attempts half of `Progressed`. */
  ghost predicate Attempted(chosen: seq<Peer>, added: seq<(nat, seq<byte>)>, traffic: (Peer, int, nat) -> seq<seq<byte>>,
                            hash: string, peers: seq<Peer>, n: nat)
  {
    && |added| <= |chosen| <= n
    && |chosen| <= |added| + 1
    && (forall j :: 0 <= j < |chosen| ==> chosen[j] in peers)
    && (forall j :: 0 <= j < |added| ==> added[j].0 == j && Attempts(chosen, traffic, hash)[j] == Got(added[j].1))
    && (|added| < |chosen| ==> Attempts(chosen, traffic, hash)[|added|].Threw?)
  }

  /** The logs half of `Progressed`. */
  ghost predicate LogsFollow(start: Logs, now: Logs, chosen: seq<Peer>, added: seq<(nat, seq<byte>)>, hash: string, n: nat)
  {
    && |added| <= n
    && now.writes == start.writes + added
    && now.bytes == ApplyWrites(start.bytes, added)
    && now.reports == start.reports + ProgressReports(|added|, n)
    && now.requests == start.requests + RequestLog(chosen, hash)
  }

  lemma ProgressedStart(start: Logs, traffic: (Peer, int, nat) -> seq<seq<byte>>, hash: string, peers: seq<Peer>, n: nat)
    ensures Progressed(start, start, [], [], traffic, hash, peers, n)
  {
    assert start.writes + [] == start.writes;
    assert start.reports + [] == start.reports;
    assert start.requests + [] == start.requests;
  }

  /** Attempt `j` of a longer pass is attempt `j` of the shorter one. */
  lemma AttemptsPrefix(chosen: seq<Peer>, p: Peer, traffic: (Peer, int, nat) -> seq<seq<byte>>, hash: string)
    ensures var tries := Attempts(chosen + [p], traffic, hash);
      && tries[..|chosen|] == Attempts(chosen, traffic, hash)
      && tries[|chosen|] == ChunkAttempt(p, traffic(p, |chosen|, |chosen|), hash, |chosen|)
  {
    var tries := Attempts(chosen + [p], traffic, hash);
    forall j | 0 <= j < |chosen| ensures tries[j] == Attempts(chosen, traffic, hash)[j] {
      assert (chosen + [p])[j] == chosen[j];
    }
  }

  /** An attempt that came back: its chunk is written and reported, and the bookkeeping moves one chunk on. */
  lemma ProgressedStep(start: Logs, before: Logs, after: Logs, chosen: seq<Peer>, added: seq<(nat, seq<byte>)>,
                       traffic: (Peer, int, nat) -> seq<seq<byte>>, hash: string, peers: seq<Peer>, n: nat,
                       p: Peer, d: seq<byte>)
    requires Progressed(start, before, chosen, added, traffic, hash, peers, n) && |added| == |chosen| < n
    requires after.writes == before.writes + [(|added|, d)]
    requires after.bytes == Overwrite(before.bytes, ChunkOffset(|added|), d)
    requires after.reports == before.reports + [ProgressPercentage(|added| + 1, n)]
    requires after.requests == before.requests + RequestOf(p, hash, |added|)
    requires p in peers && ChunkAttempt(p, traffic(p, |added|, |added|), hash, |added|) == Got(d)
    ensures Progressed(start, after, chosen + [p], added + [(|added|, d)], traffic, hash, peers, n)
  {
    LogsGot(start, before, after, chosen, added, hash, n, p, d);
    AttemptsGot(chosen, added, traffic, hash, peers, n, p, d);
  }

  /** The logs after one more chunk came back and was written and reported. */
  lemma LogsGot(start: Logs, before: Logs, after: Logs, chosen: seq<Peer>, added: seq<(nat, seq<byte>)>,
                hash: string, n: nat, p: Peer, d: seq<byte>)
    requires LogsFollow(start, before, chosen, added, hash, n) && |added| == |chosen| < n
    requires after.writes == before.writes + [(|added|, d)]
    requires after.bytes == Overwrite(before.bytes, ChunkOffset(|added|), d)
    requires after.reports == before.reports + [ProgressPercentage(|added| + 1, n)]
    requires after.requests == before.requests + RequestOf(p, hash, |added|)
    ensures LogsFollow(start, after, chosen + [p], added + [(|added|, d)], hash, n)
  {
    ProgressReportsStep(|added|, n);
    RequestLogStep(chosen, p, hash);
  }

  /** One more attempt that came back: every attempt so far came back, each with the chunk it added. */
  lemma AttemptsGot(chosen: seq<Peer>, added: seq<(nat, seq<byte>)>, traffic: (Peer, int, nat) -> seq<seq<byte>>,
                    hash: string, peers: seq<Peer>, n: nat, p: Peer, d: seq<byte>)
    requires Attempted(chosen, added, traffic, hash, peers, n) && |added| == |chosen| < n
    requires p in peers && ChunkAttempt(p, traffic(p, |added|, |added|), hash, |added|) == Got(d)
    ensures Attempted(chosen + [p], added + [(|added|, d)], traffic, hash, peers, n)
  {
    var k := |added|;
    var a := added + [(k, d)];
    var c := chosen + [p];
    AttemptsPrefix(chosen, p, traffic, hash);
    var tries := Attempts(c, traffic, hash);
    forall j | 0 <= j < |a| ensures a[j].0 == j && tries[j] == Got(a[j].1) {
      if j < k {
        assert tries[j] == tries[..k][j] == Attempts(chosen, traffic, hash)[j];
      }
    }
    forall j | 0 <= j < |c| ensures c[j] in peers {
      if j < k {
        assert c[j] == chosen[j];
      }
    }
  }

  /** An attempt that threw: nothing is written or reported, and the bookkeeping records the throw. */
  lemma ProgressedThrew(start: Logs, before: Logs, after: Logs, chosen: seq<Peer>, added: seq<(nat, seq<byte>)>,
                        traffic: (Peer, int, nat) -> seq<seq<byte>>, hash: string, peers: seq<Peer>, n: nat,
                        p: Peer, result: Attempt)
    requires Progressed(start, before, chosen, added, traffic, hash, peers, n) && |added| == |chosen| < n
    requires p in peers && ChunkAttempt(p, traffic(p, |added|, |added|), hash, |added|) == result && result.Threw?
    requires after == before.(requests := before.requests + RequestOf(p, hash, |added|))
    ensures Progressed(start, after, chosen + [p], added, traffic, hash, peers, n)
    ensures Attempts(chosen + [p], traffic, hash)[|added|] == result
  {
    RequestLogStep(chosen, p, hash);
    AttemptsPrefix(chosen, p, traffic, hash);
  }

  /** What the bookkeeping says about the attempts, in the terms `run` promises them. */
  lemma ProgressedEnds(start: Logs, now: Logs, chosen: seq<Peer>, added: seq<(nat, seq<byte>)>,
                       traffic: (Peer, int, nat) -> seq<seq<byte>>, hash: string, peers: seq<Peer>, n: nat)
    requires Progressed(start, now, chosen, added, traffic, hash, peers, n)
    ensures var tries := Attempts(chosen, traffic, hash);
      && (forall j :: 0 <= j < |chosen| - 1 ==> tries[j].Got?)
      && (|chosen| == |added| ==> forall j :: 0 <= j < |chosen| ==> tries[j].Got?)
      && (forall j :: 0 <= j < |added| ==> added[j].0 == j && j < |tries| && tries[j] == Got(added[j].1))
  {
  }

  /** The flag array after the first `k` chunks have been received. */
  function Flags(k: nat, n: nat): (flags: seq<bool>)
    ensures |flags| == n
  {
    seq(n, j requires 0 <= j < n => j < k)
  }

  lemma FlagsStep(k: nat, n: nat)
    requires k < n
    ensures Flags(k, n)[k := true] == Flags(k + 1, n)
  {
  }

  /** The first `k` of `n` flags set: the count is `k`. */
  lemma {:induction false} FlagsCount(k: nat, n: nat)
    requires k <= n
    ensures CountTrue(Flags(k, n)) == k
  {
    if n > 0 {
      assert Flags(k, n)[..n - 1] == Flags(if k == n then n - 1 else k, n - 1);
      FlagsCount(if k == n then n - 1 else k, n - 1);
    }
  }

  /** The progress figures reported for the first `k` of `n` chunks. */
  function ProgressReports(k: nat, n: nat): (rs: seq<int>)
    requires k <= n
    ensures |rs| == k
  {
    seq(k, j requires 0 <= j < k => ProgressPercentage(j + 1, n))
  }

  lemma ProgressReportsStep(k: nat, n: nat)
    requires k < n
    ensures ProgressReports(k + 1, n) == ProgressReports(k, n) + [ProgressPercentage(k + 1, n)]
  {
  }

  /** The reports of a complete download rise to exactly 100 and never fall. */
  lemma ProgressReportsRise(n: nat)
    requires n > 0
    ensures var rs := ProgressReports(n, n);
      && (forall j :: 0 <= j < n ==> 0 <= rs[j] <= 100)
      && (forall j, k :: 0 <= j <= k < n ==> rs[j] <= rs[k])
      && rs[n - 1] == 100
      && forall j :: 0 <= j < n - 1 ==> rs[j] < 100
  {
    var rs := ProgressReports(n, n);
    forall j | 0 <= j < n
      ensures 0 <= rs[j] <= 100
      ensures j < n - 1 ==> rs[j] < 100
    {
      ProgressBounds(j + 1, n);
      ProgressComplete(j + 1, n);
    }
    forall j, k | 0 <= j <= k < n
      ensures rs[j] <= rs[k]
    {
      ProgressMonotone(j + 1, k + 1, n);
    }
    ProgressComplete(n, n);
  }

}
