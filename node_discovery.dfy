/**
 * The node's protocol engine: the membership state machine driven by
 * DISCOVERY, DISCOVERY_RESPONSE and DISCONNECT, the catalog of remote files
 * driven by FILE and DELETE, the chunk server answering REQUEST_CHUNK, the
 * two listener loops that route datagrams by prefix, and the broadcasts
 * this node sends. Sends are appended to a ghost outbox and user-interface
 * callbacks to a ghost event log; the delayed end of a suppression is the
 * explicit step `Expire`.
 */
module Discovery {
  import opened Wrappers
  import opened Bytes
  import opened JavaText
  import opened Peers
  import opened Nodes
  import opened Metadata
  import opened Protocol
  import opened ChunkTransfer

  /** An outgoing datagram: a control message, or one binary chunk fragment. */
  datatype Datagram =
    | Text(host: string, port: int, text: string)
    | Binary(host: string, port: int, data: seq<byte>)

  /** A call of one of the user-interface callbacks, with its argument. */
  datatype Event =
    | NodeDiscovered(nodeInfo: string)
    | FileBroadcast(message: string)
    | NodeDisconnected(nodeInfo: string)
    | FileDeleted(fileHash: string)

  /** A file this node shares, as `broadcastFileList` sees it: name, length and `calculateHash` result. */
  datatype SharedFile = SharedFile(name: string, length: int, hash: Option<string>)

  /** The datagrams a fan-out sent, and whether an exception cut it short. */
  datatype FanOutResult = FanOutResult(datagrams: seq<Datagram>, aborted: bool)

  /**
   * What `findFileByHash` gives for a hash: the bytes of the shared file
   * with that hash, no file, or the NullPointerException it throws when a
   * file it hashes on its way cannot be read (its hash is then null).
   */
  datatype Lookup = Found(bytes: seq<byte>) | NotFound | Unhashable

  predicate Distinct<T(==)>(s: seq<T>) {
    forall i, j :: 0 <= i < j < |s| ==> s[i] != s[j]
  }

  /**
   * `s` lists every element of `xs` once: one possible iteration order of
   * a Java hash set or map, which the source leaves unspecified.
   */
  ghost predicate IsEnumeration(s: seq<string>, xs: set<string>) {
    Distinct(s) && forall x :: x in xs <==> x in s
  }

  // ----- sending one text to every connected node -----

  /** The destination each connected identity stands for, in iteration order. */
  function Endpoints(ids: seq<string>): (eps: seq<Endpoint>)
    ensures |eps| == |ids|
    ensures forall k :: 0 <= k < |ids| ==> eps[k] == ParseEndpoint(ids[k])
  {
    seq(|ids|, k requires 0 <= k < |ids| => ParseEndpoint(ids[k]))
  }

  /**
   * The loop over `connectedNodes` in `broadcastFileList` and
   * `broadcastDisconnect`, given the destinations of the identities in
   * iteration order: an identity that does not split into two fields is
   * reported and skipped; one whose port does not parse, or parses to a
   * value outside 0..65535, throws and ends the loop; any other gets the
   * text.
   */
  function FanOut(eps: seq<Endpoint>, text: string): (r: FanOutResult)
  {
    if eps == [] then FanOutResult([], false)
    else
      var prev := FanOut(eps[..|eps| - 1], text);
      if prev.aborted then prev
      else
        match eps[|eps| - 1]
        case Malformed => prev
        case BadPort => FanOutResult(prev.datagrams, true)
        case Address(host, port) => FanOutResult(prev.datagrams + [Text(host, port, text)], false)
  }

  /**
   * A fan-out sends at most one datagram per destination, each carrying
   * the text, and is cut short exactly when some identity's port does
   * not parse or is out of range.
   */
  lemma {:induction false} FanOutShape(eps: seq<Endpoint>, text: string)
    ensures var r := FanOut(eps, text);
      && |r.datagrams| <= |eps|
      && (forall k :: 0 <= k < |r.datagrams| ==> r.datagrams[k] == Text(r.datagrams[k].host, r.datagrams[k].port, text))
      && (r.aborted <==> BadPort in eps)
  {
    if eps != [] {
      var front := eps[..|eps| - 1];
      FanOutShape(front, text);
      assert forall e :: e in front ==> e in eps;
    }
  }

  /** One more destination, after a fan-out that was not cut short. */
  lemma FanOutStep(eps: seq<Endpoint>, k: nat, text: string)
    requires k < |eps| && !FanOut(eps[..k], text).aborted
    ensures var prev := FanOut(eps[..k], text).datagrams;
      FanOut(eps[..k + 1], text) ==
        match eps[k]
        case Malformed => FanOutResult(prev, false)
        case BadPort => FanOutResult(prev, true)
        case Address(host, port) => FanOutResult(prev + [Text(host, port, text)], false)
  {
    assert eps[..k + 1][..k] == eps[..k];
  }

  /** The datagram each destination is sent when every identity is a proper `ip:port`. */
  function Deliveries(eps: seq<Endpoint>, text: string): (ds: seq<Datagram>)
    requires forall k :: 0 <= k < |eps| ==> eps[k].Address?
    ensures |ds| == |eps|
  {
    seq(|eps|, k requires 0 <= k < |eps| => Text(eps[k].host, eps[k].port, text))
  }

  /** With only proper identities connected, the fan-out reaches each of them once, in order. */
  lemma {:induction false} FanOutReachesAll(eps: seq<Endpoint>, text: string)
    requires forall k :: 0 <= k < |eps| ==> eps[k].Address?
    ensures FanOut(eps, text) == FanOutResult(Deliveries(eps, text), false)
  {
    if eps != [] {
      var front := eps[..|eps| - 1];
      FanOutReachesAll(front, text);
      assert Deliveries(eps, text) == Deliveries(front, text) + [Deliveries(eps, text)[|eps| - 1]];
    }
  }

  /** A fan-out to the identities of peers with colon-free addresses and in-range ports reaches every peer. */
  lemma FanOutToPeers(peers: seq<Peer>, text: string)
    requires forall k :: 0 <= k < |peers| ==> NoColon(peers[k].ipAddress) && IsPort(peers[k].port)
    ensures var ids := seq(|peers|, k requires 0 <= k < |peers| => peers[k].ToString());
      FanOut(Endpoints(ids), text) == FanOutResult(seq(|peers|, k requires 0 <= k < |peers| => Text(peers[k].ipAddress, peers[k].port, text)), false)
  {
    var ids := seq(|peers|, k requires 0 <= k < |peers| => peers[k].ToString());
    var eps := Endpoints(ids);
    forall k | 0 <= k < |peers|
      ensures eps[k] == Address(peers[k].ipAddress, peers[k].port)
    {
      EndpointOfPeerIdentity(peers[k].ipAddress, peers[k].port);
    }
    FanOutReachesAll(eps, text);
  }

  /** An enumeration is empty exactly when the collection it enumerates is. */
  lemma EmptyEnumeration(s: seq<string>, xs: set<string>)
    requires IsEnumeration(s, xs)
    ensures xs == {} <==> s == []
  {
    if s != [] {
      assert s[0] in xs;
    }
  }

  // ----- what the broadcasts send -----

  /** `calculateHash` may give `null`; string concatenation then writes the text "null". */
  function HashText(hash: Option<string>): string {
    match hash
    case Some(h) => h
    case None => "null"
  }

  /** The metadata `broadcastFileList` builds for a shared file. */
  function AdvertisedMetadata(f: SharedFile, ip: string, port: int): (m: FileMetadata)
    ensures m.fileName == f.name && m.fileSize == f.length && m.ownerIP == ip && m.ownerPort == port
    ensures f.hash.Some? ==> m.fileHash == f.hash.value
  {
    FileMetadata(f.name, f.length, ip, port, HashText(f.hash))
  }

  /** The FILE advertisement of each shared file, in list order. */
  function Adverts(files: seq<SharedFile>, ip: string, port: int, secret: string): (texts: seq<string>)
    ensures |texts| == |files|
    ensures forall i :: 0 <= i < |files| ==> texts[i] == FileMessage(secret, AdvertisedMetadata(files[i], ip, port))
  {
    seq(|files|, i requires 0 <= i < |files| => FileMessage(secret, AdvertisedMetadata(files[i], ip, port)))
  }

  /**
   * The datagrams `broadcastFileList` sends, given its advertisements in
   * order: each one's fan-out to the connected nodes; an exception in one
   * file's fan-out is caught and the next file is taken up.
   */
  function FileListDatagrams(texts: seq<string>, eps: seq<Endpoint>): (ds: seq<Datagram>)
  {
    if texts == [] then []
    else FileListDatagrams(texts[..|texts| - 1], eps) + FanOut(eps, texts[|texts| - 1]).datagrams
  }

  /** One more file: its advertisement's fan-out follows the earlier files' datagrams. */
  lemma FileListStep(texts: seq<string>, i: nat, eps: seq<Endpoint>)
    requires i < |texts|
    ensures FileListDatagrams(texts[..i + 1], eps) == FileListDatagrams(texts[..i], eps) + FanOut(eps, texts[i]).datagrams
  {
    assert texts[..i + 1][..i] == texts[..i];
  }

  /**
   * With only proper identities connected, every connected node receives
   * every file's advertisement: one datagram per file and node.
   */
  lemma {:induction false} FileListReachesAll(texts: seq<string>, eps: seq<Endpoint>)
    requires forall k :: 0 <= k < |eps| ==> eps[k].Address?
    ensures |FileListDatagrams(texts, eps)| == |texts| * |eps|
    ensures forall i, k :: 0 <= i < |texts| && 0 <= k < |eps| ==> Deliveries(eps, texts[i])[k] in FileListDatagrams(texts, eps)
  {
    if texts != [] {
      var front := texts[..|texts| - 1];
      FileListReachesAll(front, eps);
      FanOutReachesAll(eps, texts[|texts| - 1]);
      MulSucc(|front|, |eps|);
      forall i, k | 0 <= i < |texts| && 0 <= k < |eps|
        ensures Deliveries(eps, texts[i])[k] in FileListDatagrams(texts, eps)
      {
        if i < |front| {
          assert texts[i] == front[i];
        }
      }
    }
  }

  /** The map's values, read in the iteration order `keys` of its key set. */
  function ValuesInOrder(keys: seq<string>, files: map<string, FileMetadata>): (ms: seq<FileMetadata>)
    requires forall i :: 0 <= i < |keys| ==> keys[i] in files
    ensures |ms| == |keys|
    ensures forall i :: 0 <= i < |keys| ==> ms[i] == files[keys[i]]
  {
    seq(|keys|, i requires 0 <= i < |keys| => files[keys[i]])
  }

  /** The hash `broadcastDisconnect` reads back from each metadata's text form, in order. */
  function RetractedHashes(metas: seq<FileMetadata>): (hs: seq<Option<string>>)
    ensures |hs| == |metas|
    ensures forall i :: 0 <= i < |metas| ==> hs[i] == RetractedHash(metas[i])
  {
    seq(|metas|, i requires 0 <= i < |metas| => RetractedHash(metas[i]))
  }

  /**
   * The datagrams `broadcastDisconnect` sends after its DISCONNECT
   * broadcast, given the hashes read back from the known files' metadata
   * in iteration order: a DELETE of each to the connected nodes. A text
   * form without a field 4 (`None`), or a fan-out cut short, ends the
   * whole method (neither exception is an `IOException`, the only kind it
   * catches).
   */
  function Retractions(hashes: seq<Option<string>>, eps: seq<Endpoint>): (r: FanOutResult)
  {
    if hashes == [] then FanOutResult([], false)
    else
      var prev := Retractions(hashes[..|hashes| - 1], eps);
      if prev.aborted then prev
      else
        match hashes[|hashes| - 1]
        case None => FanOutResult(prev.datagrams, true)
        case Some(h) =>
          var out := FanOut(eps, DeleteMessage(h));
          FanOutResult(prev.datagrams + out.datagrams, out.aborted)
  }

  /** One more file, after a retraction that was not cut short. */
  lemma RetractionsStep(hashes: seq<Option<string>>, i: nat, eps: seq<Endpoint>)
    requires i < |hashes| && !Retractions(hashes[..i], eps).aborted
    ensures var prev := Retractions(hashes[..i], eps);
      Retractions(hashes[..i + 1], eps) ==
        match hashes[i]
        case None => FanOutResult(prev.datagrams, true)
        case Some(h) =>
          var out := FanOut(eps, DeleteMessage(h));
          FanOutResult(prev.datagrams + out.datagrams, out.aborted)
  {
    assert hashes[..i + 1][..i] == hashes[..i];
  }

  /**
   * With every hash readable and only proper identities connected, the
   * retraction completes and every connected node is told to delete
   * every hash: one datagram per file and node.
   */
  lemma {:induction false} RetractionsReachAll(hashes: seq<Option<string>>, eps: seq<Endpoint>)
    requires forall i :: 0 <= i < |hashes| ==> hashes[i].Some?
    requires forall k :: 0 <= k < |eps| ==> eps[k].Address?
    ensures !Retractions(hashes, eps).aborted
    ensures |Retractions(hashes, eps).datagrams| == |hashes| * |eps|
    ensures forall i, k :: 0 <= i < |hashes| && 0 <= k < |eps| ==>
      Deliveries(eps, DeleteMessage(hashes[i].value))[k] in Retractions(hashes, eps).datagrams
  {
    if hashes != [] {
      var front := hashes[..|hashes| - 1];
      RetractionsReachAll(front, eps);
      FanOutReachesAll(eps, DeleteMessage(hashes[|hashes| - 1].value));
      MulSucc(|front|, |eps|);
      forall i, k | 0 <= i < |hashes| && 0 <= k < |eps|
        ensures Deliveries(eps, DeleteMessage(hashes[i].value))[k] in Retractions(hashes, eps).datagrams
      {
        if i < |front| {
          assert hashes[i] == front[i];
        }
      }
    }
  }

  /**
   * With splittable metadata every hash reads back, so the departure
   * tells every connected node to delete every known file's own hash.
   */
  lemma DepartureRetractsAll(metas: seq<FileMetadata>, eps: seq<Endpoint>)
    requires forall i :: 0 <= i < |metas| ==> metas[i].Splittable()
    requires forall k :: 0 <= k < |eps| ==> eps[k].Address?
    ensures var r := Retractions(RetractedHashes(metas), eps);
      && !r.aborted && |r.datagrams| == |metas| * |eps|
      && forall i, k :: 0 <= i < |metas| && 0 <= k < |eps| ==> Deliveries(eps, DeleteMessage(metas[i].fileHash))[k] in r.datagrams
  {
    var hashes := RetractedHashes(metas);
    RetractionsReachAll(hashes, eps);
  }

  // ----- the invariants of the engine's state -----

  /**
   * A suppressed identity is never connected, and every suppression has a
   * removal pending, so none is permanent.
   */
  ghost predicate MembershipValid(connected: set<string>, suppressed: set<string>, pending: seq<string>) {
    && connected !! suppressed
    && forall id :: id in suppressed ==> id in pending
  }

  /**
   * The two catalog maps have the same keys; each file's metadata carries
   * its own hash, and its peer list ends with the owner that metadata names.
   */
  ghost predicate CatalogValid(hashes: map<string, FileMetadata>, peers: map<string, seq<Peer>>) {
    && hashes.Keys == peers.Keys
    && forall h {:trigger hashes[h]} :: h in hashes ==>
         && hashes[h].fileHash == h
         && peers[h] != []
         && peers[h][|peers[h]| - 1] == Peer(hashes[h].ownerIP, hashes[h].ownerPort)
  }

  /** Admitting an identity that is not suppressed keeps the membership invariant. */
  lemma AdmitKeepsMembership(connected: set<string>, suppressed: set<string>, pending: seq<string>, id: string)
    requires MembershipValid(connected, suppressed, pending) && id !in suppressed
    ensures MembershipValid(connected + {id}, suppressed, pending)
  {
  }

  /** A departure suppresses the identity, drops it from the connected set and schedules its expiry. */
  lemma SuppressKeepsMembership(connected: set<string>, suppressed: set<string>, pending: seq<string>, id: string)
    requires MembershipValid(connected, suppressed, pending)
    ensures MembershipValid(connected - {id}, suppressed + {id}, pending + [id])
  {
  }

  /** The oldest expiry ends one suppression; every other one still has its removal pending. */
  lemma ExpireKeepsMembership(connected: set<string>, suppressed: set<string>, pending: seq<string>)
    requires MembershipValid(connected, suppressed, pending) && pending != []
    ensures MembershipValid(connected, suppressed - {pending[0]}, pending[1..])
  {
    forall id | id in suppressed - {pending[0]}
      ensures id in pending[1..]
    {
      var k :| 0 <= k < |pending| && pending[k] == id;
      assert k != 0;
      assert pending[1..][k - 1] == id;
    }
  }

  /** Recording an advertisement under its own hash keeps the catalog invariant. */
  lemma RecordAdvertKeepsCatalog(hashes: map<string, FileMetadata>, peers: map<string, seq<Peer>>, m: FileMetadata)
    requires CatalogValid(hashes, peers)
    ensures CatalogValid(hashes[m.fileHash := m], peers[m.fileHash := PeersWithFile(peers, m.fileHash) + [Peer(m.ownerIP, m.ownerPort)]])
  {
  }

  /** Forgetting a hash in both maps keeps the catalog invariant. */
  lemma ForgetFileKeepsCatalog(hashes: map<string, FileMetadata>, peers: map<string, seq<Peer>>, h: string)
    requires CatalogValid(hashes, peers)
    ensures CatalogValid(hashes - {h}, peers - {h})
  {
  }

  lemma AppendAssoc<T>(a: seq<T>, b: seq<T>, c: seq<T>)
    ensures (a + b) + c == a + (b + c)
  {
  }

  lemma MulSucc(a: nat, b: nat)
    ensures (a + 1) * b == a * b + b
  {
  }

  // ----- the engine -----

  class NodeDiscovery {
    const localNode: Node
    /** `ip:port` identities of the nodes admitted by a DISCOVERY. */
    var connectedNodes: set<string>
    /** Identities that announced their departure within the last two seconds. */
    var recentlyDisconnectedNodes: set<string>
    /** Latest advertised metadata per file hash. */
    var fileHashMap: map<string, FileMetadata>
    /** Every advertiser of each file hash, repeats included, in arrival order. */
    var filePeersMap: map<string, seq<Peer>>
    /** Whether each callback has been installed (a `null` callback is skipped). */
    var onNodeDiscovered: bool
    var onFileBroadcast: bool
    var onDisconnect: bool
    var onDelete: bool
    /** Datagrams sent, in order. */
    ghost var sent: seq<Datagram>
    /** Callback calls, in order. */
    ghost var events: seq<Event>
    /**
     * The removals from `recentlyDisconnectedNodes` scheduled and not yet
     * run; all have the same two-second delay on one scheduler thread, so
     * they run in the order they were scheduled.
     */
    var pendingExpiries: seq<string>

    /** The membership and catalog invariants hold of the current fields. */
    ghost predicate Valid()
      reads this
    {
      && MembershipValid(connectedNodes, recentlyDisconnectedNodes, pendingExpiries)
      && CatalogValid(fileHashMap, filePeersMap)
    }

    /**
     * The constructor binds the transfer socket to a port of the system's
     * choosing, `boundPort`, and installs it as the local node's port.
     */
    constructor (localNode: Node, boundPort: int)
      modifies localNode
      ensures this.localNode == localNode
      ensures localNode.port == boundPort && localNode.ipAddress == old(localNode.ipAddress)
      ensures connectedNodes == {} && recentlyDisconnectedNodes == {} && fileHashMap == map[] && filePeersMap == map[]
      ensures !onNodeDiscovered && !onFileBroadcast && !onDisconnect && !onDelete
      ensures sent == [] && events == [] && pendingExpiries == []
      ensures Valid()
    {
      this.localNode := localNode;
      connectedNodes := {};
      recentlyDisconnectedNodes := {};
      fileHashMap := map[];
      filePeersMap := map[];
      onNodeDiscovered, onFileBroadcast, onDisconnect, onDelete := false, false, false, false;
      sent, events, pendingExpiries := [], [], [];
      new;
      localNode.SetPort(boundPort);
    }

    method SetOnNodeDiscoveredCallback()
      modifies this
      ensures onNodeDiscovered && onFileBroadcast == old(onFileBroadcast) && onDisconnect == old(onDisconnect) && onDelete == old(onDelete)
      ensures connectedNodes == old(connectedNodes) && recentlyDisconnectedNodes == old(recentlyDisconnectedNodes)
      ensures fileHashMap == old(fileHashMap) && filePeersMap == old(filePeersMap)
      ensures sent == old(sent) && events == old(events) && pendingExpiries == old(pendingExpiries)
    {
      onNodeDiscovered := true;
    }

    method SetOnFileBroadcastCallback()
      modifies this
      ensures onFileBroadcast && onNodeDiscovered == old(onNodeDiscovered) && onDisconnect == old(onDisconnect) && onDelete == old(onDelete)
      ensures connectedNodes == old(connectedNodes) && recentlyDisconnectedNodes == old(recentlyDisconnectedNodes)
      ensures fileHashMap == old(fileHashMap) && filePeersMap == old(filePeersMap)
      ensures sent == old(sent) && events == old(events) && pendingExpiries == old(pendingExpiries)
    {
      onFileBroadcast := true;
    }

    method SetOnDisconnectCallback()
      modifies this
      ensures onDisconnect && onNodeDiscovered == old(onNodeDiscovered) && onFileBroadcast == old(onFileBroadcast) && onDelete == old(onDelete)
      ensures connectedNodes == old(connectedNodes) && recentlyDisconnectedNodes == old(recentlyDisconnectedNodes)
      ensures fileHashMap == old(fileHashMap) && filePeersMap == old(filePeersMap)
      ensures sent == old(sent) && events == old(events) && pendingExpiries == old(pendingExpiries)
    {
      onDisconnect := true;
    }

    method SetOnDeleteCallback()
      modifies this
      ensures onDelete && onNodeDiscovered == old(onNodeDiscovered) && onFileBroadcast == old(onFileBroadcast) && onDisconnect == old(onDisconnect)
      ensures connectedNodes == old(connectedNodes) && recentlyDisconnectedNodes == old(recentlyDisconnectedNodes)
      ensures fileHashMap == old(fileHashMap) && filePeersMap == old(filePeersMap)
      ensures sent == old(sent) && events == old(events) && pendingExpiries == old(pendingExpiries)
    {
      onDelete := true;
    }

    // ----- membership -----

    /** `addNode`: adding an identity already present changes nothing. */
    method AddNode(nodeInfoString: string)
      modifies this`connectedNodes
      ensures connectedNodes == old(connectedNodes) + {nodeInfoString}
      ensures nodeInfoString in old(connectedNodes) ==> connectedNodes == old(connectedNodes)
    {
      if nodeInfoString in connectedNodes {
        return;
      }
      connectedNodes := connectedNodes + {nodeInfoString};
    }

    /** `removeNode`: exactly that identity is gone. */
    method RemoveNode(nodeInfo: string)
      modifies this`connectedNodes
      ensures connectedNodes == old(connectedNodes) - {nodeInfo}
    {
      connectedNodes := connectedNodes - {nodeInfo};
    }

    /**
     * `handleDiscovery`: an accepted DISCOVERY is answered with this
     * node's DISCOVERY_RESPONSE at the sender's discovery port, admits the
     * sender's identity and is reported; anything else (a message too
     * short to index, whose exception is caught, a suppressed sender, a
     * wrong secret or field count) changes nothing.
     */
    method HandleDiscovery(message: string, senderIP: string)
      requires Valid()
      modifies this
      ensures Valid()
      ensures var h := ClassifyHandshake(message, localNode.sharedSecret, old(recentlyDisconnectedNodes));
        && connectedNodes == (if h.Accepted? then old(connectedNodes) + {h.id} else old(connectedNodes))
        && sent == old(sent) + (if h.Accepted? then [Text(senderIP, BROADCAST_PORT, DiscoveryResponseMessage(localNode.ipAddress, localNode.port, localNode.sharedSecret))] else [])
        && events == old(events) + (if h.Accepted? && onNodeDiscovered then [NodeDiscovered(h.id)] else [])
      ensures recentlyDisconnectedNodes == old(recentlyDisconnectedNodes) && pendingExpiries == old(pendingExpiries)
      ensures fileHashMap == old(fileHashMap) && filePeersMap == old(filePeersMap)
      ensures onNodeDiscovered == old(onNodeDiscovered) && onFileBroadcast == old(onFileBroadcast)
      ensures onDisconnect == old(onDisconnect) && onDelete == old(onDelete)
    {
      var parts := JavaSplit(message);
      if |parts| < 3 {
        return;
      }
      var nodeInfo := parts[1] + ":" + parts[2];
      if nodeInfo in recentlyDisconnectedNodes {
        return;
      }
      if |parts| == 4 && parts[3] == localNode.sharedSecret {
        var responseMessage := DiscoveryResponseMessage(localNode.ipAddress, localNode.port, localNode.sharedSecret);
        sent := sent + [Text(senderIP, BROADCAST_PORT, responseMessage)];
        AdmitKeepsMembership(connectedNodes, recentlyDisconnectedNodes, pendingExpiries, nodeInfo);
        AddNode(nodeInfo);
        if onNodeDiscovered {
          events := events + [NodeDiscovered(nodeInfo)];
        }
      }
    }

    /** `sendDiscoveryResponse`: this node's DISCOVERY_RESPONSE to the given address and port. */
    method SendDiscoveryResponse(ipAddress: string, port: int)
      modifies this`sent
      ensures sent == old(sent) + [Text(ipAddress, port, DiscoveryResponseMessage(localNode.ipAddress, localNode.port, localNode.sharedSecret))]
    {
      var responseMessage := DiscoveryResponseMessage(localNode.ipAddress, localNode.port, localNode.sharedSecret);
      sent := sent + [Text(ipAddress, port, responseMessage)];
    }

    /**
     * `handleDiscoveryResponse`: never admits anyone. An accepted response
     * is answered with another DISCOVERY_RESPONSE and reported. It has no
     * handler for exceptions: a message too short to index throws out of
     * the listener, which `false` stands for.
     */
    method HandleDiscoveryResponse(message: string, senderIP: string) returns (ok: bool)
      requires Valid()
      modifies this
      ensures Valid()
      ensures var h := ClassifyHandshake(message, localNode.sharedSecret, old(recentlyDisconnectedNodes));
        && ok == !h.TooShort?
        && sent == old(sent) + (if h.Accepted? then [Text(senderIP, BROADCAST_PORT, DiscoveryResponseMessage(localNode.ipAddress, localNode.port, localNode.sharedSecret))] else [])
        && events == old(events) + (if h.Accepted? && onNodeDiscovered then [NodeDiscovered(h.id)] else [])
      ensures connectedNodes == old(connectedNodes)
      ensures recentlyDisconnectedNodes == old(recentlyDisconnectedNodes) && pendingExpiries == old(pendingExpiries)
      ensures fileHashMap == old(fileHashMap) && filePeersMap == old(filePeersMap)
      ensures onNodeDiscovered == old(onNodeDiscovered) && onFileBroadcast == old(onFileBroadcast)
      ensures onDisconnect == old(onDisconnect) && onDelete == old(onDelete)
    {
      var parts := JavaSplit(message);
      if |parts| < 3 {
        return false;
      }
      var nodeInfo := parts[1] + ":" + parts[2];
      if nodeInfo in recentlyDisconnectedNodes {
        return true;
      }
      if |parts| == 4 && parts[3] == localNode.sharedSecret {
        SendDiscoveryResponse(senderIP, BROADCAST_PORT);
        if onNodeDiscovered {
          events := events + [NodeDiscovered(nodeInfo)];
        }
      }
      return true;
    }

    /**
     * `handleDisconnect`: a DISCONNECT with four fields and the local
     * secret suppresses the sender's identity, schedules the end of that
     * suppression, drops the identity from the connected set and is
     * reported. Anything else changes nothing.
     */
    method HandleDisconnect(message: string)
      requires Valid()
      modifies this
      ensures Valid()
      ensures match DisconnectIdentity(message, localNode.sharedSecret)
        case Some(id) =>
          && recentlyDisconnectedNodes == old(recentlyDisconnectedNodes) + {id}
          && connectedNodes == old(connectedNodes) - {id}
          && pendingExpiries == old(pendingExpiries) + [id]
          && events == old(events) + (if onDisconnect then [NodeDisconnected(id)] else [])
        case None =>
          && recentlyDisconnectedNodes == old(recentlyDisconnectedNodes)
          && connectedNodes == old(connectedNodes)
          && pendingExpiries == old(pendingExpiries)
          && events == old(events)
      ensures sent == old(sent) && fileHashMap == old(fileHashMap) && filePeersMap == old(filePeersMap)
      ensures onNodeDiscovered == old(onNodeDiscovered) && onFileBroadcast == old(onFileBroadcast)
      ensures onDisconnect == old(onDisconnect) && onDelete == old(onDelete)
    {
      var parts := JavaSplit(message);
      if |parts| == 4 && parts[3] == localNode.sharedSecret {
        var nodeInfo := parts[1] + ":" + parts[2];
        SuppressKeepsMembership(connectedNodes, recentlyDisconnectedNodes, pendingExpiries, nodeInfo);
        recentlyDisconnectedNodes := recentlyDisconnectedNodes + {nodeInfo};
        pendingExpiries := pendingExpiries + [nodeInfo];
        RemoveNode(nodeInfo);
        if onDisconnect {
          events := events + [NodeDisconnected(nodeInfo)];
        }
      }
    }

    /**
     * The oldest scheduled removal runs: that one identity leaves the
     * suppressed set (even if it disconnected again since, the earlier
     * removal ends the later suppression too).
     */
    method Expire()
      requires Valid() && pendingExpiries != []
      modifies this
      ensures Valid()
      ensures recentlyDisconnectedNodes == old(recentlyDisconnectedNodes) - {old(pendingExpiries)[0]}
      ensures pendingExpiries == old(pendingExpiries)[1..]
      ensures connectedNodes == old(connectedNodes) && fileHashMap == old(fileHashMap) && filePeersMap == old(filePeersMap)
      ensures sent == old(sent) && events == old(events)
      ensures onNodeDiscovered == old(onNodeDiscovered) && onFileBroadcast == old(onFileBroadcast)
      ensures onDisconnect == old(onDisconnect) && onDelete == old(onDelete)
    {
      ExpireKeepsMembership(connectedNodes, recentlyDisconnectedNodes, pendingExpiries);
      var nodeInfo := pendingExpiries[0];
      recentlyDisconnectedNodes := recentlyDisconnectedNodes - {nodeInfo};
      pendingExpiries := pendingExpiries[1..];
    }

    // ----- the catalog -----

    /**
     * `handleFileBroadcast`: a FILE advertisement with the local secret
     * records its metadata under its hash, replacing any earlier one,
     * appends exactly one peer for the advertiser (repeats are kept) and is
     * reported unless the advertiser's IP is this node's. Other hashes are
     * untouched. A five- or six-field message, or a number that does not
     * parse, throws out of the listener (`false`) before anything changes.
     */
    method HandleFileBroadcast(message: string) returns (ok: bool)
      requires Valid()
      modifies this
      ensures Valid()
      ensures match ParseFileAdvert(message, localNode.sharedSecret)
        case Advert(m) =>
          && ok
          && fileHashMap == old(fileHashMap)[m.fileHash := m]
          && filePeersMap == old(filePeersMap)[m.fileHash := PeersWithFile(old(filePeersMap), m.fileHash) + [Peer(m.ownerIP, m.ownerPort)]]
          && events == old(events) + (if onFileBroadcast && m.ownerIP != localNode.ipAddress then [FileBroadcast(message)] else [])
        case NotAdvert =>
          ok && fileHashMap == old(fileHashMap) && filePeersMap == old(filePeersMap) && events == old(events)
        case AdvertFault =>
          !ok && fileHashMap == old(fileHashMap) && filePeersMap == old(filePeersMap) && events == old(events)
      ensures connectedNodes == old(connectedNodes) && recentlyDisconnectedNodes == old(recentlyDisconnectedNodes)
      ensures pendingExpiries == old(pendingExpiries) && sent == old(sent)
      ensures onNodeDiscovered == old(onNodeDiscovered) && onFileBroadcast == old(onFileBroadcast)
      ensures onDisconnect == old(onDisconnect) && onDelete == old(onDelete)
    {
      var parts := JavaSplit(message);
      if !(|parts| >= 5 && parts[0] == "FILE" && parts[1] == localNode.sharedSecret) {
        return true;
      }
      if |parts| < 7 {
        return false;
      }
      var fileHash := parts[6];
      var ipAddress := parts[4];
      var fileName := parts[2];
      var fileSize := parts[3];
      var port := ParseInt(parts[5]);
      if port.None? {
        return false;
      }
      var peer := Peer(ipAddress, port.value);
      var size := ParseLong(fileSize);
      if size.None? {
        return false;
      }
      var metadata := FileMetadata(fileName, size.value, ipAddress, port.value, fileHash);
      assert ParseFileAdvert(message, localNode.sharedSecret) == Advert(metadata);
      RecordAdvert(metadata, message);
      return true;
    }

    /** The catalog update of `handleFileBroadcast`, once the advertisement has parsed. */
    method RecordAdvert(metadata: FileMetadata, message: string)
      requires Valid()
      modifies this`fileHashMap, this`filePeersMap, this`events
      ensures Valid()
      ensures fileHashMap == old(fileHashMap)[metadata.fileHash := metadata]
      ensures filePeersMap == old(filePeersMap)[metadata.fileHash := PeersWithFile(old(filePeersMap), metadata.fileHash) + [Peer(metadata.ownerIP, metadata.ownerPort)]]
      ensures events == old(events) + (if onFileBroadcast && metadata.ownerIP != localNode.ipAddress then [FileBroadcast(message)] else [])
    {
      RecordAdvertKeepsCatalog(fileHashMap, filePeersMap, metadata);
      var fileHash := metadata.fileHash;
      fileHashMap := fileHashMap[fileHash := metadata];
      var list := if fileHash in filePeersMap then filePeersMap[fileHash] else [];
      filePeersMap := filePeersMap[fileHash := list + [Peer(metadata.ownerIP, metadata.ownerPort)]];
      if onFileBroadcast && metadata.ownerIP != localNode.ipAddress {
        events := events + [FileBroadcast(message)];
      }
    }

    /**
     * `handleDelete`: `DELETE:<hash>` with exactly two fields removes the
     * hash from both maps and is reported; no secret is asked for. Other
     * hashes are untouched.
     */
    method HandleDelete(message: string)
      requires Valid()
      modifies this
      ensures Valid()
      ensures match ParseDelete(message)
        case Some(h) =>
          && fileHashMap == old(fileHashMap) - {h} && filePeersMap == old(filePeersMap) - {h}
          && GetPeersWithFile(h) == []
          && events == old(events) + (if onDelete then [FileDeleted(h)] else [])
        case None =>
          fileHashMap == old(fileHashMap) && filePeersMap == old(filePeersMap) && events == old(events)
      ensures connectedNodes == old(connectedNodes) && recentlyDisconnectedNodes == old(recentlyDisconnectedNodes)
      ensures pendingExpiries == old(pendingExpiries) && sent == old(sent)
      ensures onNodeDiscovered == old(onNodeDiscovered) && onFileBroadcast == old(onFileBroadcast)
      ensures onDisconnect == old(onDisconnect) && onDelete == old(onDelete)
    {
      var parts := JavaSplit(message);
      if |parts| == 2 && parts[0] == "DELETE" {
        var fileHash := parts[1];
        ForgetFileKeepsCatalog(fileHashMap, filePeersMap, fileHash);
        filePeersMap := filePeersMap - {fileHash};
        fileHashMap := fileHashMap - {fileHash};
        if onDelete {
          events := events + [FileDeleted(fileHash)];
        }
      }
    }

    /**
     * `getPeersWithFile`: the advertisers of a hash, or none. Under the
     * invariant, a known hash has at least one, the last being the owner
     * its metadata names.
     */
    function GetPeersWithFile(fileHash: string): (r: seq<Peer>)
      reads this
      ensures fileHash !in filePeersMap ==> r == []
      ensures Valid() && fileHash in fileHashMap ==>
        r != [] && r[|r| - 1] == Peer(fileHashMap[fileHash].ownerIP, fileHashMap[fileHash].ownerPort)
      ensures Valid() && fileHash !in fileHashMap ==> r == []
    {
      PeersWithFile(filePeersMap, fileHash)
    }

    // ----- serving chunks -----

    /**
     * `handleChunkRequest`: a REQUEST_CHUNK for a file found among the
     * shared ones (`findFile` stands for the search of the shared folder)
     * is answered with the chunk's fragments, each to the requester's
     * address and port. An index that does not parse, and a search that
     * meets a file it cannot hash, throw out of the listener (`false`).
     */
    method HandleChunkRequest(message: string, address: string, port: int, findFile: string -> Lookup)
        returns (ok: bool)
      requires Valid()
      modifies this`sent
      ensures Valid()
      ensures match ParseChunkRequest(message)
        case Request(hash, chunkIndex) =>
          (ok <==> !findFile(hash).Unhashable?)
          && sent == old(sent) + (if findFile(hash).Found? then Addressed(address, port, ChunkFragments(findFile(hash).bytes, hash, chunkIndex)) else [])
        case NotRequest => ok && sent == old(sent)
        case RequestFault => !ok && sent == old(sent)
    {
      var parts := JavaSplit(message);
      if |parts| >= 3 && parts[0] == "REQUEST_CHUNK" {
        var fileHash := parts[1];
        var chunkIndex := ParseInt(parts[2]);
        if chunkIndex.None? {
          return false;
        }
        var file := findFile(fileHash);
        match file {
          case Unhashable =>
            return false;
          case NotFound =>
          case Found(bytes) =>
            var fragments := SendChunk(bytes, fileHash, chunkIndex.value);
            sent := sent + Addressed(address, port, fragments);
        }
      }
      return true;
    }

    // ----- what this node sends of its own accord -----

    /** One round of `sendDiscoveryPackets`: this node's DISCOVERY to the broadcast address. */
    method SendDiscoveryPacket()
      modifies this`sent
      ensures sent == old(sent) + [Text(BROADCAST_ADDRESS, BROADCAST_PORT, DiscoveryMessage(localNode.ipAddress, localNode.port, localNode.sharedSecret))]
    {
      var discoveryMessage := DiscoveryMessage(localNode.ipAddress, localNode.port, localNode.sharedSecret);
      sent := sent + [Text(BROADCAST_ADDRESS, BROADCAST_PORT, discoveryMessage)];
    }

    /**
     * The synchronized block of both broadcasts: nothing when no node is
     * connected (the iteration order of the empty set is empty), otherwise
     * `text` to each connected identity in the set's iteration order
     * `nodeOrder`: a malformed identity is skipped, an unparsable port
     * throws (`true`), any other destination gets `text`.
     */
    method SendToConnected(text: string, nodeOrder: seq<string>) returns (aborted: bool)
      modifies this`sent
      ensures sent == old(sent) + FanOut(Endpoints(nodeOrder), text).datagrams
      ensures aborted == FanOut(Endpoints(nodeOrder), text).aborted
    {
      if |nodeOrder| == 0 {
        return false;
      }
      ghost var eps := Endpoints(nodeOrder);
      aborted := false;
      var k := 0;
      while k < |nodeOrder|
        invariant 0 <= k <= |nodeOrder|
        invariant sent == old(sent) + FanOut(eps[..k], text).datagrams
        invariant !FanOut(eps[..k], text).aborted
      {
        var nodeInfo := nodeOrder[k];
        assert eps[k] == ParseEndpoint(nodeInfo);
        FanOutStep(eps, k, text);
        match ParseEndpoint(nodeInfo) {
          case Malformed =>
          case BadPort =>
            aborted := true;
            FanOutAbortedStays(eps, k + 1, text);
            return;
          case Address(ipAddress, port) =>
            AppendAssoc(old(sent), FanOut(eps[..k], text).datagrams, [Text(ipAddress, port, text)]);
            sent := sent + [Text(ipAddress, port, text)];
        }
        k := k + 1;
      }
      assert eps[..k] == eps;
    }

    /**
     * `broadcastFileList`: each shared file's FILE advertisement, built
     * from its name, length, hash and this node's address and port, to
     * every connected node.
     */
    method BroadcastFileList(fileList: seq<SharedFile>, nodeOrder: seq<string>)
      requires IsEnumeration(nodeOrder, connectedNodes)
      modifies this`sent
      ensures sent == old(sent) + FileListDatagrams(Adverts(fileList, localNode.ipAddress, localNode.port, localNode.sharedSecret), Endpoints(nodeOrder))
    {
      ghost var texts := Adverts(fileList, localNode.ipAddress, localNode.port, localNode.sharedSecret);
      ghost var eps := Endpoints(nodeOrder);
      var i := 0;
      while i < |fileList|
        invariant 0 <= i <= |fileList|
        invariant sent == old(sent) + FileListDatagrams(texts[..i], eps)
      {
        var file := fileList[i];
        var metadata := AdvertisedMetadata(file, localNode.ipAddress, localNode.port);
        var fileBroadcastMessage := FileMessage(localNode.sharedSecret, metadata);
        FileListStep(texts, i, eps);
        var aborted := SendToConnected(fileBroadcastMessage, nodeOrder);
        AppendAssoc(old(sent), FileListDatagrams(texts[..i], eps), FanOut(eps, texts[i]).datagrams);
        i := i + 1;
      }
      assert texts[..i] == texts;
    }

    /**
     * `broadcastDisconnect`: this node's DISCONNECT to the broadcast
     * address, then a DELETE of each known file's hash, visited in the
     * map's iteration order `fileOrder`, to every connected node. `false`
     * is an exception that escapes the method.
     */
    method BroadcastDisconnect(fileOrder: seq<string>, nodeOrder: seq<string>) returns (ok: bool)
      requires IsEnumeration(fileOrder, fileHashMap.Keys) && IsEnumeration(nodeOrder, connectedNodes)
      modifies this`sent
      ensures forall j :: 0 <= j < |fileOrder| ==> fileOrder[j] in fileHashMap
      ensures var r := Retractions(RetractedHashes(ValuesInOrder(fileOrder, fileHashMap)), Endpoints(nodeOrder));
        && sent == old(sent) + [Text(BROADCAST_ADDRESS, BROADCAST_PORT, DisconnectMessage(localNode.ipAddress, localNode.port, localNode.sharedSecret))] + r.datagrams
        && ok == !r.aborted
    {
      var disconnectMessage := DisconnectMessage(localNode.ipAddress, localNode.port, localNode.sharedSecret);
      sent := sent + [Text(BROADCAST_ADDRESS, BROADCAST_PORT, disconnectMessage)];
      assert forall j :: 0 <= j < |fileOrder| ==> fileOrder[j] in fileHashMap.Keys;
      var values := ValuesInOrder(fileOrder, fileHashMap);
      ok := SendRetractions(values, nodeOrder);
    }

    /** The loop of `broadcastDisconnect` over the known files' metadata, in iteration order. */
    method SendRetractions(values: seq<FileMetadata>, nodeOrder: seq<string>) returns (ok: bool)
      modifies this`sent
      ensures var r := Retractions(RetractedHashes(values), Endpoints(nodeOrder));
        sent == old(sent) + r.datagrams && ok == !r.aborted
    {
      ghost var hashes := RetractedHashes(values);
      ghost var eps := Endpoints(nodeOrder);
      ok := true;
      var i := 0;
      while i < |values| && ok
        invariant 0 <= i <= |values|
        invariant sent == old(sent) + Retractions(hashes[..i], eps).datagrams
        invariant ok == !Retractions(hashes[..i], eps).aborted
      {
        var metadata := values[i];
        assert hashes[i] == RetractedHash(metadata);
        RetractionsStep(hashes, i, eps);
        var aborted := Retract(metadata, nodeOrder);
        if hashes[i].Some? {
          AppendAssoc(old(sent), Retractions(hashes[..i], eps).datagrams, FanOut(eps, DeleteMessage(hashes[i].value)).datagrams);
        }
        ok := !aborted;
        i := i + 1;
      }
      if ok {
        assert hashes[..i] == hashes;
      } else {
        RetractionsAbortedStays(hashes, i, eps);
      }
    }

    /**
     * One file of `broadcastDisconnect`: the DELETE of the hash read back
     * from the metadata's text form, to every connected node; `true` when
     * an exception escapes, from the missing field 4 or from the fan-out.
     */
    method Retract(metadata: FileMetadata, nodeOrder: seq<string>) returns (aborted: bool)
      modifies this`sent
      ensures match RetractedHash(metadata)
        case None => aborted && sent == old(sent)
        case Some(h) =>
          && sent == old(sent) + FanOut(Endpoints(nodeOrder), DeleteMessage(h)).datagrams
          && aborted == FanOut(Endpoints(nodeOrder), DeleteMessage(h)).aborted
    {
      var fileHash := RetractedHash(metadata);
      if fileHash.None? {
        return true;
      }
      var deleteMessage := DeleteMessage(fileHash.value);
      aborted := SendToConnected(deleteMessage, nodeOrder);
    }

    // ----- the listener loops -----

    /** The fields the discovery-port listener changes, as a value. */
    ghost function MembershipOf(): Membership
      reads this
    {
      Membership(connectedNodes, recentlyDisconnectedNodes, pendingExpiries, sent, events)
    }

    /** Which of the four callbacks are installed. */
    ghost function Callbacks(): (bool, bool, bool, bool)
      reads this
    {
      (onNodeDiscovered, onFileBroadcast, onDisconnect, onDelete)
    }

    /** The fields the transfer-port listener changes, as a value. */
    ghost function CatalogOf(): Catalog
      reads this
    {
      Catalog(fileHashMap, filePeersMap, sent, events)
    }

    /**
     * One pass of the discovery-port listener's loop: the received text,
     * with the sender's address, goes to the handler its prefix selects.
     * `false` stands for the exception that ends the loop, and the
     * datagram then changes nothing.
     */
    method DispatchDiscoveryPort(received: string, senderIP: string) returns (ok: bool)
      requires Valid()
      modifies this
      ensures Valid()
      ensures ok <==> !DiscoveryThrows(received)
      ensures MembershipOf() == DiscoveryStep(old(MembershipOf()), received, senderIP, localNode.sharedSecret,
        DiscoveryResponseMessage(localNode.ipAddress, localNode.port, localNode.sharedSecret), onNodeDiscovered, onDisconnect)
      ensures !ok ==> MembershipOf() == old(MembershipOf())
      ensures fileHashMap == old(fileHashMap) && filePeersMap == old(filePeersMap) && Callbacks() == old(Callbacks())
    {
      ok := true;
      match RouteDiscoveryPort(received) {
        case ToDiscovery =>
          HandleDiscovery(received, senderIP);
        case ToDiscoveryResponse =>
          ok := HandleDiscoveryResponse(received, senderIP);
        case ToDisconnect =>
          HandleDisconnect(received);
        case ToNothing =>
      }
    }

    /**
     * One pass of the transfer-port listener's loop: FILE and DELETE go to
     * their handlers, everything else is taken as a chunk request.
     * `false` stands for the exception that ends the loop, and the
     * datagram then changes nothing.
     */
    method DispatchTransferPort(received: string, address: string, port: int, findFile: string -> Lookup)
        returns (ok: bool)
      requires Valid()
      modifies this
      ensures Valid()
      ensures ok <==> !TransferThrows(received, localNode.sharedSecret, findFile)
      ensures CatalogOf() == TransferStep(old(CatalogOf()), received, address, port, localNode.sharedSecret,
        localNode.ipAddress, findFile, onFileBroadcast, onDelete)
      ensures !ok ==> CatalogOf() == old(CatalogOf())
      ensures connectedNodes == old(connectedNodes) && recentlyDisconnectedNodes == old(recentlyDisconnectedNodes)
      ensures pendingExpiries == old(pendingExpiries) && Callbacks() == old(Callbacks())
    {
      ok := true;
      match RouteTransferPort(received) {
        case ToFileBroadcast =>
          ok := HandleFileBroadcast(received);
        case ToDelete =>
          HandleDelete(received);
        case ToChunkRequest =>
          ok := HandleChunkRequest(received, address, port, findFile);
      }
    }

    /**
     * The discovery-port listener's loop invariant: the object is valid,
     * the first `handled` datagrams were taken in from `start` without a
     * throw, and the catalog and callbacks are as they were.
     */
    ghost predicate DiscoveryListening(start: Membership, hashes: map<string, FileMetadata>, peers: map<string, seq<Peer>>,
                                       callbacks: (bool, bool, bool, bool), inbox: seq<(string, string)>, handled: nat)
      reads this, localNode
    {
      && Valid()
      && DiscoveryLogged(start, MembershipOf(), inbox, handled, localNode.sharedSecret,
          DiscoveryResponseMessage(localNode.ipAddress, localNode.port, localNode.sharedSecret), onNodeDiscovered, onDisconnect)
      && fileHashMap == hashes && filePeersMap == peers && Callbacks() == callbacks
    }

    /** One pass of the discovery-port listener's loop, with its bookkeeping. */
    method TakeDiscoveryDatagram(ghost start: Membership, ghost hashes: map<string, FileMetadata>, ghost peers: map<string, seq<Peer>>,
                                 ghost callbacks: (bool, bool, bool, bool), inbox: seq<(string, string)>, handled: nat)
        returns (ok: bool)
      requires handled < |inbox| && DiscoveryListening(start, hashes, peers, callbacks, inbox, handled)
      modifies this
      ensures ok ==> DiscoveryListening(start, hashes, peers, callbacks, inbox, handled + 1)
      ensures !ok ==> DiscoveryListening(start, hashes, peers, callbacks, inbox, handled)
      ensures !ok ==> DiscoveryThrows(inbox[handled].0)
    {
      ghost var before := MembershipOf();
      var (received, senderIP) := inbox[handled];
      ok := DispatchDiscoveryPort(received, senderIP);
      if ok {
        DiscoveryLoggedStep(start, before, MembershipOf(), inbox, handled, localNode.sharedSecret,
          DiscoveryResponseMessage(localNode.ipAddress, localNode.port, localNode.sharedSecret), onNodeDiscovered, onDisconnect);
      }
    }

    /**
     * The discovery-port listener: each received text, with the sender's
     * address, goes to the handler its prefix selects; the loop ends when
     * a handler throws, which only a too-short DISCOVERY_RESPONSE does.
     * `handled` is the number of datagrams taken in.
     */
    method ListenDiscoveryPort(inbox: seq<(string, string)>) returns (handled: nat)
      requires Valid()
      modifies this
      ensures Valid()
      ensures handled <= |inbox|
      ensures NoneThrowAtDiscovery(inbox, handled)
      ensures handled < |inbox| ==> DiscoveryThrows(inbox[handled].0)
      ensures MembershipOf() == Discovered(old(MembershipOf()), inbox, handled, localNode.sharedSecret,
        DiscoveryResponseMessage(localNode.ipAddress, localNode.port, localNode.sharedSecret), onNodeDiscovered, onDisconnect)
      ensures fileHashMap == old(fileHashMap) && filePeersMap == old(filePeersMap) && Callbacks() == old(Callbacks())
    {
      handled := 0;
      while handled < |inbox|
        invariant DiscoveryListening(old(MembershipOf()), old(fileHashMap), old(filePeersMap), old(Callbacks()), inbox, handled)
      {
        var ok := TakeDiscoveryDatagram(old(MembershipOf()), old(fileHashMap), old(filePeersMap), old(Callbacks()), inbox, handled);
        if !ok {
          return;
        }
        handled := handled + 1;
      }
    }

    /**
     * The transfer-port listener's loop invariant: the object is valid,
     * the first `handled` datagrams were taken in from `start` without a
     * throw, and membership and callbacks are as they were.
     */
    ghost predicate TransferListening(start: Catalog, members: Membership, callbacks: (bool, bool, bool, bool),
                                      inbox: seq<(string, string, int)>, handled: nat, findFile: string -> Lookup)
      reads this, localNode
    {
      && Valid()
      && TransferLogged(start, CatalogOf(), inbox, handled, localNode.sharedSecret, localNode.ipAddress,
          findFile, onFileBroadcast, onDelete)
      && connectedNodes == members.connected && recentlyDisconnectedNodes == members.suppressed
      && pendingExpiries == members.pending && Callbacks() == callbacks
    }

    /** One pass of the transfer-port listener's loop, with its bookkeeping. */
    method TakeTransferDatagram(ghost start: Catalog, ghost members: Membership, ghost callbacks: (bool, bool, bool, bool),
                                inbox: seq<(string, string, int)>, handled: nat, findFile: string -> Lookup)
        returns (ok: bool)
      requires handled < |inbox| && TransferListening(start, members, callbacks, inbox, handled, findFile)
      modifies this
      ensures ok ==> TransferListening(start, members, callbacks, inbox, handled + 1, findFile)
      ensures !ok ==> TransferListening(start, members, callbacks, inbox, handled, findFile)
      ensures !ok ==> TransferThrows(inbox[handled].0, localNode.sharedSecret, findFile)
    {
      ghost var before := CatalogOf();
      var (received, address, port) := inbox[handled];
      ok := DispatchTransferPort(received, address, port, findFile);
      if ok {
        TransferLoggedStep(start, before, CatalogOf(), inbox, handled, localNode.sharedSecret, localNode.ipAddress,
          findFile, onFileBroadcast, onDelete);
      }
    }

    /**
     * The transfer-port listener: FILE and DELETE go to their handlers,
     * everything else is taken as a chunk request; the loop ends when a
     * handler throws.
     */
    method ListenTransferPort(inbox: seq<(string, string, int)>, findFile: string -> Lookup) returns (handled: nat)
      requires Valid()
      modifies this
      ensures Valid()
      ensures handled <= |inbox|
      ensures NoneThrowAtTransfer(inbox, handled, localNode.sharedSecret, findFile)
      ensures handled < |inbox| ==> TransferThrows(inbox[handled].0, localNode.sharedSecret, findFile)
      ensures CatalogOf() == Transferred(old(CatalogOf()), inbox, handled, localNode.sharedSecret, localNode.ipAddress,
        findFile, onFileBroadcast, onDelete)
      ensures connectedNodes == old(connectedNodes) && recentlyDisconnectedNodes == old(recentlyDisconnectedNodes)
      ensures pendingExpiries == old(pendingExpiries) && Callbacks() == old(Callbacks())
    {
      handled := 0;
      while handled < |inbox|
        invariant TransferListening(old(CatalogOf()), old(MembershipOf()), old(Callbacks()), inbox, handled, findFile)
      {
        var ok := TakeTransferDatagram(old(CatalogOf()), old(MembershipOf()), old(Callbacks()), inbox, handled, findFile);
        if !ok {
          return;
        }
        handled := handled + 1;
      }
    }
  }

  // ----- the listeners' effects, as values -----

  /** What the discovery-port listener changes: membership, datagrams sent and callback calls. */
  datatype Membership = Membership(connected: set<string>, suppressed: set<string>, pending: seq<string>,
                                   sent: seq<Datagram>, events: seq<Event>)

  /** A datagram whose handler throws out of the discovery-port listener: a too-short DISCOVERY_RESPONSE. */
  predicate DiscoveryThrows(received: string) {
    RouteDiscoveryPort(received) == ToDiscoveryResponse && |JavaSplit(received)| < 3
  }

  /** None of the first `k` datagrams of `inbox` throws out of the discovery-port listener. */
  predicate NoneThrowAtDiscovery(inbox: seq<(string, string)>, k: nat)
    requires k <= |inbox|
  {
    forall j {:trigger DiscoveryThrows(inbox[j].0)} | 0 <= j < k :: !DiscoveryThrows(inbox[j].0)
  }

  /**
   * One datagram taken in at the discovery port. `reply` is this node's
   * DISCOVERY_RESPONSE, and the two flags say whether the discovery and
   * disconnect callbacks are installed. An accepted DISCOVERY admits its
   * sender and is answered; an accepted DISCOVERY_RESPONSE is answered and
   * reported but admits no one; a DISCONNECT with the local secret
   * suppresses its sender.
   */
  function DiscoveryStep(m: Membership, received: string, senderIP: string, secret: string, reply: string,
                         notifyDiscovered: bool, notifyDisconnect: bool): Membership
  {
    match RouteDiscoveryPort(received)
    case ToDiscovery =>
      var h := ClassifyHandshake(received, secret, m.suppressed);
      if h.Accepted? then
        m.(connected := m.connected + {h.id}, sent := m.sent + [Text(senderIP, BROADCAST_PORT, reply)],
           events := m.events + if notifyDiscovered then [NodeDiscovered(h.id)] else [])
      else m
    case ToDiscoveryResponse =>
      var h := ClassifyHandshake(received, secret, m.suppressed);
      if h.Accepted? then
        m.(sent := m.sent + [Text(senderIP, BROADCAST_PORT, reply)],
           events := m.events + if notifyDiscovered then [NodeDiscovered(h.id)] else [])
      else m
    case ToDisconnect =>
      (match DisconnectIdentity(received, secret)
       case Some(id) =>
         m.(connected := m.connected - {id}, suppressed := m.suppressed + {id}, pending := m.pending + [id],
            events := m.events + if notifyDisconnect then [NodeDisconnected(id)] else [])
       case None => m)
    case ToNothing => m
  }

  /**
   * Whatever one datagram at the discovery port says, no identity is ever
   * both connected and suppressed, every suppression has its expiry
   * pending, and datagrams sent and callback calls are only appended to.
   */
  lemma DiscoveryStepKeepsMembership(m: Membership, received: string, senderIP: string, secret: string, reply: string,
                                     notifyDiscovered: bool, notifyDisconnect: bool)
    requires MembershipValid(m.connected, m.suppressed, m.pending)
    ensures var r := DiscoveryStep(m, received, senderIP, secret, reply, notifyDiscovered, notifyDisconnect);
      MembershipValid(r.connected, r.suppressed, r.pending) && m.sent <= r.sent && m.events <= r.events
  {
    match RouteDiscoveryPort(received)
    case ToDiscovery =>
      var h := ClassifyHandshake(received, secret, m.suppressed);
      if h.Accepted? {
        AdmitKeepsMembership(m.connected, m.suppressed, m.pending, h.id);
      }
    case ToDiscoveryResponse =>
    case ToDisconnect =>
      if DisconnectIdentity(received, secret).Some? {
        SuppressKeepsMembership(m.connected, m.suppressed, m.pending, DisconnectIdentity(received, secret).value);
      }
    case ToNothing =>
  }

  /** The first `k` datagrams of `inbox` taken in one after another, from `m`. */
  function Discovered(m: Membership, inbox: seq<(string, string)>, k: nat, secret: string, reply: string,
                      notifyDiscovered: bool, notifyDisconnect: bool): Membership
    requires k <= |inbox|
  {
    if k == 0 then m
    else
      DiscoveryStep(Discovered(m, inbox, k - 1, secret, reply, notifyDiscovered, notifyDisconnect),
                    inbox[k - 1].0, inbox[k - 1].1, secret, reply, notifyDiscovered, notifyDisconnect)
  }

  /**
   * Whatever the discovery port receives, no identity is ever both
   * connected and suppressed, and every suppression has its expiry
   * pending.
   */
  lemma {:induction false} DiscoveredKeepsMembership(m: Membership, inbox: seq<(string, string)>, k: nat, secret: string, reply: string,
                                                     notifyDiscovered: bool, notifyDisconnect: bool)
    requires k <= |inbox| && MembershipValid(m.connected, m.suppressed, m.pending)
    ensures var r := Discovered(m, inbox, k, secret, reply, notifyDiscovered, notifyDisconnect);
      MembershipValid(r.connected, r.suppressed, r.pending) && m.sent <= r.sent && m.events <= r.events
  {
    if k > 0 {
      DiscoveredKeepsMembership(m, inbox, k - 1, secret, reply, notifyDiscovered, notifyDisconnect);
      DiscoveryStepKeepsMembership(Discovered(m, inbox, k - 1, secret, reply, notifyDiscovered, notifyDisconnect),
                                   inbox[k - 1].0, inbox[k - 1].1, secret, reply, notifyDiscovered, notifyDisconnect);
    }
  }

  /**
   * The discovery-port listener's bookkeeping from `start` to `now`: the
   * first `k` datagrams of `inbox` were taken in, none of them threw, and
   * their effects are those of `Discovered`.
   */
  ghost predicate DiscoveryLogged(start: Membership, now: Membership, inbox: seq<(string, string)>, k: nat, secret: string,
                                  reply: string, notifyDiscovered: bool, notifyDisconnect: bool)
  {
    && k <= |inbox|
    && NoneThrowAtDiscovery(inbox, k)
    && now == Discovered(start, inbox, k, secret, reply, notifyDiscovered, notifyDisconnect)
  }

  lemma DiscoveryLoggedStep(start: Membership, before: Membership, after: Membership, inbox: seq<(string, string)>, k: nat,
                            secret: string, reply: string, notifyDiscovered: bool, notifyDisconnect: bool)
    requires DiscoveryLogged(start, before, inbox, k, secret, reply, notifyDiscovered, notifyDisconnect) && k < |inbox|
    requires !DiscoveryThrows(inbox[k].0)
    requires after == DiscoveryStep(before, inbox[k].0, inbox[k].1, secret, reply, notifyDiscovered, notifyDisconnect)
    ensures DiscoveryLogged(start, after, inbox, k + 1, secret, reply, notifyDiscovered, notifyDisconnect)
  {
  }

  /** What the transfer-port listener changes: the catalog, datagrams sent and callback calls. */
  datatype Catalog = Catalog(hashes: map<string, FileMetadata>, peers: map<string, seq<Peer>>,
                             sent: seq<Datagram>, events: seq<Event>)

  /** A datagram whose handler throws out of the transfer-port listener. */
  predicate TransferThrows(received: string, secret: string, findFile: string -> Lookup) {
    match RouteTransferPort(received)
    case ToFileBroadcast => ParseFileAdvert(received, secret).AdvertFault?
    case ToDelete => false
    case ToChunkRequest =>
      match ParseChunkRequest(received)
      case Request(hash, _) => findFile(hash).Unhashable?
      case NotRequest => false
      case RequestFault => true
  }

  /**
   * A downloader's chunk request, as the serving node takes it in: it
   * throws exactly when the search of the shared folder meets a file it
   * cannot hash, and then changes nothing; a file found is answered with
   * the chunk's fragments, to the requester.
   */
  lemma ServedRequestThrowsOnlyWhenUnhashable(c: Catalog, hash: string, chunkIndex: int, address: string, port: int,
                                              secret: string, localIP: string, findFile: string -> Lookup,
                                              notifyBroadcast: bool, notifyDelete: bool)
    requires NoColon(hash) && IsInt32(chunkIndex)
    ensures TransferThrows(RequestChunkMessage(hash, chunkIndex), secret, findFile) <==> findFile(hash).Unhashable?
    ensures var r := TransferStep(c, RequestChunkMessage(hash, chunkIndex), address, port, secret, localIP, findFile,
                                  notifyBroadcast, notifyDelete);
      && (!findFile(hash).Found? ==> r == c)
      && (findFile(hash).Found? ==>
            r == c.(sent := c.sent + Addressed(address, port, ChunkFragments(findFile(hash).bytes, hash, chunkIndex))))
  {
    RouteOfRequestMessage(hash, chunkIndex);
    ChunkRequestRoundTrip(hash, chunkIndex);
  }

  /** None of the first `k` datagrams of `inbox` throws out of the transfer-port listener. */
  predicate NoneThrowAtTransfer(inbox: seq<(string, string, int)>, k: nat, secret: string, findFile: string -> Lookup)
    requires k <= |inbox|
  {
    forall j {:trigger TransferThrows(inbox[j].0, secret, findFile)} | 0 <= j < k :: !TransferThrows(inbox[j].0, secret, findFile)
  }

  /**
   * One datagram taken in at the transfer port from `address:port`.
   * `localIP` is this node's address, `findFile` the shared folder's
   * contents by hash, and the flags say whether the advert and delete
   * callbacks are installed. An advert is recorded, a DELETE forgets its
   * hash, and a chunk request is answered with the chunk's fragments.
   */
  function TransferStep(c: Catalog, received: string, address: string, port: int, secret: string, localIP: string,
                        findFile: string -> Lookup, notifyBroadcast: bool, notifyDelete: bool): Catalog
  {
    match RouteTransferPort(received)
    case ToFileBroadcast =>
      (match ParseFileAdvert(received, secret)
       case Advert(m) =>
         c.(hashes := c.hashes[m.fileHash := m],
            peers := c.peers[m.fileHash := PeersWithFile(c.peers, m.fileHash) + [Peer(m.ownerIP, m.ownerPort)]],
            events := c.events + if notifyBroadcast && m.ownerIP != localIP then [FileBroadcast(received)] else [])
       case _ => c)
    case ToDelete =>
      (match ParseDelete(received)
       case Some(h) =>
         c.(hashes := c.hashes - {h}, peers := c.peers - {h},
            events := c.events + if notifyDelete then [FileDeleted(h)] else [])
       case None => c)
    case ToChunkRequest =>
      (match ParseChunkRequest(received)
       case Request(hash, chunkIndex) =>
         (match findFile(hash)
          case Found(bytes) => c.(sent := c.sent + Addressed(address, port, ChunkFragments(bytes, hash, chunkIndex)))
          case _ => c)
       case _ => c)
  }

  /**
   * Whatever one datagram at the transfer port says, the two catalog maps
   * keep the same keys, every entry stays filed under its own hash with
   * its owner last among its peers, and datagrams sent and callback calls
   * are only appended to.
   */
  lemma TransferStepKeepsCatalog(c: Catalog, received: string, address: string, port: int, secret: string, localIP: string,
                                 findFile: string -> Lookup, notifyBroadcast: bool, notifyDelete: bool)
    requires CatalogValid(c.hashes, c.peers)
    ensures var r := TransferStep(c, received, address, port, secret, localIP, findFile, notifyBroadcast, notifyDelete);
      CatalogValid(r.hashes, r.peers) && c.sent <= r.sent && c.events <= r.events
  {
    match RouteTransferPort(received)
    case ToFileBroadcast =>
      if ParseFileAdvert(received, secret).Advert? {
        RecordAdvertKeepsCatalog(c.hashes, c.peers, ParseFileAdvert(received, secret).metadata);
      }
    case ToDelete =>
      if ParseDelete(received).Some? {
        ForgetFileKeepsCatalog(c.hashes, c.peers, ParseDelete(received).value);
      }
    case ToChunkRequest =>
  }

  /** The first `k` datagrams of `inbox` taken in one after another, from `c`. */
  function Transferred(c: Catalog, inbox: seq<(string, string, int)>, k: nat, secret: string, localIP: string,
                       findFile: string -> Lookup, notifyBroadcast: bool, notifyDelete: bool): Catalog
    requires k <= |inbox|
  {
    if k == 0 then c
    else
      TransferStep(Transferred(c, inbox, k - 1, secret, localIP, findFile, notifyBroadcast, notifyDelete),
                   inbox[k - 1].0, inbox[k - 1].1, inbox[k - 1].2, secret, localIP, findFile, notifyBroadcast, notifyDelete)
  }

  /**
   * The transfer-port listener's bookkeeping from `start` to `now`: the
   * first `k` datagrams of `inbox` were taken in, none of them threw, and
   * their effects are those of `Transferred`.
   */
  ghost predicate TransferLogged(start: Catalog, now: Catalog, inbox: seq<(string, string, int)>, k: nat, secret: string,
                                 localIP: string, findFile: string -> Lookup, notifyBroadcast: bool, notifyDelete: bool)
  {
    && k <= |inbox|
    && NoneThrowAtTransfer(inbox, k, secret, findFile)
    && now == Transferred(start, inbox, k, secret, localIP, findFile, notifyBroadcast, notifyDelete)
  }

  lemma TransferLoggedStep(start: Catalog, before: Catalog, after: Catalog, inbox: seq<(string, string, int)>, k: nat,
                           secret: string, localIP: string, findFile: string -> Lookup, notifyBroadcast: bool, notifyDelete: bool)
    requires TransferLogged(start, before, inbox, k, secret, localIP, findFile, notifyBroadcast, notifyDelete) && k < |inbox|
    requires !TransferThrows(inbox[k].0, secret, findFile)
    requires after == TransferStep(before, inbox[k].0, inbox[k].1, inbox[k].2, secret, localIP, findFile, notifyBroadcast, notifyDelete)
    ensures TransferLogged(start, after, inbox, k + 1, secret, localIP, findFile, notifyBroadcast, notifyDelete)
  {
  }

  /** The peer list of a hash, empty when the hash is unknown. */
  function PeersWithFile(filePeersMap: map<string, seq<Peer>>, fileHash: string): (r: seq<Peer>)
    ensures fileHash in filePeersMap ==> r == filePeersMap[fileHash]
    ensures fileHash !in filePeersMap ==> r == []
  {
    if fileHash in filePeersMap then filePeersMap[fileHash] else []
  }

  /** Each fragment addressed to the requester. */
  function Addressed(host: string, port: int, fragments: seq<seq<byte>>): (ds: seq<Datagram>)
    ensures |ds| == |fragments|
    ensures forall k :: 0 <= k < |ds| ==> ds[k] == Binary(host, port, fragments[k])
  {
    seq(|fragments|, k requires 0 <= k < |fragments| => Binary(host, port, fragments[k]))
  }

  /**
   * What `sendChunk` sends for a request: nothing for a negative index
   * (the seek throws), for an index past the end, or when the hash does
   * not fit the header; otherwise the chunk's fragment packets.
   */
  function ChunkFragments(file: seq<byte>, fileHash: string, chunkIndex: int): (fs: seq<seq<byte>>)
    requires IsInt32(chunkIndex)
    ensures chunkIndex >= 0 && 0 < |ServedBytes(file, chunkIndex)| && Fits(fileHash, |ServedBytes(file, chunkIndex)|) ==>
      |fs| == CeilDiv(|ServedBytes(file, chunkIndex)|, MAX_DATA)
  {
    if chunkIndex < 0 then []
    else
      var data := ServedBytes(file, chunkIndex);
      if |data| == 0 || !Fits(fileHash, |data|) then [] else Packets(WriteUtf(fileHash).value, chunkIndex, data)
  }

  /** Once a fan-out is cut short, later identities add nothing. */
  lemma {:induction false} FanOutAbortedStays(eps: seq<Endpoint>, k: nat, text: string)
    requires k <= |eps| && FanOut(eps[..k], text).aborted
    ensures FanOut(eps, text) == FanOut(eps[..k], text)
    decreases |eps| - k
  {
    if k < |eps| {
      assert eps[..k + 1][..k] == eps[..k];
      FanOutAbortedStays(eps, k + 1, text);
    } else {
      assert eps[..k] == eps;
    }
  }

  /** Once the retraction is cut short, later files add nothing. */
  lemma {:induction false} RetractionsAbortedStays(hashes: seq<Option<string>>, k: nat, eps: seq<Endpoint>)
    requires k <= |hashes| && Retractions(hashes[..k], eps).aborted
    ensures Retractions(hashes, eps) == Retractions(hashes[..k], eps)
    decreases |hashes| - k
  {
    if k < |hashes| {
      assert hashes[..k + 1][..k] == hashes[..k];
      RetractionsAbortedStays(hashes, k + 1, eps);
    } else {
      assert hashes[..k] == hashes;
    }
  }


}
