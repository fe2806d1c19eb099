/**
 * The colon-joined control messages: how the node builds them, which
 * handler a received datagram is routed to by its prefix, and how each
 * handler takes its message apart with `split(":")` before acting. The
 * handlers' decisions are functions here so that the state machine in
 * `Discovery` and the lemmas below share one definition of each.
 */
module Protocol {
  import opened Wrappers
  import opened Bytes
  import opened JavaText
  import opened Peers
  import opened Metadata

  /** Well-known port of the discovery socket. */
  const BROADCAST_PORT: int := 5000
  const BROADCAST_ADDRESS: string := "255.255.255.255"

  // ----- message builders -----

  /** Presence announcement, broadcast every 5 seconds. */
  function DiscoveryMessage(ip: string, port: int, secret: string): string {
    "DISCOVERY:" + ip + ":" + IntToString(port) + ":" + secret
  }

  /** The reply to a discovery (and, in the source, to a reply). */
  function DiscoveryResponseMessage(ip: string, port: int, secret: string): string {
    "DISCOVERY_RESPONSE:" + ip + ":" + IntToString(port) + ":" + secret
  }

  /** Departure announcement, broadcast once on disconnect. */
  function DisconnectMessage(ip: string, port: int, secret: string): string {
    "DISCONNECT:" + ip + ":" + IntToString(port) + ":" + secret
  }

  /** File advertisement sent to each connected peer. */
  function FileMessage(secret: string, m: FileMetadata): string {
    "FILE:" + secret + ":" + m.ToString()
  }

  /** Retraction of an advertised file. */
  function DeleteMessage(hash: string): string {
    "DELETE:" + hash
  }

  /** The downloader's request for one chunk. */
  function RequestChunkMessage(hash: string, chunkIndex: int): string {
    "REQUEST_CHUNK:" + hash + ":" + IntToString(chunkIndex)
  }

  // ----- routing by prefix -----

  datatype DiscoveryRoute = ToDiscovery | ToDiscoveryResponse | ToDisconnect | ToNothing

  /** The discovery-port listener: the first matching prefix wins, anything else is ignored. */
  function RouteDiscoveryPort(message: string): DiscoveryRoute {
    if StartsWith(message, "DISCOVERY:") then ToDiscovery
    else if StartsWith(message, "DISCOVERY_RESPONSE:") then ToDiscoveryResponse
    else if StartsWith(message, "DISCONNECT:") then ToDisconnect
    else ToNothing
  }

  datatype TransferRoute = ToFileBroadcast | ToDelete | ToChunkRequest

  /** The transfer-port listener: everything that is not a FILE or DELETE is taken as a chunk request. */
  function RouteTransferPort(message: string): TransferRoute {
    if StartsWith(message, "FILE:") then ToFileBroadcast
    else if StartsWith(message, "DELETE:") then ToDelete
    else ToChunkRequest
  }

  lemma {:induction false} StartsWithJoined(prefix: string, rest: string)
    ensures StartsWith(prefix + rest, prefix)
  {
    assert (prefix + rest)[..|prefix|] == prefix;
  }

  lemma NotStartsWithAt(s: string, prefix: string, k: nat)
    requires k < |prefix| && k < |s| && s[k] != prefix[k]
    ensures !StartsWith(s, prefix)
  {
    if |prefix| <= |s| { assert s[..|prefix|][k] == s[k]; }
  }

  lemma RouteOfDiscoveryPrefix(tail: string)
    ensures RouteDiscoveryPort("DISCOVERY:" + tail) == ToDiscovery
  {
    StartsWithJoined("DISCOVERY:", tail);
  }

  lemma RouteOfResponsePrefix(tail: string)
    ensures RouteDiscoveryPort("DISCOVERY_RESPONSE:" + tail) == ToDiscoveryResponse
  {
    var r := "DISCOVERY_RESPONSE:" + tail;
    assert r[9] == '_';
    StartsWithJoined("DISCOVERY_RESPONSE:", tail);
    NotStartsWithAt(r, "DISCOVERY:", 9);
  }

  lemma RouteOfDisconnectPrefix(tail: string)
    ensures RouteDiscoveryPort("DISCONNECT:" + tail) == ToDisconnect
  {
    var x := "DISCONNECT:" + tail;
    assert x[5] == 'N';
    StartsWithJoined("DISCONNECT:", tail);
    NotStartsWithAt(x, "DISCOVERY:", 5);
    NotStartsWithAt(x, "DISCOVERY_RESPONSE:", 5);
  }

  lemma RouteOfDiscoveryMessage(ip: string, port: int, secret: string)
    ensures RouteDiscoveryPort(DiscoveryMessage(ip, port, secret)) == ToDiscovery
  {
    var tail := ip + ":" + IntToString(port) + ":" + secret;
    assert DiscoveryMessage(ip, port, secret) == "DISCOVERY:" + tail;
    RouteOfDiscoveryPrefix(tail);
  }

  lemma RouteOfResponseMessage(ip: string, port: int, secret: string)
    ensures RouteDiscoveryPort(DiscoveryResponseMessage(ip, port, secret)) == ToDiscoveryResponse
  {
    var tail := ip + ":" + IntToString(port) + ":" + secret;
    assert DiscoveryResponseMessage(ip, port, secret) == "DISCOVERY_RESPONSE:" + tail;
    RouteOfResponsePrefix(tail);
  }

  lemma RouteOfDisconnectMessage(ip: string, port: int, secret: string)
    ensures RouteDiscoveryPort(DisconnectMessage(ip, port, secret)) == ToDisconnect
  {
    var tail := ip + ":" + IntToString(port) + ":" + secret;
    assert DisconnectMessage(ip, port, secret) == "DISCONNECT:" + tail;
    RouteOfDisconnectPrefix(tail);
  }

  /** Every discovery-port message the node builds reaches the handler meant for it. */
  lemma DiscoveryPortRoutes(ip: string, port: int, secret: string)
    ensures RouteDiscoveryPort(DiscoveryMessage(ip, port, secret)) == ToDiscovery
    ensures RouteDiscoveryPort(DiscoveryResponseMessage(ip, port, secret)) == ToDiscoveryResponse
    ensures RouteDiscoveryPort(DisconnectMessage(ip, port, secret)) == ToDisconnect
  {
    RouteOfDiscoveryMessage(ip, port, secret);
    RouteOfResponseMessage(ip, port, secret);
    RouteOfDisconnectMessage(ip, port, secret);
  }

  lemma RouteOfFileMessage(secret: string, m: FileMetadata)
    ensures RouteTransferPort(FileMessage(secret, m)) == ToFileBroadcast
  {
    var tail := secret + ":" + m.ToString();
    assert FileMessage(secret, m) == "FILE:" + tail;
    StartsWithJoined("FILE:", tail);
  }

  lemma RouteOfDeleteMessage(hash: string)
    ensures RouteTransferPort(DeleteMessage(hash)) == ToDelete
  {
    var x := DeleteMessage(hash);
    assert x[0] == 'D';
    StartsWithJoined("DELETE:", hash);
    NotStartsWithAt(x, "FILE:", 0);
  }

  lemma RouteOfRequestMessage(hash: string, chunkIndex: int)
    ensures RouteTransferPort(RequestChunkMessage(hash, chunkIndex)) == ToChunkRequest
  {
    var x := RequestChunkMessage(hash, chunkIndex);
    assert x[0] == 'R';
    NotStartsWithAt(x, "FILE:", 0);
    NotStartsWithAt(x, "DELETE:", 0);
  }

  /** Every transfer-port message the node builds reaches the handler meant for it. */
  lemma TransferPortRoutes(secret: string, m: FileMetadata, hash: string, chunkIndex: int)
    ensures RouteTransferPort(FileMessage(secret, m)) == ToFileBroadcast
    ensures RouteTransferPort(DeleteMessage(hash)) == ToDelete
    ensures RouteTransferPort(RequestChunkMessage(hash, chunkIndex)) == ToChunkRequest
  {
    RouteOfFileMessage(secret, m);
    RouteOfDeleteMessage(hash);
    RouteOfRequestMessage(hash, chunkIndex);
  }

  // ----- DISCOVERY and DISCOVERY_RESPONSE -----

  /** What a handshake handler makes of its message, in the order the source checks. */
  datatype Handshake =
    | TooShort              // fewer than three fields: indexing `parts[2]` throws
    | Suppressed(id: string) // the sender disconnected within the last two seconds
    | Refused(id: string)    // field count other than 4, or a different secret
    | Accepted(id: string)

  /** `parts[1] + ":" + parts[2]`, the `ip:port` identity of the sender. */
  function NodeInfo(parts: seq<string>): string
    requires |parts| >= 3
  {
    parts[1] + ":" + parts[2]
  }

  /**
   * The checks of `handleDiscovery` and `handleDiscoveryResponse`: split,
   * build the identity, drop it if suppressed, and accept only four fields
   * whose last equals the local secret. The first field is never looked at.
   */
  function ClassifyHandshake(message: string, secret: string, suppressed: set<string>): (h: Handshake)
    ensures h.Accepted? ==> NoColon(secret)
  {
    var parts := JavaSplit(message);
    if |parts| < 3 then TooShort
    else
      var id := NodeInfo(parts);
      if id in suppressed then Suppressed(id)
      else if |parts| == 4 && parts[3] == secret then Accepted(id)
      else Refused(id)
  }

  /** The expected outcome for a well-formed handshake from `ip:port` carrying `theirs`. */
  function HandshakeVerdict(ip: string, port: int, theirs: string, ours: string, suppressed: set<string>): Handshake {
    var id := Peer(ip, port).ToString();
    if id in suppressed then Suppressed(id) else if theirs == ours then Accepted(id) else Refused(id)
  }

  /** A four-field announcement `head:ip:port:secret` splits back into its fields. */
  lemma AnnouncementFields(head: string, ip: string, port: int, secret: string)
    requires NoColon(head) && NoColon(ip) && NoColon(secret) && secret != ""
    ensures JavaSplit(head + ":" + ip + ":" + IntToString(port) + ":" + secret) == [head, ip, IntToString(port), secret]
  {
    var d := [head, ip, IntToString(port), secret];
    assert Join(d[3..]) == secret by { assert d[3..] == [secret]; }
    assert Join(d[2..]) == IntToString(port) + ":" + secret by { assert d[2..][1..] == d[3..]; }
    assert Join(d[1..]) == ip + ":" + IntToString(port) + ":" + secret by { assert d[1..][1..] == d[2..]; }
    assert Join(d) == head + ":" + ip + ":" + IntToString(port) + ":" + secret;
    JavaSplitJoin(d);
  }

  /**
   * A peer's own announcement is taken apart into its identity and secret:
   * it is accepted exactly when the secrets match and the peer is not
   * suppressed, for a DISCOVERY as for a DISCOVERY_RESPONSE.
   */
  lemma HandshakeRoundTrip(ip: string, port: int, theirs: string, ours: string, suppressed: set<string>)
    requires NoColon(ip) && NoColon(theirs) && theirs != ""
    ensures ClassifyHandshake(DiscoveryMessage(ip, port, theirs), ours, suppressed)
         == HandshakeVerdict(ip, port, theirs, ours, suppressed)
    ensures ClassifyHandshake(DiscoveryResponseMessage(ip, port, theirs), ours, suppressed)
         == HandshakeVerdict(ip, port, theirs, ours, suppressed)
  {
    AnnouncementHeads(ip, port, theirs);
    AnnouncementClassified("DISCOVERY", ip, port, theirs, ours, suppressed);
    AnnouncementClassified("DISCOVERY_RESPONSE", ip, port, theirs, ours, suppressed);
  }

  /** The three announcements are their head and three fields joined by colons. */
  lemma AnnouncementHeads(ip: string, port: int, secret: string)
    ensures DiscoveryMessage(ip, port, secret) == "DISCOVERY" + ":" + ip + ":" + IntToString(port) + ":" + secret
    ensures DiscoveryResponseMessage(ip, port, secret) == "DISCOVERY_RESPONSE" + ":" + ip + ":" + IntToString(port) + ":" + secret
    ensures DisconnectMessage(ip, port, secret) == "DISCONNECT" + ":" + ip + ":" + IntToString(port) + ":" + secret
  {
  }

  /** Whatever its head, a four-field announcement is classified by its identity and secret alone. */
  lemma AnnouncementClassified(head: string, ip: string, port: int, theirs: string, ours: string, suppressed: set<string>)
    requires NoColon(head) && NoColon(ip) && NoColon(theirs) && theirs != ""
    ensures ClassifyHandshake(head + ":" + ip + ":" + IntToString(port) + ":" + theirs, ours, suppressed)
         == HandshakeVerdict(ip, port, theirs, ours, suppressed)
  {
    AnnouncementFields(head, ip, port, theirs);
  }

  /**
   * A local secret containing a colon can never be matched: `split(":")`
   * never yields a field with a colon in it, so no handshake is accepted.
   */
  lemma ColonSecretNeverAccepted(message: string, secret: string, suppressed: set<string>)
    requires !NoColon(secret)
    ensures !ClassifyHandshake(message, secret, suppressed).Accepted?
  {
  }

  // ----- DISCONNECT -----

  /** `handleDisconnect`: the identity to suppress, when there are four fields and the secret matches. */
  function DisconnectIdentity(message: string, secret: string): (r: Option<string>)
    ensures r.Some? ==> NoColon(secret)
  {
    var parts := JavaSplit(message);
    if |parts| == 4 && parts[3] == secret then Some(NodeInfo(parts)) else None
  }

  lemma DisconnectRoundTrip(ip: string, port: int, theirs: string, ours: string)
    requires NoColon(ip) && NoColon(theirs) && theirs != ""
    ensures DisconnectIdentity(DisconnectMessage(ip, port, theirs), ours)
         == if theirs == ours then Some(Peer(ip, port).ToString()) else None
  {
    AnnouncementFields("DISCONNECT", ip, port, theirs);
    AnnouncementHeads(ip, port, theirs);
  }

  // ----- FILE -----

  datatype FileAdvert =
    | NotAdvert              // not five fields headed FILE with the right secret: ignored
    | AdvertFault            // an index or number-format exception escapes the handler
    | Advert(metadata: FileMetadata)

  /**
   * `handleFileBroadcast`'s parse: at least five fields headed `FILE` with
   * the local secret pass the guard, but the hash is read from field 6, so
   * fewer than seven fields throw; so do a port or size that do not parse.
   */
  function ParseFileAdvert(message: string, secret: string): (r: FileAdvert)
    ensures r.Advert? ==> NoColon(r.metadata.fileName) && NoColon(r.metadata.ownerIP) && NoColon(r.metadata.fileHash)
    ensures r.Advert? ==> IsInt64(r.metadata.fileSize) && IsInt32(r.metadata.ownerPort)
    ensures r.Advert? ==> NoColon(secret)
  {
    var parts := JavaSplit(message);
    if !(|parts| >= 5 && parts[0] == "FILE" && parts[1] == secret) then NotAdvert
    else if |parts| < 7 then AdvertFault
    else
      match (ParseInt(parts[5]), ParseLong(parts[3]))
      case (Some(port), Some(size)) => Advert(FileMetadata(parts[2], size, parts[4], port, parts[6]))
      case _ => AdvertFault
  }

  /** The guard admits five and six fields, which then fail on the read of field 6. */
  lemma ShortAdvertFaults(message: string, secret: string)
    requires var parts := JavaSplit(message);
      5 <= |parts| <= 6 && parts[0] == "FILE" && parts[1] == secret
    ensures ParseFileAdvert(message, secret) == AdvertFault
  {
  }

  /** Split, an advertisement gives its head, the secret and the five metadata fields. */
  lemma FileMessageSplits(theirs: string, m: FileMetadata)
    requires m.Splittable() && NoColon(theirs)
    ensures JavaSplit(FileMessage(theirs, m)) == ["FILE", theirs] + m.Fields()
  {
    var parts := ["FILE", theirs] + m.Fields();
    ToStringIsJoin(m);
    assert parts[1..][1..] == m.Fields();
    assert Join(parts[1..]) == theirs + ":" + m.ToString();
    assert Join(parts) == FileMessage(theirs, m);
    JavaSplitJoin(parts);
  }

  /** An advertisement built from splittable metadata parses back to that metadata. */
  lemma FileAdvertRoundTrip(theirs: string, ours: string, m: FileMetadata)
    requires m.Splittable() && NoColon(theirs)
    requires IsInt64(m.fileSize) && IsInt32(m.ownerPort)
    ensures ParseFileAdvert(FileMessage(theirs, m), ours) == if theirs == ours then Advert(m) else NotAdvert
  {
    var parts := JavaSplit(FileMessage(theirs, m));
    FileMessageSplits(theirs, m);
    assert parts[3] == IntToString(m.fileSize) && parts[5] == IntToString(m.ownerPort);
    ParseIntOfIntToString(m.ownerPort);
    ParseLongOfIntToString(m.fileSize);
  }

  // ----- DELETE -----

  /** `handleDelete`: exactly two fields headed `DELETE`; no secret is checked. */
  function ParseDelete(message: string): (r: Option<string>)
    ensures r.Some? ==> NoColon(r.value)
  {
    var parts := JavaSplit(message);
    if |parts| == 2 && parts[0] == "DELETE" then Some(parts[1]) else None
  }

  lemma DeleteRoundTrip(hash: string)
    requires NoColon(hash) && hash != ""
    ensures ParseDelete(DeleteMessage(hash)) == Some(hash)
  {
    assert Join(["DELETE", hash]) == DeleteMessage(hash);
    JavaSplitJoin(["DELETE", hash]);
  }

  /**
   * `metadata.toString().split(":")[4]`, the hash `broadcastDisconnect`
   * retracts; `None` when there is no fifth field and the index throws.
   */
  function RetractedHash(m: FileMetadata): (r: Option<string>)
    ensures m.Splittable() ==> r == Some(m.fileHash)
  {
    var parts := JavaSplit(m.ToString());
    if |parts| > 4 then Some(parts[4]) else None
  }

  // ----- REQUEST_CHUNK -----

  datatype ChunkRequest =
    | NotRequest                 // fewer than three fields or not headed REQUEST_CHUNK: ignored
    | RequestFault               // the index does not parse: NumberFormatException escapes
    | Request(hash: string, chunkIndex: int)

  /** `handleChunkRequest`'s parse: three or more fields headed `REQUEST_CHUNK`, an `int` index. */
  function ParseChunkRequest(message: string): (r: ChunkRequest)
    ensures r.Request? ==> IsInt32(r.chunkIndex) && NoColon(r.hash)
  {
    var parts := JavaSplit(message);
    if |parts| >= 3 && parts[0] == "REQUEST_CHUNK" then
      match ParseInt(parts[2])
      case Some(i) => Request(parts[1], i)
      case None => RequestFault
    else NotRequest
  }

  /** The downloader's request is understood by the serving node as the same hash and chunk. */
  lemma ChunkRequestRoundTrip(hash: string, chunkIndex: int)
    requires NoColon(hash) && IsInt32(chunkIndex)
    ensures ParseChunkRequest(RequestChunkMessage(hash, chunkIndex)) == Request(hash, chunkIndex)
  {
    var parts := ["REQUEST_CHUNK", hash, IntToString(chunkIndex)];
    assert Join(parts[1..]) == hash + ":" + IntToString(chunkIndex) by {
      assert parts[1..][1..] == [IntToString(chunkIndex)];
    }
    assert Join(parts) == RequestChunkMessage(hash, chunkIndex);
    JavaSplitJoin(parts);
    ParseIntOfIntToString(chunkIndex);
  }

  // ----- node identities as send destinations -----

  datatype Endpoint =
    | Malformed                  // not exactly two fields: reported and skipped
    | BadPort                    // the port does not parse (NumberFormatException) or is
                                 // outside 0..65535 (the datagram constructor throws
                                 // IllegalArgumentException); neither is an IOException
    | Address(host: string, port: int)

  /** The port range a datagram destination accepts. */
  predicate IsPort(port: int) { 0 <= port <= 65535 }

  /** How the broadcast loops turn a connected-node identity back into a destination. */
  function ParseEndpoint(nodeInfo: string): (e: Endpoint)
    ensures e.Address? ==> IsPort(e.port)
    ensures e.Malformed? <==> |JavaSplit(nodeInfo)| != 2
    ensures e.BadPort? <==>
      |JavaSplit(nodeInfo)| == 2 && (ParseInt(JavaSplit(nodeInfo)[1]).None? || !IsPort(ParseInt(JavaSplit(nodeInfo)[1]).value))
    ensures e.Address? ==> e.host == JavaSplit(nodeInfo)[0] && ParseInt(JavaSplit(nodeInfo)[1]) == Some(e.port)
  {
    var parts := JavaSplit(nodeInfo);
    if |parts| != 2 then Malformed
    else
      match ParseInt(parts[1])
      case Some(p) => if IsPort(p) then Address(parts[0], p) else BadPort
      case None => BadPort
  }

  /** The identity a handshake records for a peer leads back to that peer's address. */
  lemma EndpointOfPeerIdentity(ip: string, port: int)
    requires NoColon(ip) && IsPort(port)
    ensures ParseEndpoint(Peer(ip, port).ToString()) == Address(ip, port)
  {
    ParseIntOfIntToString(port);
  }
}
