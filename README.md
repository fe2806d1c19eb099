# LAN file-sharing node: a verified Dafny model

This project models the protocol core of a small peer-to-peer file-sharing
node for a local network. Each node:

- **Discovery and membership.** Every five seconds the node broadcasts
  `DISCOVERY:<ip>:<port>:<secret>` to UDP port 5000 of 255.255.255.255.
  Nodes that share the secret answer with a `DISCOVERY_RESPONSE`. A
  `DISCOVERY` admits its sender's `ip:port` identity into the set of
  connected nodes. A node that leaves broadcasts `DISCONNECT`. Its identity
  is then suppressed for two seconds, so its stale announcements are
  ignored.
- **Catalog.** It advertises each shared file to every connected node as
  `FILE:<secret>:<name>:<size>:<ip>:<port>:<hash>`. It keeps a catalog from
  each hash to the latest metadata and to every advertiser. A departing
  node sends `DELETE:<hash>` for every file it knows of.
- **Chunk transfer.** It serves `REQUEST_CHUNK:<hash>:<index>` by reading
  the 512 KiB chunk at that index. It cuts the chunk into fragments of at
  most 8112 bytes. Each fragment goes out as one datagram: the `writeUTF`
  form of the hash, four big-endian 32-bit integers (chunk index, fragment
  index, fragment count, size), then the payload.
- **Downloading.** It downloads a file chunk by chunk from randomly chosen
  advertisers. It gathers each chunk's fragments into a map by fragment
  index, concatenates them, writes the chunk at `index * 524288` into the
  output file, and reports a progress percentage.

The Dafny modules follow the Java classes:

| file | module | models |
|---|---|---|
| `wrappers.dfy` | `Wrappers` | `Option` |
| `bytes.dfy` | `Bytes` | bytes, `writeInt`/`readInt`, `writeUTF` and modified UTF-8 |
| `java_text.dfy` | `JavaText` | `String.split(":")`, `Integer.toString`, `Integer.parseInt`/`Long.parseLong` |
| `peer.dfy` | `Peers` | `Peer` |
| `node.dfy` | `Nodes` | `Node` (a class: its IP and port are set in place) |
| `file_metadata.dfy` | `Metadata` | `FileMetadata`, the hex encoder, `calculateHash` |
| `protocol.dfy` | `Protocol` | the control messages: how they are built, routed by prefix and taken apart by each handler |
| `chunk_transfer.dfy` | `ChunkTransfer` | `sendChunk`/`sendFragments`, the fragment header, the receive loop of the downloader and `assembleChunk` |
| `file_downloader.dfy` | `Downloader` | `FileDownloader` (a class) and the output file (a class over a byte sequence) |
| `node_discovery.dfy` | `Discovery` | `NodeDiscovery` (a class whose fields are the membership sets and the catalog maps) |

Side effects become state:

- Datagrams a node sends are appended to the ghost log `sent`.
- Callback calls are appended to the ghost log `events`.
- The chunk requests, progress reports and file writes of a download are
  appended to the ghost logs `requests`, `reports` and `writes`.

Several Java behaviours are written out:

- `String.split(":")` drops trailing empty strings.
- `Integer.parseInt` and `Long.parseLong` either return a value in range or
  fail. Only ASCII digits are read (see "Left out").
- `readUTF` decodes modified UTF-8 into UTF-16 code units, overlong forms
  included, and the hash it reads is compared with the expected one unit
  by unit.
- A runtime exception the code does not catch becomes an explicit outcome
  (`ok == false`, `aborted`, `Fault`, `Crashed`). That includes a port
  outside 0..65535, which makes the `DatagramPacket` constructor throw,
  and the NullPointerException of a shared-folder search that meets a
  file it cannot hash.

The central results:

- **Chunk round trip** (`ChunkTransfer.ChunkRoundTrip`). Every datagram the
  sender builds for a chunk may arrive in any order, any number of times,
  mixed with datagrams the downloader skips. The assembled chunk is still
  exactly the bytes served.
- **Whole-file rebuild** (`Downloader.DownloadRebuildsFile`,
  `Downloader.CompletedPassRebuildsFile`). Applying the served chunk
  writes in order rebuilds the source file. `run` writes exactly what
  each attempt assembled, so a completed run whose attempts received the
  serving node's datagrams rebuilds the file.
- **The listeners** take in every datagram up to the first one whose
  handler throws, and their effect is the fold of one step function over
  those datagrams.
- **The control messages parse back** to what was put into them.
- **Invariants kept by every handler.** No suppressed identity is
  connected. Every suppression has its expiry pending. Every catalogued
  hash has its advertisers, and the last of them is the owner the metadata
  names.

## Model

| member | source | states |
|---|---|---|
| Bytes.ReadInt32OfInt32Bytes | NodeDiscovery.java:476-479 | `readInt` over the four big-endian bytes `writeInt` produced gives back the same 32-bit integer, whatever follows |
| Bytes.ReadUInt16OfUInt16Bytes | NodeDiscovery.java:475 | the unsigned 16-bit length prefix of `writeUTF` reads back as the length written |
| Bytes.ModifiedUtf8OfAscii | NodeDiscovery.java:475 | a string of characters 1..127 encodes one byte per character, each equal to its character code |
| Bytes.WriteUtf | NodeDiscovery.java:475 | `writeUTF` succeeds exactly when the encoded string is shorter than 65536 bytes; it then writes 2 + that many bytes, and the prefix reads back as the encoded length |
| Bytes.CharUnits | FileDownloader.java:97 | a character is one UTF-16 code unit, or a surrogate pair above U+FFFF; every unit is below 0x10000 |
| Bytes.Utf16 | FileDownloader.java:97 | the UTF-16 form of a string has between one and two units per character |
| Bytes.FirstUnit | FileDownloader.java:97 | `readUTF`'s reading of one unit takes 1 to 3 bytes of the input and gives a unit below 0x10000; a stray continuation byte, a missing continuation or a 4-byte lead is malformed |
| Bytes.DecodeConcat | FileDownloader.java:97 | after a well-formed prefix, decoding the whole is the prefix's units followed by the rest's, and fails exactly when the rest does |
| Bytes.DecodeSingle | FileDownloader.java:97 | a byte group that is exactly one unit decodes to that unit |
| Bytes.DecodeCodeUnit | NodeDiscovery.java:475 | the 1-, 2- or 3-byte form `writeUTF` gives a code unit decodes back to it |
| Bytes.DecodeCharBytes | NodeDiscovery.java:475 | the bytes `writeUTF` gives a character decode to its UTF-16 units |
| Bytes.DecodeModifiedUtf8Inverts | FileDownloader.java:97 | `readUTF` over the body `writeUTF` wrote gives back the string's UTF-16 units |
| Bytes.DecodeExamples | FileDownloader.java:97 | the overlong `C1 A1` reads as `a`, the same as `61`; a lone continuation byte is malformed |
| JavaText.SplitAllPiecesHaveNoColon | NodeDiscovery.java:175 | no piece of a colon split contains a colon |
| JavaText.SplitAllJoin | NodeDiscovery.java:175 | splitting colon-free fields joined by colons gives back exactly those fields |
| JavaText.JoinSplitAll | NodeDiscovery.java:175 | joining the pieces of a split with colons gives back the original string |
| JavaText.DropTrailingEmpty | NodeDiscovery.java:175 | the result is a prefix of the pieces, everything dropped is empty, and the last piece kept is non-empty |
| JavaText.JavaSplit | NodeDiscovery.java:175 | `split(":")`: the empty string gives `[""]`; otherwise the result is the full colon split with exactly its trailing empty pieces removed, and no piece contains a colon |
| JavaText.JavaSplitJoin | NodeDiscovery.java:175 | colon-free fields whose last is non-empty, joined by colons, split back into exactly those fields |
| JavaText.LoneColonSplitsToNothing | NodeDiscovery.java:175 | `":".split(":")` is empty, so indexing field 1 of such a message throws |
| JavaText.TrailingColonsDropped | NodeDiscovery.java:227 | `"a::"` splits to the one field `"a"` |
| JavaText.LeadingColonKept | NodeDiscovery.java:207 | a leading colon yields an empty first field |
| JavaText.IntToString | NodeDiscovery.java:96 | the decimal text of an integer is non-empty and contains no colon |
| JavaText.DigitsValueOfNatDigits | NodeDiscovery.java:253 | the decimal digits of a natural number are worth that number |
| JavaText.ParseInteger | NodeDiscovery.java:253 | a successful parse lies in the requested range |
| JavaText.ParseInt | NodeDiscovery.java:253 | `Integer.parseInt` yields a 32-bit value or fails |
| JavaText.ParseLong | NodeDiscovery.java:259 | `Long.parseLong` yields a 64-bit value or fails |
| JavaText.ParseIntegerOfIntToString | NodeDiscovery.java:253 | the decimal text of any in-range integer, negative ones included, parses back to it |
| JavaText.ParseIntOfIntToString | NodeDiscovery.java:291 | `parseInt` inverts the decimal text of every 32-bit integer |
| JavaText.ParseLongOfIntToString | NodeDiscovery.java:259 | `parseLong` inverts the decimal text of every 64-bit integer |
| Peers.Peer.ToString | Peer.java:19-22 | `ip:port`: with a colon-free IP it splits back into the IP and the decimal port, the shape of the identities in the connected set |
| Nodes.Node.constructor | Node.java:8-13 | the four fields hold the constructor arguments |
| Nodes.Node.SetIpAddress | Node.java:32-34 | only the IP changes; secret and folder are constants |
| Nodes.Node.SetPort | Node.java:36-38 | only the port changes |
| Nodes.Node.ToString | Node.java:40-47 | the text starts `Node:ipAddress='<ip>', port=<port>`, continues with `, sharedSecret='` and the secret, and ends `', sharedFolderPath='<folder>'`; its length is that of the literal parts plus the fields |
| Metadata.FileMetadata.ToString | FileMetadata.java:68-71 | `name:size:ip:port:hash`; with colon-free fields and a non-empty hash it splits back into exactly those five fields |
| Metadata.ToStringIsJoin | FileMetadata.java:68-71 | the text form is the five fields joined by colons |
| Metadata.HashIsFieldFour | NodeDiscovery.java:408 | with splittable fields, field 4 of the text form exists and is the hash |
| Metadata.ForDigit | FileMetadata.java:46 | `Character.forDigit(d, 16)` is a lowercase hex digit |
| Metadata.ByteToHex | FileMetadata.java:46 | `toString((b & 0xff) + 0x100, 16).substring(1)` is the byte's high nibble digit then its low nibble digit |
| Metadata.Hex | FileMetadata.java:43-49 | n bytes render as 2n lowercase hex digits |
| Metadata.ConvertByteArrayToHexString | FileMetadata.java:43-49 | the builder loop produces the hex of every byte of the array, in order: 2n characters from `0-9a-f` |
| Metadata.HexValueOfForDigit | FileMetadata.java:46 | reading a digit back gives its value |
| Metadata.ByteFromDigits | FileMetadata.java:46 | a byte's two digits read back as the byte |
| Metadata.FromHexStep | FileMetadata.java:45-47 | appending one byte's digits appends that byte to the decoding |
| Metadata.FromHexOfHex | FileMetadata.java:43-49 | decoding the hex of any byte sequence gives the sequence back |
| Metadata.HexInjective | FileMetadata.java:43-49 | two byte sequences with the same hex text are equal |
| Metadata.CalculateHash | FileMetadata.java:22-40 | `null` exactly when the file cannot be read; otherwise lowercase hex, two characters per digest byte, decoding to the digest |
| Metadata.HashDependsOnlyOnContent | FileMetadata.java:22-40 | files with the same bytes get the same hash |
| Metadata.DigestHashFitsHeader | FileMetadata.java:33-35 | a 32-byte digest gives a 64-character ASCII hash, whose modified UTF-8 form is 64 bytes, the header's hash allowance |
| Protocol.RouteOfDiscoveryPrefix | NodeDiscovery.java:120-121 | any text starting `DISCOVERY:` goes to `handleDiscovery` |
| Protocol.RouteOfResponsePrefix | NodeDiscovery.java:124-125 | any text starting `DISCOVERY_RESPONSE:` goes to `handleDiscoveryResponse`, although `DISCOVERY` is a prefix of its head |
| Protocol.RouteOfDisconnectPrefix | NodeDiscovery.java:128-129 | any text starting `DISCONNECT:` goes to `handleDisconnect` |
| Protocol.RouteOfDiscoveryMessage | NodeDiscovery.java:96 | a node's own `DISCOVERY` reaches `handleDiscovery` |
| Protocol.RouteOfResponseMessage | NodeDiscovery.java:184 | a `DISCOVERY_RESPONSE` reaches `handleDiscoveryResponse` |
| Protocol.RouteOfDisconnectMessage | NodeDiscovery.java:400 | a `DISCONNECT` reaches `handleDisconnect` |
| Protocol.DiscoveryPortRoutes | NodeDiscovery.java:120-130 | each of the three announcements reaches its own handler |
| Protocol.RouteOfFileMessage | NodeDiscovery.java:153-154 | a `FILE` advertisement reaches `handleFileBroadcast` |
| Protocol.RouteOfDeleteMessage | NodeDiscovery.java:157-158 | a `DELETE` reaches `handleDelete` |
| Protocol.RouteOfRequestMessage | NodeDiscovery.java:161-162 | a `REQUEST_CHUNK` falls through to `handleChunkRequest` |
| Protocol.TransferPortRoutes | NodeDiscovery.java:153-163 | each of the three transfer-port messages reaches its own handler |
| Protocol.ClassifyHandshake | NodeDiscovery.java:172-202 | a handshake can only be accepted when the local secret is colon-free |
| Protocol.AnnouncementFields | NodeDiscovery.java:175 | an announcement with colon-free head, IP and non-empty secret splits into exactly its four fields |
| Protocol.HandshakeRoundTrip | NodeDiscovery.java:172-223 | a `DISCOVERY` or `DISCOVERY_RESPONSE` from `ip`/`port` is accepted as identity `ip:port` exactly when its secret is the local one and that identity is not suppressed; it is ignored when suppressed and rejected otherwise |
| Protocol.AnnouncementHeads | NodeDiscovery.java:96 | the three announcements are their head, IP, decimal port and secret joined by colons |
| Protocol.AnnouncementClassified | NodeDiscovery.java:176-182 | any colon-joined four-field announcement is classified by the suppression check first, then by the secret |
| Protocol.ColonSecretNeverAccepted | NodeDiscovery.java:182 | with a colon in the local secret no handshake is ever accepted, since no split field can equal it |
| Protocol.DisconnectIdentity | NodeDiscovery.java:227-229 | a disconnect identity is only found when the local secret is colon-free |
| Protocol.DisconnectRoundTrip | NodeDiscovery.java:226-243 | a `DISCONNECT` from `ip`/`port` names identity `ip:port` exactly when its secret is the local one |
| Protocol.ParseFileAdvert | NodeDiscovery.java:246-259 | an accepted advertisement has colon-free name, IP and hash, a 64-bit size and a 32-bit port |
| Protocol.ShortAdvertFaults | NodeDiscovery.java:248-249 | five or six fields with `FILE` and the local secret throw at the read of field 6 |
| Protocol.FileMessageSplits | NodeDiscovery.java:346 | the advertisement splits into `FILE`, the secret and the metadata's five fields |
| Protocol.FileAdvertRoundTrip | NodeDiscovery.java:246-259 | an advertisement of splittable, in-range metadata parses back to exactly that metadata when the secrets agree, and is ignored otherwise |
| Protocol.ParseDelete | NodeDiscovery.java:272-275 | an accepted `DELETE` names a colon-free hash |
| Protocol.DeleteRoundTrip | NodeDiscovery.java:272-275 | `DELETE:<hash>` parses back to the hash |
| Protocol.RetractedHash | NodeDiscovery.java:408 | field 4 of the metadata's text form is its hash when the fields are splittable |
| Protocol.ParseChunkRequest | NodeDiscovery.java:288-291 | an accepted request has a colon-free hash and a 32-bit index |
| Protocol.ChunkRequestRoundTrip | FileDownloader.java:123 | the downloader's request parses back in `handleChunkRequest` to the same hash and chunk index |
| Protocol.ParseEndpoint | NodeDiscovery.java:356-365 | an identity that does not split into two fields is malformed; exactly when it splits into two and its second field does not parse or lies outside 0..65535 is it a bad port, at which the datagram constructor throws; a destination is the first field as host and the parsed second field as port, in 0..65535 |
| Protocol.EndpointOfPeerIdentity | NodeDiscovery.java:356-365 | an identity `ip:port` with a colon-free IP and a port in 0..65535 is read back as that address |
| ChunkTransfer.CeilDiv | NodeDiscovery.java:465 | `ceil(n / d)` as the integer `q` with `(q-1)*d < n <= q*d` |
| ChunkTransfer.Fragments | NodeDiscovery.java:465-471 | `ceil(n / 8112)` fragments, none exactly for empty data, each non-empty and at most 8112 bytes |
| ChunkTransfer.FragmentCount | NodeDiscovery.java:465 | a chunk is at most 65 fragments |
| ChunkTransfer.FragmentAt | NodeDiscovery.java:469-471 | fragment `i` is `data[i*8112 .. min((i+1)*8112, n))` |
| ChunkTransfer.FragmentSpan | NodeDiscovery.java:469-471 | the same slice, with the offset carried as a parameter |
| ChunkTransfer.ConcatSnoc | FileDownloader.java:133-137 | concatenation distributes over appending one piece |
| ChunkTransfer.ConcatFragments | NodeDiscovery.java:468-471 | the fragments concatenated in order are the data |
| ChunkTransfer.FullChunkFragments | NodeDiscovery.java:465-471 | a full 524288-byte chunk is 65 fragments, the last of 5120 bytes |
| ChunkTransfer.Packet | NodeDiscovery.java:473-482 | a datagram is the hash prefix plus 16 header bytes plus the payload |
| ChunkTransfer.Packets | NodeDiscovery.java:468-491 | one datagram per fragment |
| ChunkTransfer.PacketsAt | NodeDiscovery.java:475-480 | datagram `i` carries chunk index, `i`, fragment count and fragment `i` |
| ChunkTransfer.HexHashFits | NodeDiscovery.java:486-488 | with a 64-character hex hash every datagram is at most 8194 bytes, so the size check never throws |
| ChunkTransfer.FragmentOfBuffer | NodeDiscovery.java:469-471 | the slice of the read buffer the loop takes is fragment `i` of the bytes read |
| ChunkTransfer.FragmentDatagram | NodeDiscovery.java:469-482 | one iteration of the sender's loop builds exactly datagram `i`; the first datagram is the longest |
| ChunkTransfer.SendFragments | NodeDiscovery.java:462-493 | fails exactly when the data is non-empty and the hash or first datagram is too long; then nothing is sent, otherwise exactly the chunk's datagrams are sent, in order |
| ChunkTransfer.ServedBytes | NodeDiscovery.java:446-451 | the bytes read start at `index * 524288`, hold as much of the chunk as the file has left, and are at most 524288 |
| ChunkTransfer.SendChunk | NodeDiscovery.java:439-459 | a negative index sends nothing; otherwise the datagrams of the served bytes are sent, or nothing when there are none or they do not fit |
| ChunkTransfer.ReceiveBuffer | FileDownloader.java:85-95 | the parser sees 8212 bytes: the datagram's, then zeros |
| ChunkTransfer.ReceiveBufferOfShort | FileDownloader.java:85-95 | a datagram that fits the buffer is followed by zeros only |
| ChunkTransfer.ReadFragment | FileDownloader.java:95-108 | a parsed fragment is no longer than the buffer; the unchecked exception arises only from a negative declared size (`new byte[size]`) |
| ChunkTransfer.HeaderAt | FileDownloader.java:98-108 | the four header integers and the payload are found at their offsets behind the hash |
| ChunkTransfer.ReadFragmentOfPacket | FileDownloader.java:95-108 | a datagram the sender built, followed by anything, is read as its own fragment when its hash reads back as the expected hash's UTF-16 units and the chunk matches, and skipped otherwise |
| ChunkTransfer.ReadFragmentOfFields | FileDownloader.java:97-108 | given what the hash decodes to and the four header fields, the parse is that fragment when hash units and chunk match, and a skip otherwise |
| ChunkTransfer.Gather | FileDownloader.java:84-114 | the receive loop only adds fragment indices, and nothing changes after an exception |
| ChunkTransfer.GatherAt | FileDownloader.java:95-112 | one more datagram read by the loop: the rest of the loop continues from what that datagram stored |
| ChunkTransfer.DuplicateFragment | FileDownloader.java:110-112 | a repeated fragment overwrites its entry and does not raise the count held |
| ChunkTransfer.GatherStopsWhenComplete | FileDownloader.java:84-112 | once the map holds as many fragments as last declared, later datagrams are never read |
| ChunkTransfer.AssembledFull | FileDownloader.java:131-140 | with fragments `0..n-1` all present, `assembleChunk` is their concatenation in order |
| ChunkTransfer.AssembledSkipsGaps | FileDownloader.java:134-136 | a missing index contributes nothing |
| ChunkTransfer.AssembledUpTo | FileDownloader.java:133 | entries outside `0..n-1` do not affect the result |
| ChunkTransfer.NothingAssembled | FileDownloader.java:117 | with no accepted datagram the count stays -1 and the chunk is empty, not null |
| ChunkTransfer.SizeOfIndexSet | FileDownloader.java:112 | a set of indices in `0..n-1` has at most `n` elements |
| ChunkTransfer.FullRange | FileDownloader.java:112 | `n` indices in `0..n-1` are all of them |
| ChunkTransfer.PacketFitsBuffer | NodeDiscovery.java:486-488 | every datagram that passes the sender's check fits the receive buffer |
| ChunkTransfer.ReceivePacket | FileDownloader.java:95-111 | the sender's `k`-th datagram, received, is fragment `k` with the true fragment count |
| ChunkTransfer.StoreKeepsConsistent | FileDownloader.java:110-111 | storing a skip or one of the sender's fragments keeps every held entry equal to the sender's fragment |
| ChunkTransfer.GatherConsistent | FileDownloader.java:84-114 | under only the sender's and skipped traffic, the loop ends holding only true fragments, and either all of them or every one that arrived |
| ChunkTransfer.ChunkRoundTrip | FileDownloader.java:74-119 | every sent datagram arriving, in any order and repeated, among skipped traffic: no exception, and the assembled chunk equals the served data |
| Downloader.Overwrite | FileDownloader.java:143-147 | a seek-and-write covers `[offset, offset+len)`, keeps every other byte, zero-fills any gap, and the length becomes `max(old, offset+len)` |
| Downloader.OutputFile.constructor | FileDownloader.java:42 | the `rw` file opens with its existing contents |
| Downloader.OutputFile.WriteAt | FileDownloader.java:145-146 | the file becomes the overwrite of its old contents |
| Downloader.ServedWrites | FileDownloader.java:44-56 | one write per chunk |
| Downloader.DownloadRebuildsFile | FileDownloader.java:33-65 | writing every served chunk at its offset, in order, into an empty file rebuilds the source exactly |
| Downloader.OverwriteExtends | FileDownloader.java:143-147 | writing the next slice at the end of a prefix extends the prefix |
| Downloader.ChunkStartInFile | FileDownloader.java:36 | every chunk index below the chunk count starts inside the file |
| Downloader.ApplyServedWrites | FileDownloader.java:44-56 | after the first `m` chunks are written the file is the source's first `min(m*524288, n)` bytes |
| Downloader.ServedChunkExtends | FileDownloader.java:53 | writing chunk `j` after chunks `0..j-1` extends the rebuilt prefix |
| Downloader.TotalChunks | FileDownloader.java:36 | the count is a 32-bit integer, non-negative for a non-negative size, and `ceil(size / 524288)` for sizes up to `(2^31 - 1) * 524288` |
| Downloader.ExampleChunks | FileDownloader.java:36 | a 1,200,000-byte file is three chunks, the last of 151,424 bytes |
| Downloader.ProgressBounds | FileDownloader.java:150-152 | progress lies in 0..100 |
| Downloader.ProgressMonotone | FileDownloader.java:150-152 | more chunks downloaded never reports less |
| Downloader.ProgressComplete | FileDownloader.java:150-152 | progress is 100 exactly when every chunk has been downloaded |
| Downloader.CountTrue | FileDownloader.java:38 | no more set flags than flags |
| Downloader.CountTrueSet | FileDownloader.java:54-55 | setting an unset flag raises the count of set flags by one |
| Downloader.CountTrueFull | FileDownloader.java:44 | as many set flags as flags means every flag is set |
| Downloader.ChunkAttempt | FileDownloader.java:74-126 | a port outside 0..65535 throws the unchecked exception; a chunk comes back only with a usable port and a receive loop that did not throw |
| Downloader.AttemptRoundTrip | FileDownloader.java:74-119 | an attempt whose datagrams include every one the serving node sends for the chunk, among skipped traffic, yields exactly the served data |
| Downloader.RequestOf | FileDownloader.java:122-128 | an attempt sends at most one request |
| Downloader.Attempts | FileDownloader.java:44-57 | one attempt per peer asked |
| Downloader.RequestLog | FileDownloader.java:122-128 | a pass sends at most one request per attempt |
| Downloader.RequestLogStep | FileDownloader.java:49 | one more attempt appends its own request to the log |
| Downloader.CompletedPassRebuildsFile | FileDownloader.java:33-65 | a pass in which every chunk came back, each attempt having received the serving node's datagrams for its chunk, writes exactly the served chunks, so an empty output file ends up equal to the source |
| Downloader.FileDownloader.constructor | FileDownloader.java:22-29 | the fields hold the arguments, nothing is logged yet |
| Downloader.FileDownloader.SelectPeerForChunk | FileDownloader.java:68-71 | no peer exactly when the list is empty, otherwise a listed peer |
| Downloader.FileDownloader.RequestChunkFromPeer | FileDownloader.java:122-128 | exactly one request, `REQUEST_CHUNK:<hash>:<index>`, to the peer when its port is in 0..65535; otherwise the datagram constructor throws and nothing is sent |
| Downloader.FileDownloader.ReceiveAndAssembleChunk | FileDownloader.java:74-119 | logs the request the attempt sends and returns `ChunkAttempt` of the arriving datagrams: the unchecked exception for a bad port, the receive loop's exception, or the assembled fragments it gathered |
| Downloader.FileDownloader.AssembleChunk | FileDownloader.java:131-140 | the loop returns the in-order concatenation of the present fragments `0..totalFragments-1` |
| Downloader.FileDownloader.WriteChunkToFile | FileDownloader.java:143-147 | the chunk lands at `index * 524288` and the write is logged |
| Downloader.FileDownloader.UpdateDownloadProgress | FileDownloader.java:150-153 | reports the percentage of chunks downloaded |
| Downloader.FileDownloader.DownloadChunk | FileDownloader.java:46-57 | a listed peer is asked and the result is its attempt on this attempt's datagrams; a throw writes and reports nothing, a chunk is written at its offset and reported with the raised counter |
| Downloader.FileDownloader.Run | FileDownloader.java:33-65 | one pass asks listed peers for chunks 0, 1, ... in order, and every attempt but the last came back; `Completed` exactly when the count is non-negative and every chunk came back, `Failed` exactly when the last attempt threw an `IOException`, `Crashed` exactly when the count is negative or the last attempt threw an unchecked exception; the requests, writes, file contents, reports, flags and counter follow the attempts |
| Downloader.FileDownloader.DownloadAll | FileDownloader.java:44-60 | the two loops ask for chunks 0, 1, ... one attempt each and return the first exception; otherwise every chunk is written; the bookkeeping `Progressed` relates the logs at the end to those at the start |
| Downloader.FlagsStep | FileDownloader.java:54 | setting flag `k` after `0..k-1` gives flags `0..k` |
| Downloader.FlagsCount | FileDownloader.java:55 | after `k` chunks the counter equals the number of set flags |
| Downloader.ProgressReports | FileDownloader.java:56 | one report per chunk downloaded |
| Downloader.ProgressReportsStep | FileDownloader.java:56 | each download adds the report for the raised counter |
| Downloader.ProgressReportsRise | FileDownloader.java:150-152 | the reports of a complete download lie in 0..100, never fall, end at 100 and are below 100 before the last |
| Downloader.ProgressedStart | FileDownloader.java:44 | before any attempt the bookkeeping holds with nothing asked or written |
| Downloader.AttemptsPrefix | FileDownloader.java:45-49 | one more attempt leaves the earlier attempts as they were |
| Downloader.ProgressedStep | FileDownloader.java:46-56 | an attempt that came back: its chunk written at its offset, its report and its request keep the bookkeeping |
| Downloader.LogsGot | FileDownloader.java:46-56 | the logs after a chunk came back: one more write, report and request |
| Downloader.AttemptsGot | FileDownloader.java:46-53 | every attempt so far came back, each with the chunk it wrote |
| Downloader.ProgressedThrew | FileDownloader.java:46-61 | an attempt that threw adds its request only and is recorded as the last attempt |
| Downloader.ProgressedEnds | FileDownloader.java:44-60 | the bookkeeping says that every attempt but the last came back, all of them when none threw, and that each write is its attempt's chunk |
| Discovery.FanOutShape | NodeDiscovery.java:355-368 | the loop sends at most one datagram per identity, each carrying the text, and is cut short exactly when some identity's port does not parse or lies outside 0..65535 |
| Discovery.FanOutStep | NodeDiscovery.java:418-430 | one more identity: skipped, throws, or gets the text |
| Discovery.Deliveries | NodeDiscovery.java:362-367 | one datagram per destination |
| Discovery.FanOutReachesAll | NodeDiscovery.java:355-368 | with only proper identities, every one gets the text once, in iteration order, and nothing throws |
| Discovery.FanOutToPeers | NodeDiscovery.java:355-368 | peers with colon-free IPs and ports in 0..65535 are each reached once, in order, and nothing throws |
| Discovery.EmptyEnumeration | NodeDiscovery.java:413-415 | the `isEmpty` guard holds exactly when the iteration is empty |
| Discovery.FileListStep | NodeDiscovery.java:340-368 | one more file adds its fan-out |
| Discovery.FileListReachesAll | NodeDiscovery.java:339-374 | with proper identities, every file's advertisement reaches every connected node |
| Discovery.RetractionsStep | NodeDiscovery.java:407-431 | one more file adds its `DELETE` fan-out, or throws |
| Discovery.RetractionsReachAll | NodeDiscovery.java:407-432 | with readable hashes and proper identities, every `DELETE` reaches every connected node and nothing throws |
| Discovery.DepartureRetractsAll | NodeDiscovery.java:398-436 | a departure tells every connected node to delete every known file's own hash |
| Discovery.AdmitKeepsMembership | NodeDiscovery.java:177-191 | admitting an unsuppressed identity keeps the membership invariant |
| Discovery.SuppressKeepsMembership | NodeDiscovery.java:231-236 | suppressing, scheduling its expiry and removing keeps the invariant |
| Discovery.ExpireKeepsMembership | NodeDiscovery.java:233 | running the oldest scheduled removal keeps the invariant |
| Discovery.RecordAdvertKeepsCatalog | NodeDiscovery.java:260-263 | recording an advertisement keeps the catalog invariant |
| Discovery.ForgetFileKeepsCatalog | NodeDiscovery.java:276-277 | removing a hash from both maps keeps the catalog invariant |
| Discovery.NodeDiscovery.constructor | NodeDiscovery.java:66-72 | installs the bound port in the local node, changes nothing else of it, and starts with empty sets, maps and logs |
| Discovery.NodeDiscovery.SetOnNodeDiscoveredCallback | NodeDiscovery.java:75-77 | installs that callback only |
| Discovery.NodeDiscovery.SetOnFileBroadcastCallback | NodeDiscovery.java:79-81 | installs that callback only |
| Discovery.NodeDiscovery.SetOnDisconnectCallback | NodeDiscovery.java:83-85 | installs that callback only |
| Discovery.NodeDiscovery.SetOnDeleteCallback | NodeDiscovery.java:87-89 | installs that callback only |
| Discovery.NodeDiscovery.AddNode | NodeDiscovery.java:49-56 | the identity is connected afterwards, and re-adding changes nothing |
| Discovery.NodeDiscovery.RemoveNode | NodeDiscovery.java:59-63 | exactly that identity is gone |
| Discovery.NodeDiscovery.HandleDiscovery | NodeDiscovery.java:172-202 | an accepted `DISCOVERY` admits the identity, answers the sender at port 5000 and is reported; a suppressed, short, wrong-secret or wrong-length one changes nothing; invariants kept |
| Discovery.NodeDiscovery.SendDiscoveryResponse | NodeDiscovery.java:299-312 | one `DISCOVERY_RESPONSE` to the given address and port |
| Discovery.NodeDiscovery.HandleDiscoveryResponse | NodeDiscovery.java:205-223 | never changes the connected set; an accepted response is answered and reported; a message too short to index throws |
| Discovery.NodeDiscovery.HandleDisconnect | NodeDiscovery.java:226-243 | a valid `DISCONNECT` suppresses the identity, schedules its expiry, disconnects it and is reported; anything else changes nothing |
| Discovery.NodeDiscovery.Expire | NodeDiscovery.java:233 | the oldest scheduled removal un-suppresses exactly that identity |
| Discovery.NodeDiscovery.HandleFileBroadcast | NodeDiscovery.java:246-269 | a valid advertisement replaces the hash's metadata and appends exactly one advertiser, other hashes untouched, reported unless from the local IP; five or six fields or an unparsable number throw with nothing changed |
| Discovery.NodeDiscovery.RecordAdvert | NodeDiscovery.java:260-267 | the two map updates and the callback of a parsed advertisement |
| Discovery.NodeDiscovery.HandleDelete | NodeDiscovery.java:272-283 | `DELETE:<h>` removes `h` from both maps without a secret, leaves no advertisers for it and is reported; anything else changes nothing |
| Discovery.NodeDiscovery.GetPeersWithFile | NodeDiscovery.java:517-519 | empty for an unknown hash; under the invariant a known hash has advertisers, the last being the metadata's owner |
| Discovery.NodeDiscovery.HandleChunkRequest | NodeDiscovery.java:286-296 | a request for a shared file sends the chunk's datagrams to the requester; an unparsable index throws, and so does a search of the shared folder that meets a file it cannot hash (NullPointerException), both with nothing sent |
| Discovery.NodeDiscovery.SendDiscoveryPacket | NodeDiscovery.java:94-101 | one `DISCOVERY` to 255.255.255.255:5000 |
| Discovery.NodeDiscovery.SendToConnected | NodeDiscovery.java:349-368 | sends exactly the fan-out of the text over the connected identities, in iteration order |
| Discovery.NodeDiscovery.BroadcastFileList | NodeDiscovery.java:339-374 | each file's advertisement fanned out to the connected nodes, file by file |
| Discovery.NodeDiscovery.BroadcastDisconnect | NodeDiscovery.java:398-436 | one `DISCONNECT` to the broadcast address, then the `DELETE` of each known file's hash to the connected nodes; an escaping exception is reported |
| Discovery.NodeDiscovery.SendRetractions | NodeDiscovery.java:407-432 | the retractions of the files in order, stopping at the first exception |
| Discovery.NodeDiscovery.Retract | NodeDiscovery.java:408-430 | a missing field 4 throws with nothing sent; otherwise the `DELETE` fan-out |
| Discovery.NodeDiscovery.ListenDiscoveryPort | NodeDiscovery.java:111-141 | takes in the datagrams up to the first too-short `DISCOVERY_RESPONSE` and stops there; membership, datagrams sent and callback calls are exactly `Discovered`, the fold of one handled datagram after another; the catalog is untouched and the invariants kept |
| Discovery.NodeDiscovery.ListenTransferPort | NodeDiscovery.java:144-168 | takes in the datagrams up to the first one whose handler throws and stops there; the catalog, datagrams sent and callback calls are exactly `Transferred`, the fold of one handled datagram after another; membership is untouched and the invariants kept |
| Discovery.NodeDiscovery.DispatchDiscoveryPort | NodeDiscovery.java:119-130 | routes by prefix; fails exactly on a too-short `DISCOVERY_RESPONSE`, with nothing changed; otherwise membership follows `DiscoveryStep`; catalog and callbacks untouched, invariants kept |
| Discovery.NodeDiscovery.DispatchTransferPort | NodeDiscovery.java:152-163 | routes by prefix; fails exactly where the advert or request parse throws or the chunk request's file search meets an unhashable file, with nothing changed; otherwise the catalog follows `TransferStep`; membership and callbacks untouched, invariants kept |
| Discovery.NodeDiscovery.TakeDiscoveryDatagram | NodeDiscovery.java:115-130 | one pass of the discovery loop: either the next datagram is taken in and the listener's bookkeeping moves on, or it throws and the bookkeeping is unchanged |
| Discovery.NodeDiscovery.TakeTransferDatagram | NodeDiscovery.java:148-163 | one pass of the transfer loop: either the next datagram is taken in and the listener's bookkeeping moves on, or it throws and the bookkeeping is unchanged |
| Discovery.DiscoveryStepKeepsMembership | NodeDiscovery.java:119-130 | whatever one datagram at the discovery port says, no identity is both connected and suppressed, every suppression has its expiry pending, and the send and callback logs only grow |
| Discovery.DiscoveredKeepsMembership | NodeDiscovery.java:111-141 | the same holds after any number of datagrams |
| Discovery.ServedRequestThrowsOnlyWhenUnhashable | NodeDiscovery.java:160-163 | a downloader's chunk request, taken in at the transfer port, throws exactly when the shared folder's search meets a file it cannot hash, and then changes nothing; a file found is answered with the chunk's fragments to the requester |
| Discovery.TransferStepKeepsCatalog | NodeDiscovery.java:152-163 | whatever one datagram at the transfer port says, every catalogued hash has its advertisers, the last being the metadata's owner, and the send and callback logs only grow |
| Discovery.ChunkFragments | NodeDiscovery.java:439-459 | for a chunk inside the file whose datagrams fit, `ceil(len / 8112)` datagrams |
| Discovery.FanOutAbortedStays | NodeDiscovery.java:426 | once a fan-out throws, later identities add nothing |
| Discovery.RetractionsAbortedStays | NodeDiscovery.java:426 | once a retraction throws, later files add nothing |

## Left out

- Sockets, name resolution and sending are not modelled. A send always
  succeeds and is appended to the ghost log `sent`. A received datagram is
  an input of the listener methods.
- Threads, `synchronized` blocks, `Thread.sleep` and the scheduled
  executor are not modelled. The handlers run one at a time. The two-second
  expiry of a suppression is the explicit method `Expire`. Every expiry has
  the same delay on one thread, so expiries run in the order they were
  scheduled.
- `sendDiscoveryPackets` is modelled as one round, `SendDiscoveryPacket`.
  Its five-second repetition is not modelled. Neither are
  `scheduleFileBroadcast` and `scheduleSendDiscoveryPackets`.
- `stopDiscovery` only closes sockets and stops the executor, so it is not
  modelled.
- `getLocalNetworkIP` walks the network interfaces, so it is not modelled.
- The 1024-byte receive buffer of both listeners is not modelled. A text
  message is taken whole. The platform charset of `getBytes` and
  `new String` is not modelled either; text is a sequence of characters.
- `findFileByHash` and FileScanner.java are not part of this model. They
  walk the shared folder and re-hash every file. `HandleChunkRequest`,
  `DispatchTransferPort` and `ListenTransferPort` take a function
  `findFile` instead. It gives the bytes of the file with a given hash,
  nothing, or `Unhashable`: the NullPointerException `findFileByHash`
  throws when a file it hashes on its way cannot be read. Which file the
  walk meets first is not modelled.
- SHA-256 (`MessageDigest`) is a library call. `CalculateHash` takes the
  digest as a function parameter and the file's bytes as an optional
  input.
- The random peer choice is not modelled: `SelectPeerForChunk` may return
  any listed peer.
- The iteration order of `HashSet` and `HashMap` is not modelled. The
  broadcasts take the order as a parameter (`nodeOrder`, `fileOrder`),
  required to list each element of the set or key set once.
- Callbacks are modelled only by whether each one is installed. A call
  appends to the ghost log `events`.
- MainScreen.java and SetupScreen.java (the Swing interface) are not part
  of this model.
- Downloader.FileDownloader.Run: the model requires a non-empty peer list
  whenever there are chunks to fetch. With no peers the Java loop spins
  forever. Every attempt yields a chunk, an empty one after a timeout, so
  with a peer the model finishes in a single pass. A later pass is
  reachable only when the Java run never ends, and the model does not
  cover it.
- Downloader.FileDownloader.Run: the unchecked exceptions that escape
  `run` are the outcome `Crashed`: a negative chunk count, a peer port
  outside 0..65535 and a negative fragment size. Exhausting memory with a
  huge flag array is not modelled.
- Downloader.FileDownloader.ReceiveAndAssembleChunk: the datagrams that
  arrive before the ten-second timeout are an input sequence. The end of
  the sequence stands for the timeout.
- Downloader.ProgressPercentage: the Java code computes
  `(int)((double) d / t * 100)`. The model uses the exact floor of
  `d * 100 / t`, and rounding can make the Java figure one lower. The
  bounds, the monotonicity and the "100 exactly at the end" properties are
  stated for the exact figure.
- Downloader.DownloadRebuildsFile requires a file of at most
  `(2^31 - 1) * 524288` bytes. Beyond that the chunk count saturates at the
  largest `int` and the tail of the file is never requested.
- ChunkTransfer.ReadFragment: `readUTF` is modelled as decoding to UTF-16
  code units, and the expected hash is compared by its units. A string
  holding a lone surrogate cannot be written as a Dafny `string`, so such
  an expected hash is not covered. The `OutOfMemoryError` a huge declared
  size could raise is not modelled.
- ChunkTransfer.ServedBytes: the file is a byte sequence read whole. A
  `read` that returns fewer bytes than remain in the chunk is not modelled.
- Downloader.Overwrite: bytes a seek past the end leaves unwritten read as
  zeros. That is what `RandomAccessFile` produces on the common file
  systems, but Java does not specify it.
- JavaText.ParseInteger: only the ASCII digits `0`-`9` are read.
  `Character.digit` also accepts the other Unicode decimal digits (for
  example Arabic-Indic `٣`), so a number written with them is a parse
  failure in the model and a value in Java.
- JavaText.ParseInt: the same ASCII-only reading as `ParseInteger`. A
  chunk request or advertised port written with other Unicode digits
  throws in the model but is read in Java.
- JavaText.ParseLong: the same ASCII-only reading as `ParseInteger`, for
  the advertised file size.
- `FileMetadata` getters, and the getters of `Node` and `Peer`, are the
  datatype fields or class fields themselves, so they have no members of
  their own.
