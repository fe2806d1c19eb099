/**
 * The local node's identity. The IP address and the port have setters and
 * are overwritten in place (the port once the transfer socket is bound to
 * an OS-chosen port); the shared secret and the shared folder have no
 * setter, so they are `const` here.
 */
module Nodes {
  import opened JavaText

  class Node {
    var ipAddress: string
    var port: int
    const sharedSecret: string
    const sharedFolderPath: string

    /** The getters return exactly what the constructor was given. */
    constructor (ipAddress: string, port: int, sharedSecret: string, sharedFolderPath: string)
      ensures this.ipAddress == ipAddress && this.port == port
      ensures this.sharedSecret == sharedSecret && this.sharedFolderPath == sharedFolderPath
    {
      this.ipAddress := ipAddress;
      this.port := port;
      this.sharedSecret := sharedSecret;
      this.sharedFolderPath := sharedFolderPath;
    }

    /** Replaces the address; the port is untouched (secret and folder cannot change). */
    method SetIpAddress(ipAddress: string)
      modifies this
      ensures this.ipAddress == ipAddress && port == old(port)
    {
      this.ipAddress := ipAddress;
    }

    /** Replaces the port; the address is untouched (secret and folder cannot change). */
    method SetPort(port: int)
      modifies this
      ensures this.port == port && ipAddress == old(ipAddress)
    {
      this.port := port;
    }

    /**
     * `toString`: a fixed frame with each field quoted in turn. The clauses
     * below pin every character: the address and port at the front, the
     * secret right after its label, the folder quoted at the end.
     */
    function ToString(): (r: string)
      reads this
      ensures StartsWith(r, "Node:ipAddress='" + ipAddress + "', port=" + IntToString(port))
      ensures |r| == 62 + |ipAddress| + |IntToString(port)| + |sharedSecret| + |sharedFolderPath|
      ensures var s := 24 + |ipAddress| + |IntToString(port)|;
        r[s..s + 16] == ", sharedSecret='" && r[s + 16..s + 16 + |sharedSecret|] == sharedSecret
      ensures EndsWith(r, "', sharedFolderPath='" + sharedFolderPath + "'")
    {
      var head := "Node:ipAddress='" + ipAddress + "', port=" + IntToString(port);
      var secret := ", sharedSecret='" + sharedSecret;
      var folder := "', sharedFolderPath='" + sharedFolderPath + "'";
      FourParts(head, ", sharedSecret='", sharedSecret, folder);
      head + secret + folder
    }
  }

  /** Each piece of a four-part concatenation sits at the offset the lengths before it add up to. */
  lemma FourParts(a: string, b: string, c: string, d: string)
    ensures var r := a + (b + c) + d;
      && r[..|a|] == a
      && r[|a|..|a| + |b|] == b
      && r[|a| + |b|..|a| + |b| + |c|] == c
      && r[|r| - |d|..] == d
  {
    var r := a + (b + c) + d;
    assert r[|a|..|a| + |b|] == b by {
      forall k | 0 <= k < |b| ensures r[|a| + k] == b[k] { }
    }
    assert r[|a| + |b|..|a| + |b| + |c|] == c by {
      forall k | 0 <= k < |c| ensures r[|a| + |b| + k] == c[k] { }
    }
  }
}
