/**
 * A remote holder of a file. Its fields are set once by the constructor
 * and never reassigned, so it is a value; the getters `getIpAddress` and
 * `getPort` are the field selectors `ipAddress` and `port`.
 */
module Peers {
  import opened JavaText

  /**
   * No `equals` is defined in the source, so nothing stops a peer list
   * from holding the same endpoint twice; a `seq<Peer>` keeps repeats too.
   */
  datatype Peer = Peer(ipAddress: string, port: int) {

    /** `toString`: `ip:port`, the same shape as a node identity. */
    function ToString(): (r: string)
      ensures NoColon(ipAddress) ==> JavaSplit(r) == [ipAddress, IntToString(port)]
    {
      var r := ipAddress + ":" + IntToString(port);
      if NoColon(ipAddress) then
        assert Join([ipAddress, IntToString(port)]) == r;
        JavaSplitJoin([ipAddress, IntToString(port)]);
        r
      else r
    }
  }
}
