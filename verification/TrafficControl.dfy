// The socket buffer and metadata the programs share with the kernel. The kernel
// function is a contract: its return code and the bytes it leaves in new room are inputs.

module TrafficControl {

  const SHOT := 2
  const PASS := -1
  const PACKET_TOO_SHORT := 1

  class Skb {
    var data: array<bv8>
    const ifindex: bv32

    constructor (data: array<bv8>, ifindex: bv32)
      ensures this.data == data && this.ifindex == ifindex
    {
      this.data, this.ifindex := data, ifindex;
    }

    /** bpf_skb_adjust_room in MAC mode: room is opened or closed behind the 14 bytes of the
        Ethernet header. `code` is what the kernel returns, `fill` what new room holds. */
    method AdjustRoom(delta: int, fill: seq<bv8>, code: int) returns (ret: int)
      requires data.Length >= 14 && (delta < 0 ==> data.Length >= 14 - delta)
      requires delta >= 0 ==> |fill| == delta
      modifies this
      ensures ret == code
      ensures code != 0 ==> data == old(data)
      ensures code == 0 ==> fresh(data) && data[..] == Adjusted(old(data[..]), delta, fill)
    {
      ret := code;
      if code == 0 {
        var s := Adjusted(data[..], delta, fill);
        data := new bv8[|s|](i requires 0 <= i < |s| => s[i]);
      }
    }
  }

  function Adjusted(s: seq<bv8>, delta: int, fill: seq<bv8>): seq<bv8>
    requires |s| >= 14 && (delta < 0 ==> |s| >= 14 - delta)
  {
    if delta >= 0 then s[..14] + fill + s[14..] else s[..14] + s[14 - delta..]
  }

  /** The packet buffer a packet arrives in. */
  method Buffer(bytes: seq<bv8>) returns (pkt: array<bv8>)
    ensures fresh(pkt) && pkt[..] == bytes
  {
    pkt := new bv8[|bytes|](i requires 0 <= i < |bytes| => bytes[i]);
  }

  class GlobalMetadata {
    var drop: bool
    var egressPort: bv32
    var parserError: int

    constructor (drop: bool, egressPort: bv32)
      ensures this.drop == drop && this.egressPort == egressPort
    {
      this.drop, this.egressPort, this.parserError := drop, egressPort, 0;
    }
  }

  /** What tc_ingress_func does with a packet the program lets through: port 0 means the
      packet goes up to this host's own stack. */
  datatype Verdict = Shot | Redirect(port: bv32) | ToHost

  function Deliver(port: bv32): Verdict {
    if port == 0 then ToHost else Redirect(port)
  }
}
