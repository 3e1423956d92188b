// What a run of packets leaves in the flow table of a tracker.

module FlowRuns {
  import opened Wrappers
  import opened Bytes
  import opened FlowTrackerP4
  import opened FlowTable
  import opened FlowTracker
  import opened FlowTheorems
  import opened FlowBytes
  import opened TrafficControl

  /** The table after a run: what Node does to it for one packet after the other, when no
      kernel call fails. */
  function TableAfter(f: Family, run: seq<Arrival>): seq<Key> {
    if run == [] then [] else
    var entries, last := TableAfter(f, run[..|run| - 1]), run[|run| - 1];
    if Tracked(f, last) then TrackOne(entries, KeyBytes(f, Flow(f, last)), true, true) else entries
  }

  function Flows(f: Family, run: seq<Arrival>): (r: seq<FlowKey>)
    ensures forall k :: k in r ==> KeyWellFormed(f, k)
  {
    if run == [] then [] else
    Flows(f, run[..|run| - 1]) + if Tracked(f, run[|run| - 1]) then [Flow(f, run[|run| - 1])] else []
  }

  lemma {:induction false} TableTracksKeys(f: Family, run: seq<Arrival>)
    ensures TableAfter(f, run) == Track(Mapped(k => KeyBytes(f, k), Flows(f, run)))
  {
    hide Tracked, Flow, KeyBytes, TrackOne;
    if run != [] {
      var init, last := run[..|run| - 1], run[|run| - 1];
      TableTracksKeys(f, init);
      var before, after := Flows(f, init), Flows(f, run);
      if Tracked(f, last) {
        var encode := k => KeyBytes(f, k);
        assert Mapped(encode, after)[..|before|] == Mapped(encode, before);
        assert Mapped(encode, after)[|before|] == KeyBytes(f, Flow(f, last));
      } else {
        assert after == before;
      }
    }
  }

  /** After any run the table lists the distinct flows in the order of their first packets,
      and there is one entry for each. */
  lemma OneEntryPerFlow(f: Family, run: seq<Arrival>)
    ensures TableAfter(f, run) == Mapped(k => KeyBytes(f, k), FirstOccurrences(Flows(f, run)))
    ensures |TableAfter(f, run)| == |set k | k in Flows(f, run)|
  {
    hide KeyBytes;
    var flows := Flows(f, run);
    var encode := k => KeyBytes(f, k);
    TableTracksKeys(f, run);
    TrackedInOrder(Mapped(encode, flows));
    forall j, k | j in flows && k in flows && encode(j) == encode(k) ensures j == k {
      KeyInjective(f, j, k);
    }
    FirstOccurrencesMapped(encode, flows);
    FirstOccurrencesCount(flows, set k | k in flows);
  }

  /** The keys of the packets that are tracked, in order of arrival. */
  function KeysOf(f: Family, run: seq<Arrival>): seq<Key> {
    if run == [] then [] else
    var last := run[|run| - 1];
    KeysOf(f, run[..|run| - 1]) + if Followed(f, last.bytes) then [KeyFor(f, last.bytes, last.port)] else []
  }

  lemma {:induction false} KeysAreFlows(f: Family, run: seq<Arrival>)
    ensures KeysOf(f, run) == Mapped(k => KeyBytes(f, k), Flows(f, run))
  {
    hide Tracked, Followed, Flow, KeyBytes, KeyFor, Parse, KeyOf;
    if run != [] {
      var init, last := run[..|run| - 1], run[|run| - 1];
      KeysAreFlows(f, init);
      TrackedExactly(f, last);
      var encode := k => KeyBytes(f, k);
      if Tracked(f, last) {
        KeyExpected(f, last);
        KeyOfFlow(f, last);
        assert Mapped(encode, Flows(f, run)) == Mapped(encode, Flows(f, init)) + [KeyBytes(f, Flow(f, last))];
      } else {
        assert Flows(f, run) == Flows(f, init);
      }
    }
  }

  lemma KeyOfFlow(f: Family, a: Arrival)
    requires Tracked(f, a)
    ensures PacketKey(f, a.bytes, a.port) == KeyBytes(f, Flow(f, a))
  {
    hide Parse, KeyOf, KeyBytes;
  }

  /** The table after a run, read off the bytes: every key where it occurs first. */
  lemma TableOnBytes(f: Family, run: seq<Arrival>)
    ensures TableAfter(f, run) == FirstOccurrences(KeysOf(f, run))
  {
    TableTracksKeys(f, run);
    KeysAreFlows(f, run);
    TrackedInOrder(KeysOf(f, run));
  }

  /** The tracker run on one packet after the other, with one scratch area and one table: the table
      lists the keys of the tracked packets where they occur first, and every one of these packets
      leaves as it came, by the port it was bound for. */
  method TrackRun(f: Family, run: seq<Arrival>, egressPort: bv32)
    returns (table: KernelTable, sent: seq<seq<bv8>>, verdicts: seq<Verdict>)
    ensures table.entries == FirstOccurrences(KeysOf(f, run))
    ensures |sent| == |run| && forall k :: 0 <= k < |run| ==> sent[k] == run[k].bytes
    ensures |verdicts| == |run|
    ensures forall k :: 0 <= k < |run| ==>
              verdicts[k] == if !Followed(f, run[k].bytes) then Shot
                             else if egressPort == 0 then ToHost else Redirect(egressPort)
  {
    hide Parse, KeyOf, KeyBytes, TrackOne, Followed, KeyFor;
    table := new KernelTable();
    sent, verdicts := [], [];
    var md := new HdrMd(f);
    for i := 0 to |run|
      invariant fresh(table) && fresh(md) && md.family == f
      invariant table.entries == TableAfter(f, run[..i])
      invariant |sent| == i && forall k :: 0 <= k < i ==> sent[k] == run[k].bytes
      invariant |verdicts| == i
      invariant forall k :: 0 <= k < i ==>
                  verdicts[k] == if !Followed(f, run[k].bytes) then Shot
                                 else if egressPort == 0 then ToHost else Redirect(egressPort)
    {
      TrackedExactly(f, run[i]);
      var pkt := Buffer(run[i].bytes);
      var skb := new Skb(pkt, run[i].port);
      var g := new GlobalMetadata(false, egressPort);
      var verdict := FlowTracker.Node(skb, md, g, table, true, true);
      sent, verdicts := sent + [skb.data[..]], verdicts + [verdict];
      assert run[..i + 1][..i] == run[..i];
    }
    assert run[..|run|] == run;
    TableOnBytes(f, run);
  }
}
