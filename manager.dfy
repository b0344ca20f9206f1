/** The per-device IIO manager: one shared device source whose stream is
    split to many consumers, each through a valve of its own. */
module IioManager {
  import opened Ledger
  import opened Taps

  /** The calls the manager makes into the dataflow runtime that are not
      graph edits: starting, stopping and joining the top block, and
      reconfiguring the device source's buffer size. */
  datatype RuntimeCall = PipelineStart | PipelineStop | PipelineWait | Reconfigure(size: nat)

  /** The edges the constructor wires for `n` channels: every channel output
      of the source through the dummy copy block into the null sink. */
  function DummyEdges(n: nat): set<Edge>
  {
    if n == 0 then {}
    else DummyEdges(n - 1) + {Edge(Source, n - 1, DummyCopy, n - 1), Edge(DummyCopy, n - 1, NullSink, n - 1)}
  }

  /** The dummy wiring touches only the source and the two dummy blocks. */
  lemma {:induction false} DummyEdgesShape(n: nat)
    ensures forall e :: e in DummyEdges(n) ==>
      (e.src == Source || e.src == DummyCopy) && (e.dst == DummyCopy || e.dst == NullSink)
  {
    if n > 0 {
      DummyEdgesShape(n - 1);
    }
  }

  /** A valve or converter id below `bound` was handed out already. */
  predicate Below(n: Node, bound: nat)
  {
    (n.Copy? || n.ToFloat?) ==> n.id < bound
  }

  /** The runtime call issued by an arbitration pass. */
  function Reconfig(taps: seq<Tap>, enabled: set<Node>): seq<RuntimeCall>
  {
    var m := MaxEnabled(taps, enabled);
    if m > 0 then [Reconfigure(m)] else []
  }

  /** The edges `connect` records for valve `h`: source port -> valve, then
      valve -> destination, through a converter when floats are asked for. */
  function ConnectEdges(h: Node, srcPort: int, dst: Node, dstPort: int, useFloat: bool): seq<Edge>
    requires h.Copy?
  {
    if useFloat then
      [Edge(Source, srcPort, h, 0), Edge(h, 0, ToFloat(h.id), 0), Edge(ToFloat(h.id), 0, dst, dstPort)]
    else
      [Edge(Source, srcPort, h, 0), Edge(h, 0, dst, dstPort)]
  }

  /** Appending edges that each touch a block not yet handed out keeps the
      ledger free of duplicates and every recorded block allocated. */
  lemma FreshEdgesAppend(ledger: seq<Edge>, added: seq<Edge>, bound: nat)
    requires NoDup(ledger) && NoDup(added)
    requires forall e :: e in ledger ==> Below(e.src, bound) && Below(e.dst, bound)
    requires forall e :: e in added ==> !Below(e.src, bound) || !Below(e.dst, bound)
    requires forall e :: e in added ==> Below(e.src, bound + 1) && Below(e.dst, bound + 1)
    requires SourceIsRoot(ledger) && SourceIsRoot(added)
    ensures NoDup(ledger + added) && SourceIsRoot(ledger + added)
    ensures forall e :: e in ledger + added ==> Below(e.src, bound + 1) && Below(e.dst, bound + 1)
    ensures LedgerSet(ledger + added) == LedgerSet(ledger) + LedgerSet(added)
  {
    var s := ledger + added;
    forall i, j | 0 <= i < j < |s| ensures s[i] != s[j] {
      if i < |ledger| && j >= |ledger| {
        assert s[i] in ledger && s[j] in added;
      } else if i >= |ledger| {
        assert s[i] == added[i - |ledger|] && s[j] == added[j - |ledger|];
      }
    }
  }

  /** Registering a valve with a fresh id keeps the valves distinct and,
      the valve being closed, leaves AnyEnabled as it was. */
  lemma TapsAppendFresh(taps: seq<Tap>, t: Tap, bound: nat, enabled: set<Node>, started: bool)
    requires forall i :: 0 <= i < |taps| ==> taps[i].valve.Copy? && taps[i].valve.id < bound
    requires forall i, j :: 0 <= i < j < |taps| ==> taps[i].valve != taps[j].valve
    requires t.valve == Copy(bound) && t.valve !in enabled
    requires AnyEnabled(taps, enabled) ==> started
    ensures forall i :: 0 <= i < |taps + [t]| ==> (taps + [t])[i].valve.Copy? && (taps + [t])[i].valve.id < bound + 1
    ensures forall i, j :: 0 <= i < j < |taps + [t]| ==> (taps + [t])[i].valve != (taps + [t])[j].valve
    ensures AnyEnabled(taps + [t], enabled) == AnyEnabled(taps, enabled)
  {
    var s := taps + [t];
    assert forall k :: 0 <= k < |taps| ==> s[k] == taps[k];
    if AnyEnabled(s, enabled) {
      var k :| 0 <= k < |s| && s[k].valve in enabled;
      assert k < |taps|;
    }
    if AnyEnabled(taps, enabled) {
      var k :| 0 <= k < |taps| && taps[k].valve in enabled;
      assert s[k].valve in enabled;
    }
  }

  class Manager {
    const id: nat
    ghost const channels: nat
    /** copy_blocks: the registered valves and their requested sizes. */
    var taps: seq<Tap>
    /** The valves whose enabled flag is set. */
    var enabled: set<Node>
    /** connections: the edges recorded by this manager. */
    var ledger: seq<Edge>
    /** _started */
    var started: bool
    /** buffer_size: the effective buffer size of the device source. */
    var bufferSize: nat
    /** Stands for block allocation: the next fresh valve/converter id. */
    var nextBlock: nat
    /** The edges present in the dataflow engine. */
    ghost var graph: set<Edge>
    /** The constructor's dummy edges, which never enter the ledger. */
    ghost const dummy: set<Edge>
    /** The runtime calls issued so far. */
    ghost var log: seq<RuntimeCall>

    /** `h` is a valve this manager has created. */
    predicate IsValve(h: Node)
      reads this
    {
      h.Copy? && h.id < nextBlock
    }

    /** The invariant every operation keeps. */
    ghost predicate Valid()
      reads this
    {
      (forall i :: 0 <= i < |taps| ==> IsValve(taps[i].valve)) &&
      (forall i, j :: 0 <= i < j < |taps| ==> taps[i].valve != taps[j].valve) &&
      (forall n :: n in enabled ==> IsValve(n)) &&
      (forall e :: e in ledger ==> Below(e.src, nextBlock) && Below(e.dst, nextBlock)) &&
      SourceIsRoot(ledger) &&
      NoDup(ledger) &&
      dummy == DummyEdges(channels) &&
      (AnyEnabled(taps, enabled) ==> started)
    }

    /** The converse of the last conjunct of Valid: the manager is started only
        while some registered valve is enabled. */
    ghost predicate Consistent()
      reads this
    {
      started ==> AnyEnabled(taps, enabled)
    }

    /** The ledger mirrors the engine's edges, apart from the dummy wiring. */
    ghost predicate Mirrors()
      reads this
    {
      graph == dummy + LedgerSet(ledger) && dummy !! LedgerSet(ledger)
    }

    /** The constructor, past its device checks (see Registry.Resolve): the
        source with no channels enabled and every channel wired to the dummy sink. */
    constructor (id: nat, channels: nat, bufferSize: nat)
      ensures this.id == id && this.channels == channels && this.bufferSize == bufferSize
      ensures taps == [] && enabled == {} && ledger == [] && !started && nextBlock == 0 && log == []
      ensures graph == dummy == DummyEdges(channels)
      ensures Valid() && Consistent() && Mirrors()
    {
      ghost var g: set<Edge> := {};
      for i := 0 to channels
        invariant g == DummyEdges(i)
      {
        g := g + {Edge(Source, i, DummyCopy, i), Edge(DummyCopy, i, NullSink, i)};
      }
      this.id := id;
      this.channels := channels;
      this.bufferSize := bufferSize;
      taps, enabled, ledger, started, nextBlock := [], {}, [], false, 0;
      graph, dummy, log := g, g, [];
    }

    /** update_buffer_size_unlocked: the largest enabled request becomes the
        source's buffer size; when it is 0 nothing is reconfigured. */
    method UpdateBufferSize()
      modifies this`bufferSize, this`log
      ensures bufferSize == Arbitrate(taps, enabled, old(bufferSize))
      ensures log == old(log) + Reconfig(taps, enabled)
    {
      var size := ComputeMaxEnabled(taps, enabled);
      if size > 0 {
        log := log + [Reconfigure(size)];
        bufferSize := size;
      }
    }

    /** The ledger-level connect: record the edge, then make it. */
    method LedgerConnect(src: Node, srcPort: int, dst: Node, dstPort: int)
      modifies this`ledger, this`graph
      ensures ledger == old(ledger) + [Edge(src, srcPort, dst, dstPort)]
      ensures graph == old(graph) + {Edge(src, srcPort, dst, dstPort)}
    {
      var e := Edge(src, srcPort, dst, dstPort);
      ledger := ledger + [e];
      graph := graph + {e};
    }

    /** The ledger-level disconnect: erase the first recorded copy of the
        edge, if any, then remove the edge from the engine. */
    method LedgerDisconnect(src: Node, srcPort: int, dst: Node, dstPort: int)
      modifies this`ledger, this`graph
      ensures ledger == RemoveFirst(old(ledger), Edge(src, srcPort, dst, dstPort))
      ensures graph == old(graph) - {Edge(src, srcPort, dst, dstPort)}
      ensures old(Mirrors()) && NoDup(old(ledger)) && Edge(src, srcPort, dst, dstPort) !in dummy ==> Mirrors()
    {
      var e := Edge(src, srcPort, dst, dstPort);
      var i := IndexOf(ledger, e);
      if i < |ledger| {
        RemoveFirstAt(ledger, e, i);
        if NoDup(ledger) {
          LedgerSetRemoveAt(ledger, i);
        }
        ledger := RemoveAt(ledger, i);
      } else {
        RemoveFirstAbsent(ledger, e);
      }
      graph := graph - {e};
    }

    /** del_connection: forward, erase every edge leaving `block` and tear
        down backwards from its destination; backward, erase every edge
        entering `block` except those from the source, tear down backwards
        from their sources, then forward from `block`. The ghost set `c` is any
        sub-graph the teardown must leave alone: when `block` lies outside it
        and no edge but the source's crosses its boundary, its edges stay. */
    method DelConnection(block: Node, reverse: bool, ghost c: set<Node>)
      requires NoDup(ledger)
      modifies this`ledger, this`graph
      decreases |ledger|, if reverse then 1 else 0
      ensures SubSeq(ledger, old(ledger)) && NoDup(ledger)
      ensures graph == old(graph) - (LedgerSet(old(ledger)) - LedgerSet(ledger))
      ensures forall e :: e in ledger ==> e.src != block
      ensures reverse ==> Cleared(ledger, block)
      ensures forall e :: e in old(ledger) && e !in ledger ==> Cleared(ledger, e.dst)
      ensures forall e :: e in old(ledger) && e !in ledger ==> Cleared(ledger, e.src) || (!reverse && e.src == block)
      ensures block != Source && SourceIsRoot(old(ledger)) ==> Rooted(ledger) == Rooted(old(ledger))
      ensures block != Source && SourceIsRoot(old(ledger)) && block !in c && Closed(old(ledger), c) ==>
        Kept(old(ledger), ledger, c)
    {
      ghost var frame := block != Source && SourceIsRoot(ledger) && block !in c && Closed(ledger, c);
      SubSeqRefl(ledger);
      var found := true;
      while found
        invariant SubSeq(ledger, old(ledger)) && NoDup(ledger)
        invariant graph == old(graph) - (LedgerSet(old(ledger)) - LedgerSet(ledger))
        invariant !found ==> forall e :: e in ledger ==> !Matches(e, block, reverse)
        invariant ErasedTornDown(old(ledger), ledger, block, reverse)
        invariant block != Source && SourceIsRoot(old(ledger)) ==> Rooted(ledger) == Rooted(old(ledger))
        invariant frame ==> Kept(old(ledger), ledger, c)
        decreases |ledger| + (if found then 1 else 0)
      {
        found := false;
        var i := FindMatch(ledger, block, reverse);
        if i < |ledger| {
          ghost var before := ledger;
          ghost var g := graph;
          var e := ledger[i];
          SubSeqMembers(before, old(ledger));
          SubSeqRemoveAt(before, i);
          SubSeqTrans(RemoveAt(before, i), before, old(ledger));
          LedgerSetRemoveAt(before, i);
          RemoveAtNoDup(before, i);
          if block != Source {
            RootedRemoveAt(before, i);
          }
          graph := graph - {e};
          ledger := RemoveAt(ledger, i);
          ghost var mid := ledger;
          var far := if reverse then e.src else e.dst;
          if frame {
            FrameFar(old(ledger), before, mid, e, far, block, reverse, c);
          }
          DelConnection(far, true, c);
          SubSeqTrans(ledger, mid, old(ledger));
          SubSeqMembers(ledger, mid);
          SubSeqMembers(mid, old(ledger));
          ErasedStep(old(ledger), before, mid, ledger, e, far, block, reverse);
          assert LedgerSet(before) <= LedgerSet(old(ledger)) && LedgerSet(ledger) <= LedgerSet(mid);
          EraseGraph(old(graph), LedgerSet(old(ledger)), LedgerSet(before), LedgerSet(mid), LedgerSet(ledger), e);
          if frame {
            KeptStep(old(ledger), before, mid, ledger, e, c);
          }
          found := true;
        }
      }
      if reverse {
        ghost var mid := ledger;
        SubSeqMembers(ledger, old(ledger));
        assert frame ==> SourceIsRoot(mid) && Closed(mid, c);
        DelConnection(block, false, c);
        SubSeqTrans(ledger, mid, old(ledger));
        SubSeqMembers(ledger, mid);
        SubSeqMembers(mid, old(ledger));
        ErasedFinal(old(ledger), mid, ledger, block);
        assert LedgerSet(mid) <= LedgerSet(old(ledger)) && LedgerSet(ledger) <= LedgerSet(mid);
        EraseGraphTail(old(graph), LedgerSet(old(ledger)), LedgerSet(mid), LedgerSet(ledger));
      }
    }

    /** connect: register a new, disabled valve with the consumer's requested
        size, wire the source port to it and it to the destination (through a
        short-to-float converter when asked), and return it as the handle. */
    method Connect(dst: Node, srcPort: int, dstPort: int, useFloat: bool, size: nat) returns (h: Node)
      requires Valid() && dst.Block?
      modifies this`taps, this`ledger, this`graph, this`nextBlock
      ensures Valid()
      ensures h == Copy(old(nextBlock)) && nextBlock == old(nextBlock) + 1 && !old(IsValve(h)) && h !in enabled
      ensures taps == old(taps) + [Tap(h, size)]
      ensures ledger == old(ledger) + ConnectEdges(h, srcPort, dst, dstPort, useFloat)
      ensures |ledger| == |old(ledger)| + (if useFloat then 3 else 2)
      ensures ledger[|old(ledger)|] == Edge(Source, srcPort, h, 0)
      ensures graph == old(graph) + LedgerSet(ConnectEdges(h, srcPort, dst, dstPort, useFloat))
      ensures old(Mirrors()) ==> Mirrors()
      ensures old(Consistent()) ==> Consistent()
    {
      h := Copy(nextBlock);
      nextBlock := nextBlock + 1;
      taps := taps + [Tap(h, size)];
      // The valve is created disabled: it is fresh, so it is not in `enabled`.
      Wire(h, srcPort, dst, dstPort, useFloat);
      ghost var added := ConnectEdges(h, srcPort, dst, dstPort, useFloat);
      FreshEdgesAppend(old(ledger), added, old(nextBlock));
      if old(Mirrors()) {
        DummyEdgesShape(channels);
      }
      TapsAppendFresh(old(taps), Tap(h, size), old(nextBlock), enabled, started);
      assert forall i :: 0 <= i < |taps| ==> IsValve(taps[i].valve);
      assert forall n :: n in enabled ==> IsValve(n);
      assert forall e :: e in ledger ==> Below(e.src, nextBlock) && Below(e.dst, nextBlock);
    }

    /** The wiring half of `connect`: source port -> valve `h`, then valve ->
        destination, through a fresh converter when floats are asked for. */
    method Wire(h: Node, srcPort: int, dst: Node, dstPort: int, useFloat: bool)
      requires h.Copy?
      modifies this`ledger, this`graph
      ensures ledger == old(ledger) + ConnectEdges(h, srcPort, dst, dstPort, useFloat)
      ensures graph == old(graph) + LedgerSet(ConnectEdges(h, srcPort, dst, dstPort, useFloat))
    {
      LedgerConnect(Source, srcPort, h, 0);
      if useFloat {
        var conv := ToFloat(h.id);
        LedgerConnect(h, 0, conv, 0);
        LedgerConnect(conv, 0, dst, dstPort);
      } else {
        LedgerConnect(h, 0, dst, dstPort);
      }
    }

    /** The registry half of `disconnect`: close the valve and erase its
        first registry entry. */
    method Forget(h: Node)
      requires Valid() && IsValve(h)
      modifies this`enabled, this`taps
      ensures Valid()
      ensures enabled == old(enabled) - {h}
      ensures taps == RemoveTap(old(taps), h) && !HasValve(taps, h)
    {
      enabled := enabled - {h};
      var i := FindTap(taps, h);
      RemoveTapSpec(taps, h, i);
      if i < |taps| {
        ghost var before := taps;
        taps := RemoveAt(taps, i);
        forall k | 0 <= k < |taps| ensures taps[k] == before[if k < i then k else k + 1] { }
        if AnyEnabled(taps, enabled) {
          var k :| 0 <= k < |taps| && taps[k].valve in enabled;
          assert before[if k < i then k else k + 1].valve in old(enabled);
        }
      }
    }

    /** The teardown shared by both versions of `disconnect`: close the valve,
        erase its first registry entry, remove the edges leaving it with
        everything downstream. The edges of a sub-graph `c` the valve does
        not belong to are kept. */
    method Unregister(h: Node, ghost c: set<Node>)
      requires Valid() && IsValve(h)
      modifies this`enabled, this`taps, this`ledger, this`graph
      ensures Valid()
      ensures enabled == old(enabled) - {h}
      ensures taps == RemoveTap(old(taps), h) && !HasValve(taps, h)
      ensures SubSeq(ledger, old(ledger))
      ensures forall e :: e in ledger ==> e.src != h
      ensures forall e :: e in old(ledger) && e !in ledger ==> Cleared(ledger, e.dst)
      ensures forall e :: e in old(ledger) && e !in ledger ==> Cleared(ledger, e.src) || e.src == h
      ensures Rooted(ledger) == Rooted(old(ledger))
      ensures h !in c && Closed(old(ledger), c) ==> forall e :: e in old(ledger) && e.src in c ==> e in ledger
      ensures graph == old(graph) - (LedgerSet(old(ledger)) - LedgerSet(ledger))
    {
      Forget(h);
      DelConnection(h, false, c);
      SubSeqMembers(ledger, old(ledger));
    }

    /** disconnect, as written: unregister the valve, tear down what it feeds,
        then remove the valve from the engine. The edge from the source into the
        valve is not an outbound edge of the valve, and a backward scan never
        erases an edge leaving the source, so that edge stays in the ledger
        while the engine drops it with the valve. `started` is not touched.
        The teardown stops at nothing but the source: every block an erased
        edge led into is torn down too, even one that another valve feeds. */
    method Disconnect(h: Node, ghost c: set<Node>)
      requires Valid() && IsValve(h)
      modifies this`enabled, this`taps, this`ledger, this`graph
      ensures Valid()
      ensures enabled == old(enabled) - {h}
      ensures taps == RemoveTap(old(taps), h) && !HasValve(taps, h)
      ensures SubSeq(ledger, old(ledger))
      ensures forall e :: e in ledger ==> e.src != h
      ensures forall e :: e in old(ledger) && e !in ledger ==> Cleared(ledger, e.dst)
      ensures forall e :: e in old(ledger) && e !in ledger ==> Cleared(ledger, e.src) || e.src == h
      ensures Rooted(ledger) == Rooted(old(ledger))
      ensures h !in c && Closed(old(ledger), c) ==> forall e :: e in old(ledger) && e.src in c ==> e in ledger
      ensures graph == Detach(old(graph) - (LedgerSet(old(ledger)) - LedgerSet(ledger)), h)
    {
      Unregister(h, c);
      graph := Detach(graph, h);
    }

    /** Erase every ledger entry that enters `n`, removing each from the engine. */
    method PurgeInbound(n: Node)
      requires NoDup(ledger)
      modifies this`ledger, this`graph
      ensures SubSeq(ledger, old(ledger)) && NoDup(ledger)
      ensures forall e :: e in ledger ==> e.dst != n
      ensures forall e :: e in old(ledger) && e.dst != n ==> e in ledger
      ensures graph == old(graph) - (LedgerSet(old(ledger)) - LedgerSet(ledger))
    {
      SubSeqRefl(ledger);
      var i: nat := FindInbound(ledger, n);
      while i < |ledger|
        invariant i <= |ledger|
        invariant i < |ledger| ==> ledger[i].dst == n
        invariant i == |ledger| ==> forall e :: e in ledger ==> e.dst != n
        invariant SubSeq(ledger, old(ledger)) && NoDup(ledger)
        invariant forall e :: e in old(ledger) && e.dst != n ==> e in ledger
        invariant graph == old(graph) - (LedgerSet(old(ledger)) - LedgerSet(ledger))
        decreases |ledger|
      {
        ghost var before := ledger;
        SubSeqMembers(before, old(ledger));
        SubSeqRemoveAt(before, i);
        SubSeqTrans(RemoveAt(before, i), before, old(ledger));
        LedgerSetRemoveAt(before, i);
        RemoveAtNoDup(before, i);
        graph := graph - {ledger[i]};
        ledger := RemoveAt(ledger, i);
        assert LedgerSet(ledger) == LedgerSet(before) - {before[i]};
        i := FindInbound(ledger, n);
      }
    }

    /** disconnect, corrected: as Disconnect, but the edges entering the valve
        are erased from the ledger too, so the ledger keeps mirroring the engine. */
    method DisconnectPurged(h: Node, ghost c: set<Node>)
      requires Valid() && IsValve(h)
      modifies this`enabled, this`taps, this`ledger, this`graph
      ensures Valid()
      ensures enabled == old(enabled) - {h}
      ensures taps == RemoveTap(old(taps), h) && !HasValve(taps, h)
      ensures SubSeq(ledger, old(ledger))
      ensures forall e :: e in ledger ==> e.src != h && e.dst != h
      ensures forall e :: e in old(ledger) && e !in ledger ==> Cleared(ledger, e.dst)
      ensures forall e :: e in old(ledger) && e !in ledger ==> Cleared(ledger, e.src) || e.src == h || e.dst == h
      ensures h !in c && Closed(old(ledger), c) ==>
        forall e :: e in old(ledger) && e.src in c && e.dst != h ==> e in ledger
      ensures old(Mirrors()) ==> Mirrors()
    {
      ghost var l0 := LedgerSet(ledger);
      Unregister(h, c);
      ghost var l1 := ledger;
      PurgeInbound(h);
      SubSeqTrans(ledger, l1, old(ledger));
      SubSeqMembers(ledger, l1);
      SubSeqMembers(l1, old(ledger));
      ClearedMono(ledger, l1);
      graph := Detach(graph, h);
      if old(Mirrors()) {
        DummyEdgesShape(channels);
        assert LedgerSet(ledger) <= LedgerSet(l1) <= l0;
        assert graph == dummy + LedgerSet(ledger);
      }
    }

    /** start: a no-op for an enabled valve; otherwise enable it, re-arbitrate
        the buffer size, and start the pipeline if it was not started. */
    method Start(h: Node)
      requires Valid() && IsValve(h)
      modifies this`enabled, this`started, this`bufferSize, this`log
      ensures Valid()
      ensures old(h in enabled) ==>
        enabled == old(enabled) && started == old(started) && bufferSize == old(bufferSize) && log == old(log)
      ensures old(h !in enabled) ==>
        enabled == old(enabled) + {h} && started &&
        bufferSize == Arbitrate(taps, enabled, old(bufferSize)) &&
        log == old(log) + Reconfig(taps, enabled) + (if old(started) then [] else [PipelineStart])
      ensures old(Consistent()) && (old(started) || HasValve(taps, h)) ==> Consistent()
    {
      if h in enabled {
        return;
      }
      enabled := enabled + {h};
      UpdateBufferSize();
      if !started {
        log := log + [PipelineStart];
      }
      started := true;
      if old(started) && old(Consistent()) {
        var k :| 0 <= k < |taps| && taps[k].valve in old(enabled);
      }
    }

    /** start, corrected: a handle that is no longer registered is ignored, so
        the manager is never started without an open registered valve. */
    method StartRegistered(h: Node)
      requires Valid()
      modifies this`enabled, this`started, this`bufferSize, this`log
      ensures Valid()
      ensures !HasValve(taps, h) || old(h in enabled) ==>
        enabled == old(enabled) && started == old(started) && bufferSize == old(bufferSize) && log == old(log)
      ensures HasValve(taps, h) && old(h !in enabled) ==>
        enabled == old(enabled) + {h} && started &&
        bufferSize == Arbitrate(taps, enabled, old(bufferSize)) &&
        log == old(log) + Reconfig(taps, enabled) + (if old(started) then [] else [PipelineStart])
      ensures old(Consistent()) ==> Consistent()
    {
      var i := FindTap(taps, h);
      if i == |taps| {
        return;
      }
      Start(h);
    }

    /** stop: a no-op when the manager is not started or the valve is closed;
        otherwise close it, and stop and join the pipeline when no registered
        valve is left open, or re-arbitrate the buffer size when one is. */
    method Stop(h: Node)
      requires Valid() && IsValve(h)
      modifies this`enabled, this`started, this`bufferSize, this`log
      ensures Valid()
      ensures !old(started) || old(h !in enabled) ==>
        enabled == old(enabled) && started == old(started) && bufferSize == old(bufferSize) && log == old(log)
      ensures old(started) && old(h in enabled) ==>
        enabled == old(enabled) - {h} &&
        if AnyEnabled(taps, enabled) then
          started && bufferSize == Arbitrate(taps, enabled, old(bufferSize)) &&
          log == old(log) + Reconfig(taps, enabled)
        else
          !started && bufferSize == old(bufferSize) && log == old(log) + [PipelineStop, PipelineWait]
      ensures old(Consistent()) ==> Consistent()
    {
      if !started || h !in enabled {
        return;
      }
      enabled := enabled - {h};
      var inuse := ScanInUse(taps, enabled);
      if !inuse {
        log := log + [PipelineStop, PipelineWait];
        started := false;
      } else {
        UpdateBufferSize();
      }
    }

    /** stop_all: stop every registered valve, in registry order. */
    method StopAll()
      requires Valid()
      modifies this`enabled, this`started, this`bufferSize, this`log
      ensures Valid()
      ensures forall n :: n in enabled <==> n in old(enabled) && !HasValve(taps, n)
      ensures old(Consistent()) ==> !started && Consistent()
    {
      var i := 0;
      while i < |taps|
        invariant i <= |taps|
        invariant Valid()
        invariant forall n :: n in enabled <==> n in old(enabled) && !(exists j :: 0 <= j < i && taps[j].valve == n)
        invariant old(Consistent()) ==> Consistent()
      {
        var h := taps[i].valve;
        if h in enabled {
          assert AnyEnabled(taps, enabled);
        }
        Stop(h);
        i := i + 1;
      }
    }

    /** set_buffer_size: the first registry entry of `h` asks for `size`, then
        the buffer size is re-arbitrated. */
    method SetBufferSize(h: Node, size: nat)
      requires Valid()
      modifies this`taps, this`bufferSize, this`log
      ensures Valid()
      ensures taps == Resize(old(taps), h, size)
      ensures bufferSize == Arbitrate(taps, enabled, old(bufferSize))
      ensures log == old(log) + Reconfig(taps, enabled)
      ensures old(Consistent()) ==> Consistent()
    {
      var i := FindTap(taps, h);
      ResizeSpec(taps, h, size, i);
      ResizeValves(taps, h, size);
      if i < |taps| {
        taps := taps[i := Tap(h, size)];
      }
      UpdateBufferSize();
      if AnyEnabled(taps, enabled) {
        var k :| 0 <= k < |taps| && taps[k].valve in enabled;
        assert old(taps)[k].valve in enabled;
      }
      if old(AnyEnabled(taps, enabled)) {
        var k :| 0 <= k < |old(taps)| && old(taps)[k].valve in enabled;
        assert taps[k].valve in enabled;
      }
    }
  }
}
