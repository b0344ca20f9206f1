/** Client code driving one manager through the operations, checked against
    the contracts alone. */
module Scenarios {
  import opened Ledger
  import opened Taps
  import opened IioManager

  /** The arbitration over two registered valves. */
  lemma MaxOfTwo(x: Tap, y: Tap, enabled: set<Node>)
    ensures MaxEnabled([x, y], enabled) ==
      var m := if x.valve in enabled then x.size else 0;
      if y.valve in enabled && m < y.size then y.size else m
  {
    assert [x, y][..1] == [x];
    assert [x][..0] == [];
    assert MaxEnabled([x], enabled) == if x.valve in enabled then x.size else 0;
  }

  /** Two consumers on a four-channel device: A asks for 1024 samples without
      conversion, B for 4096 with conversion. */
  method ConnectBoth() returns (m: Manager, a: Node, b: Node)
    ensures fresh(m) && m.Valid() && m.Consistent()
    ensures m.taps == [Tap(a, 1024), Tap(b, 4096)] && a != b && m.IsValve(a) && m.IsValve(b)
    ensures m.enabled == {} && !m.started && m.log == []
  {
    m := new Manager(0, 4, 512);
    a := m.Connect(Block(1), 0, 0, false, 1024);
    b := m.Connect(Block(2), 1, 0, true, 4096);
  }

  /** Both start: the pipeline starts once, and the buffer follows the
      largest open request. */
  method StartBoth(m: Manager, a: Node, b: Node)
    requires m.Valid() && m.Consistent()
    requires m.taps == [Tap(a, 1024), Tap(b, 4096)] && a != b && m.IsValve(a) && m.IsValve(b)
    requires m.enabled == {} && !m.started && m.log == []
    modifies m`enabled, m`started, m`bufferSize, m`log
    ensures m.Valid() && m.Consistent()
    ensures m.enabled == {a, b} && m.started && m.bufferSize == 4096
    ensures m.log == [Reconfigure(1024), PipelineStart, Reconfigure(4096)]
  {
    m.Start(a);
    assert m.enabled == {a};
    MaxOfTwo(Tap(a, 1024), Tap(b, 4096), m.enabled);
    assert m.log == [Reconfigure(1024), PipelineStart];
    m.Start(b);
    assert m.enabled == {a, b};
    MaxOfTwo(Tap(a, 1024), Tap(b, 4096), m.enabled);
  }

  /** A stops first: B keeps the pipeline running at 4096; B stops: the
      pipeline is stopped and joined. */
  method StopBoth(m: Manager, a: Node, b: Node)
    requires m.Valid() && m.Consistent()
    requires m.taps == [Tap(a, 1024), Tap(b, 4096)] && a != b && m.IsValve(a) && m.IsValve(b)
    requires m.enabled == {a, b} && m.started && m.bufferSize == 4096
    modifies m`enabled, m`started, m`bufferSize, m`log
    ensures m.Valid() && m.Consistent() && !m.started && m.enabled == {} && m.bufferSize == 4096
    ensures m.log == old(m.log) + [Reconfigure(4096), PipelineStop, PipelineWait]
  {
    m.Stop(a);
    assert m.enabled == {b};
    assert m.taps[1].valve in m.enabled;
    MaxOfTwo(Tap(a, 1024), Tap(b, 4096), m.enabled);
    assert m.log == old(m.log) + [Reconfigure(4096)];
    m.Stop(b);
    assert m.enabled == {};
  }

  /** The whole two-consumer history. */
  method TwoConsumers() returns (m: Manager)
    ensures m.Valid() && !m.started && m.bufferSize == 4096
    ensures m.log == [Reconfigure(1024), PipelineStart, Reconfigure(4096), Reconfigure(4096), PipelineStop, PipelineWait]
  {
    var a, b;
    m, a, b := ConnectBoth();
    StartBoth(m, a, b);
    StopBoth(m, a, b);
  }

  /** Disconnecting a consumer leaves the edge from the source into its valve
      in the ledger, while the engine has dropped it with the valve. */
  method StaleSourceEdge() returns (m: Manager, h: Node)
    ensures m.Valid() && m.IsValve(h) && !HasValve(m.taps, h)
    ensures Edge(Source, 0, h, 0) in m.ledger && Edge(Source, 0, h, 0) !in m.graph
    ensures !m.Mirrors()
  {
    m := new Manager(0, 1, 64);
    h := m.Connect(Block(0), 0, 0, false, 64);
    ghost var before := m.ledger;
    assert before == [Edge(Source, 0, h, 0), Edge(h, 0, Block(0), 0)];
    RootedMembers(before);
    m.Disconnect(h, {});
    RootedMembers(m.ledger);
    assert Edge(Source, 0, h, 0) in Rooted(before);
    assert Edge(Source, 0, h, 0) in LedgerSet(m.ledger);
  }

  /** The corrected disconnect on the same history keeps the ledger and the
      engine in step. */
  method PurgedSourceEdge() returns (m: Manager, h: Node)
    ensures m.Valid() && m.IsValve(h) && !HasValve(m.taps, h)
    ensures Edge(Source, 0, h, 0) !in m.ledger
    ensures m.Mirrors()
  {
    m := new Manager(0, 1, 64);
    h := m.Connect(Block(0), 0, 0, false, 64);
    m.DisconnectPurged(h, {});
  }

  /** A on block 1 without conversion, B on block 2 through a converter. */
  method ConnectSeparate() returns (m: Manager, a: Node, b: Node)
    ensures fresh(m) && m.Valid() && m.Mirrors() && a == Copy(0) && b == Copy(1)
    ensures m.taps == [Tap(a, 1024), Tap(b, 4096)]
    ensures m.ledger == [Edge(Source, 0, a, 0), Edge(a, 0, Block(1), 0),
      Edge(Source, 1, b, 0), Edge(b, 0, ToFloat(1), 0), Edge(ToFloat(1), 0, Block(2), 0)]
  {
    m := new Manager(0, 4, 512);
    a := m.Connect(Block(1), 0, 0, false, 1024);
    b := m.Connect(Block(2), 1, 0, true, 4096);
  }

  /** Two consumers with sub-graphs of their own: disconnecting A leaves every
      edge of B, the one from the source included, in the ledger and the
      engine, and erases A's edge into its block. */
  method SeparateConsumers() returns (m: Manager, a: Node, b: Node)
    ensures m.Valid() && m.taps == [Tap(b, 4096)] && !HasValve(m.taps, a)
    ensures Edge(a, 0, Block(1), 0) !in m.ledger && Edge(a, 0, Block(1), 0) !in m.graph
    ensures forall e :: e in [Edge(Source, 1, b, 0), Edge(b, 0, ToFloat(1), 0), Edge(ToFloat(1), 0, Block(2), 0)] ==>
      e in m.ledger && e in m.graph
  {
    m, a, b := ConnectSeparate();
    ghost var before := m.ledger;
    ghost var c := {b, ToFloat(1), Block(2)};
    assert Closed(before, c);
    RootedMembers(before);
    m.Disconnect(a, c);
    ghost var after := m.ledger;
    RootedMembers(after);
    assert Edge(Source, 1, b, 0) in Rooted(before);
    assert Edge(b, 0, ToFloat(1), 0) in before && Edge(ToFloat(1), 0, Block(2), 0) in before;
  }

  /** A on block 1 port 0 and B on block 1 port 1, both without conversion. */
  method ConnectShared() returns (m: Manager, a: Node, b: Node)
    ensures fresh(m) && m.Valid() && m.Mirrors() && a == Copy(0) && b == Copy(1)
    ensures m.taps == [Tap(a, 1024), Tap(b, 1024)]
    ensures m.ledger == [Edge(Source, 0, a, 0), Edge(a, 0, Block(1), 0), Edge(Source, 1, b, 0), Edge(b, 0, Block(1), 1)]
  {
    m := new Manager(0, 2, 512);
    a := m.Connect(Block(1), 0, 0, false, 1024);
    b := m.Connect(Block(1), 1, 1, false, 1024);
  }

  /** Two consumers feeding one block: disconnecting A also erases the edge
      from B's valve into the shared block, while B stays registered. */
  method SharedDestination() returns (m: Manager, a: Node, b: Node)
    ensures m.Valid() && m.taps == [Tap(b, 1024)] && HasValve(m.taps, b) && !HasValve(m.taps, a)
    ensures Edge(Source, 1, b, 0) in m.ledger
    ensures Edge(b, 0, Block(1), 1) !in m.ledger && Edge(b, 0, Block(1), 1) !in m.graph
  {
    m, a, b := ConnectShared();
    ghost var before := m.ledger;
    RootedMembers(before);
    m.Disconnect(a, {});
    ghost var after := m.ledger;
    RootedMembers(after);
    assert Edge(Source, 1, b, 0) in Rooted(before);
    assert Edge(a, 0, Block(1), 0) !in after;
    assert Cleared(after, Block(1));
    assert m.taps[0].valve == b;
  }

  /** A on block 1 port 0 without conversion, B on block 1 port 1 through a converter. */
  method ConnectSharedConverted() returns (m: Manager, a: Node, b: Node)
    ensures fresh(m) && m.Valid() && m.Mirrors() && a == Copy(0) && b == Copy(1)
    ensures m.taps == [Tap(a, 1024), Tap(b, 1024)]
    ensures m.ledger == [Edge(Source, 0, a, 0), Edge(a, 0, Block(1), 0),
      Edge(Source, 1, b, 0), Edge(b, 0, ToFloat(1), 0), Edge(ToFloat(1), 0, Block(1), 1)]
  {
    m := new Manager(0, 2, 512);
    a := m.Connect(Block(1), 0, 0, false, 1024);
    b := m.Connect(Block(1), 1, 1, true, 1024);
  }

  /** When B feeds the shared block through a converter, disconnecting A
      tears down B's converter too: only the edge from the source into B's
      valve is left of B. */
  method SharedDestinationConverted() returns (m: Manager, a: Node, b: Node)
    ensures m.Valid() && m.taps == [Tap(b, 1024)] && HasValve(m.taps, b)
    ensures Edge(Source, 1, b, 0) in m.ledger
    ensures Edge(b, 0, ToFloat(1), 0) !in m.ledger && Edge(ToFloat(1), 0, Block(1), 1) !in m.ledger
    ensures Edge(b, 0, ToFloat(1), 0) !in m.graph && Edge(ToFloat(1), 0, Block(1), 1) !in m.graph
  {
    m, a, b := ConnectSharedConverted();
    ghost var before := m.ledger;
    RootedMembers(before);
    m.Disconnect(a, {});
    ghost var after := m.ledger;
    RootedMembers(after);
    assert Edge(Source, 1, b, 0) in Rooted(before);
    assert Edge(a, 0, Block(1), 0) !in after;
    assert Cleared(after, Block(1));
    assert Edge(ToFloat(1), 0, Block(1), 1) !in after;
    assert Cleared(after, ToFloat(1));
    assert m.taps[0].valve == b;
  }

  /** Starting a handle after its disconnect re-enables the orphan valve and
      starts the pipeline with no registered valve open. */
  method StartAfterDisconnect() returns (m: Manager, h: Node)
    ensures m.Valid() && !HasValve(m.taps, h) && h in m.enabled
    ensures m.started && !AnyEnabled(m.taps, m.enabled) && !m.Consistent()
    ensures m.log == [PipelineStart]
  {
    m := new Manager(0, 1, 64);
    h := m.Connect(Block(0), 0, 0, false, 64);
    m.Disconnect(h, {});
    assert m.taps == [];
    m.Start(h);
  }

  /** The corrected start ignores the disconnected handle. */
  method StartAfterDisconnectIgnored() returns (m: Manager, h: Node)
    ensures m.Valid() && !HasValve(m.taps, h) && h !in m.enabled
    ensures !m.started && m.Consistent() && m.log == []
  {
    m := new Manager(0, 1, 64);
    h := m.Connect(Block(0), 0, 0, false, 64);
    m.Disconnect(h, {});
    m.StartRegistered(h);
  }
}
