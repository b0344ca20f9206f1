/** The tap (valve) registry of the IIO manager and the buffer-size
    arbitration over it. A tap pairs a valve block with the buffer size its
    consumer asked for; which valves are open is kept apart, as the set of
    valves whose enabled flag is set. */
module Taps {
  import opened Ledger

  /** One entry of the registry: a valve and its requested buffer size. */
  datatype Tap = Tap(valve: Node, size: nat)

  /** `h` is registered. */
  predicate HasValve(taps: seq<Tap>, h: Node)
  {
    exists i :: 0 <= i < |taps| && taps[i].valve == h
  }

  /** Some registered valve is enabled. */
  predicate AnyEnabled(taps: seq<Tap>, enabled: set<Node>)
  {
    exists i :: 0 <= i < |taps| && taps[i].valve in enabled
  }

  /** The largest size requested by an enabled tap, 0 when there is none;
      defined over prefixes, the way the arbitration loop visits the taps. */
  function MaxEnabled(taps: seq<Tap>, enabled: set<Node>): nat
    decreases |taps|
  {
    if taps == [] then 0
    else
      var m := MaxEnabled(taps[..|taps| - 1], enabled);
      var t := taps[|taps| - 1];
      if t.valve in enabled && m < t.size then t.size else m
  }

  /** MaxEnabled bounds every enabled request and, when positive, is one of them. */
  lemma {:induction false} MaxEnabledIsMaximum(taps: seq<Tap>, enabled: set<Node>)
    ensures forall i :: 0 <= i < |taps| && taps[i].valve in enabled ==> taps[i].size <= MaxEnabled(taps, enabled)
    ensures MaxEnabled(taps, enabled) > 0 ==>
      exists i :: 0 <= i < |taps| && taps[i].valve in enabled && taps[i].size == MaxEnabled(taps, enabled)
    decreases |taps|
  {
    if taps != [] {
      var init := taps[..|taps| - 1];
      MaxEnabledIsMaximum(init, enabled);
      forall i | 0 <= i < |taps| - 1 ensures taps[i] == init[i] { }
      if MaxEnabled(taps, enabled) > 0 && MaxEnabled(taps, enabled) == MaxEnabled(init, enabled) {
        var j :| 0 <= j < |init| && init[j].valve in enabled && init[j].size == MaxEnabled(init, enabled);
        assert taps[j] == init[j];
      }
    }
  }

  /** The effective buffer size after an arbitration pass over `taps` when
      the current one is `current`: the largest enabled request, or `current`
      when that is 0. */
  function Arbitrate(taps: seq<Tap>, enabled: set<Node>, current: nat): nat
  {
    var m := MaxEnabled(taps, enabled);
    if m > 0 then m else current
  }

  /** The arbitrated size is the maximum request of the enabled taps when one
      of them asks for a nonzero size, and otherwise the current size; it is
      therefore never made 0. */
  lemma ArbitrateSpec(taps: seq<Tap>, enabled: set<Node>, current: nat)
    ensures (exists i :: 0 <= i < |taps| && taps[i].valve in enabled && taps[i].size > 0) ==>
      (forall i :: 0 <= i < |taps| && taps[i].valve in enabled ==> taps[i].size <= Arbitrate(taps, enabled, current)) &&
      (exists i :: 0 <= i < |taps| && taps[i].valve in enabled && taps[i].size == Arbitrate(taps, enabled, current))
    ensures (forall i :: 0 <= i < |taps| && taps[i].valve in enabled ==> taps[i].size == 0) ==>
      Arbitrate(taps, enabled, current) == current
    ensures current > 0 ==> Arbitrate(taps, enabled, current) > 0
  {
    MaxEnabledIsMaximum(taps, enabled);
  }

  /** The arbitration loop of update_buffer_size_unlocked. */
  method ComputeMaxEnabled(taps: seq<Tap>, enabled: set<Node>) returns (size: nat)
    ensures size == MaxEnabled(taps, enabled)
  {
    size := 0;
    var i := 0;
    while i < |taps|
      invariant i <= |taps|
      invariant size == MaxEnabled(taps[..i], enabled)
    {
      assert taps[..i + 1][..i] == taps[..i];
      if taps[i].valve in enabled && size < taps[i].size {
        size := taps[i].size;
      }
      i := i + 1;
    }
    assert taps[..i] == taps;
  }

  /** The in-use scan of `stop`: it ends at the first enabled valve. */
  method ScanInUse(taps: seq<Tap>, enabled: set<Node>) returns (inuse: bool)
    ensures inuse == AnyEnabled(taps, enabled)
  {
    inuse := false;
    var i := 0;
    while !inuse && i < |taps|
      invariant i <= |taps|
      invariant inuse ==> AnyEnabled(taps, enabled)
      invariant !inuse ==> forall j :: 0 <= j < i ==> taps[j].valve !in enabled
    {
      inuse := taps[i].valve in enabled;
      i := i + 1;
    }
  }

  /** The registry search of `disconnect` and `set_buffer_size`: the index of
      the first tap whose valve is `h`, or |taps|. */
  method FindTap(taps: seq<Tap>, h: Node) returns (i: nat)
    ensures i <= |taps|
    ensures forall j :: 0 <= j < i ==> taps[j].valve != h
    ensures i < |taps| ==> taps[i].valve == h
  {
    i := 0;
    while i < |taps| && taps[i].valve != h
      invariant i <= |taps|
      invariant forall j :: 0 <= j < i ==> taps[j].valve != h
    {
      i := i + 1;
    }
  }

  /** The registry after `set_buffer_size(h, size)`: the first tap of `h` asks for `size`. */
  function Resize(taps: seq<Tap>, h: Node, size: nat): seq<Tap>
  {
    if taps == [] then []
    else if taps[0].valve == h then [Tap(h, size)] + taps[1..]
    else [taps[0]] + Resize(taps[1..], h, size)
  }

  /** Resize changes the size of the first tap of `h` and nothing else. */
  lemma {:induction false} ResizeSpec(taps: seq<Tap>, h: Node, size: nat, i: nat)
    requires i <= |taps|
    requires forall j :: 0 <= j < i ==> taps[j].valve != h
    requires i < |taps| ==> taps[i].valve == h
    ensures Resize(taps, h, size) == if i < |taps| then taps[i := Tap(h, size)] else taps
  {
    if taps != [] && i > 0 {
      ResizeSpec(taps[1..], h, size, i - 1);
      if i < |taps| {
        assert [taps[0]] + taps[1..][i - 1 := Tap(h, size)] == taps[i := Tap(h, size)];
      } else {
        assert [taps[0]] + taps[1..] == taps;
      }
    }
  }

  /** Resize keeps the valves, in order. */
  lemma {:induction false} ResizeValves(taps: seq<Tap>, h: Node, size: nat)
    ensures |Resize(taps, h, size)| == |taps|
    ensures forall j :: 0 <= j < |taps| ==> Resize(taps, h, size)[j].valve == taps[j].valve
    ensures forall j :: 0 <= j < |taps| && taps[j].valve != h ==> Resize(taps, h, size)[j] == taps[j]
  {
    if taps != [] && taps[0].valve != h {
      ResizeValves(taps[1..], h, size);
    }
  }

  /** The registry after `disconnect(h)`: the first tap of `h` is erased. */
  function RemoveTap(taps: seq<Tap>, h: Node): seq<Tap>
  {
    if taps == [] then []
    else if taps[0].valve == h then taps[1..]
    else [taps[0]] + RemoveTap(taps[1..], h)
  }

  /** RemoveTap erases exactly the first tap of `h`, if there is one. */
  lemma {:induction false} RemoveTapSpec(taps: seq<Tap>, h: Node, i: nat)
    requires i <= |taps|
    requires forall j :: 0 <= j < i ==> taps[j].valve != h
    requires i < |taps| ==> taps[i].valve == h
    ensures RemoveTap(taps, h) == if i < |taps| then RemoveAt(taps, i) else taps
  {
    if taps != [] && i > 0 {
      RemoveTapSpec(taps[1..], h, i - 1);
      if i < |taps| {
        assert [taps[0]] + RemoveAt(taps[1..], i - 1) == RemoveAt(taps, i);
      } else {
        assert [taps[0]] + taps[1..] == taps;
      }
    }
  }
}
