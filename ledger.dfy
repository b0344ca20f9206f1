/** The connection ledger of the IIO manager: the blocks of the flow graph,
    the edges between them, and the sequence operations the manager performs
    on its vector of recorded connections. */
module Ledger {

  /** A block of the dataflow graph. `Source` is the manager's shared IIO
      device source; `Copy(k)` is a valve created by `connect`, `ToFloat(k)`
      the short-to-float converter created with it; `DummyCopy` and `NullSink`
      are the constructor's placeholder consumers; `Block(b)` is a block of a
      caller's own sub-graph. */
  datatype Node = Source | Copy(id: nat) | ToFloat(id: nat) | DummyCopy | NullSink | Block(id: nat)

  /** One recorded connection (src, src_port) -> (dst, dst_port). */
  datatype Edge = Edge(src: Node, srcPort: int, dst: Node, dstPort: int)

  /** The set of edges a ledger records. */
  function LedgerSet(s: seq<Edge>): set<Edge>
  {
    set e | e in s
  }

  /** No edge is recorded twice. */
  ghost predicate NoDup<T>(s: seq<T>)
  {
    forall i, j :: 0 <= i < j < |s| ==> s[i] != s[j]
  }

  /** No recorded edge leads into the shared source: it is the root of the graph. */
  predicate SourceIsRoot(s: seq<Edge>)
  {
    forall e :: e in s ==> e.dst != Source
  }

  /** Erasing the entry at index `i` (std::vector::erase). */
  function RemoveAt<T>(s: seq<T>, i: nat): (r: seq<T>)
    requires i < |s|
    ensures |r| == |s| - 1
  {
    s[..i] + s[i + 1..]
  }

  /** `a` is obtained from `b` by deleting entries, keeping the order of the rest. */
  ghost predicate SubSeq<T>(a: seq<T>, b: seq<T>)
    decreases |b|
  {
    if b == [] then a == []
    else (a != [] && a[0] == b[0] && SubSeq(a[1..], b[1..])) || SubSeq(a, b[1..])
  }

  lemma {:induction false} SubSeqRefl<T>(a: seq<T>)
    ensures SubSeq(a, a)
  {
    if a != [] {
      SubSeqRefl(a[1..]);
    }
  }

  lemma {:induction false} SubSeqMembers<T>(a: seq<T>, b: seq<T>)
    requires SubSeq(a, b)
    ensures |a| <= |b|
    ensures forall x :: x in a ==> x in b
  {
    if b != [] {
      assert b == [b[0]] + b[1..];
      if a != [] && a[0] == b[0] && SubSeq(a[1..], b[1..]) {
        SubSeqMembers(a[1..], b[1..]);
        assert a == [a[0]] + a[1..];
      } else {
        SubSeqMembers(a, b[1..]);
      }
    }
  }

  lemma {:induction false} SubSeqRemoveAt<T>(s: seq<T>, i: nat)
    requires i < |s|
    ensures SubSeq(RemoveAt(s, i), s)
  {
    if i == 0 {
      assert RemoveAt(s, i) == s[1..];
      SubSeqRefl(s[1..]);
    } else {
      assert RemoveAt(s, i)[0] == s[0];
      assert RemoveAt(s, i)[1..] == RemoveAt(s[1..], i - 1);
      SubSeqRemoveAt(s[1..], i - 1);
    }
  }

  lemma {:induction false} SubSeqTrans<T>(a: seq<T>, b: seq<T>, c: seq<T>)
    requires SubSeq(a, b) && SubSeq(b, c)
    ensures SubSeq(a, c)
    decreases |c|
  {
    if c == [] {
    } else if b != [] && b[0] == c[0] && SubSeq(b[1..], c[1..]) {
      if a != [] && a[0] == b[0] && SubSeq(a[1..], b[1..]) {
        SubSeqTrans(a[1..], b[1..], c[1..]);
      } else {
        SubSeqTrans(a, b[1..], c[1..]);
      }
    } else {
      SubSeqTrans(a, b, c[1..]);
    }
  }

  lemma {:induction false} RemoveAtNoDup<T>(s: seq<T>, i: nat)
    requires i < |s| && NoDup(s)
    ensures NoDup(RemoveAt(s, i))
    ensures s[i] !in RemoveAt(s, i)
  {
    var r := RemoveAt(s, i);
    forall a, b | 0 <= a < b < |r| ensures r[a] != r[b] {
      var a' := if a < i then a else a + 1;
      var b' := if b < i then b else b + 1;
      assert r[a] == s[a'] && r[b] == s[b'];
    }
    forall k | 0 <= k < |r| ensures r[k] != s[i] {
      assert r[k] == s[if k < i then k else k + 1];
    }
  }

  lemma {:induction false} LedgerSetRemoveAt(s: seq<Edge>, i: nat)
    requires i < |s| && NoDup(s)
    ensures LedgerSet(RemoveAt(s, i)) == LedgerSet(s) - {s[i]}
  {
    RemoveAtNoDup(s, i);
    var r := RemoveAt(s, i);
    forall e | e in LedgerSet(s) - {s[i]} ensures e in LedgerSet(r) {
      var k :| 0 <= k < |s| && s[k] == e;
      assert r[if k < i then k else k - 1] == e;
    }
  }

  /** The edges that leave the shared source, in ledger order. */
  function Rooted(s: seq<Edge>): (r: seq<Edge>)
  {
    if s == [] then []
    else if s[0].src == Source then [s[0]] + Rooted(s[1..])
    else Rooted(s[1..])
  }

  lemma {:induction false} RootedConcat(a: seq<Edge>, b: seq<Edge>)
    ensures Rooted(a + b) == Rooted(a) + Rooted(b)
  {
    if a != [] {
      assert (a + b)[1..] == a[1..] + b;
      RootedConcat(a[1..], b);
    } else {
      assert a + b == b;
    }
  }

  lemma {:induction false} RootedMembers(s: seq<Edge>)
    ensures forall e :: e in Rooted(s) <==> e in s && e.src == Source
  {
    if s != [] {
      RootedMembers(s[1..]);
      assert s == [s[0]] + s[1..];
    }
  }

  /** Erasing an edge that does not leave the source leaves the rooted edges as they were. */
  lemma RootedRemoveAt(s: seq<Edge>, i: nat)
    requires i < |s| && s[i].src != Source
    ensures Rooted(RemoveAt(s, i)) == Rooted(s)
  {
    assert s == s[..i] + [s[i]] + s[i + 1..];
    RootedConcat(s[..i] + [s[i]], s[i + 1..]);
    RootedConcat(s[..i], [s[i]]);
    RootedConcat(s[..i], s[i + 1..]);
    assert [s[i]][1..] == [];
  }

  /** The ledger after erasing the first entry equal to `e`, if any. */
  function RemoveFirst(s: seq<Edge>, e: Edge): (r: seq<Edge>)
  {
    if s == [] then []
    else if s[0] == e then s[1..]
    else [s[0]] + RemoveFirst(s[1..], e)
  }

  /** Erasing the first match is erasing at the index of the first match. */
  lemma {:induction false} RemoveFirstAt(s: seq<Edge>, e: Edge, i: nat)
    requires i < |s| && s[i] == e
    requires forall j :: 0 <= j < i ==> s[j] != e
    ensures RemoveFirst(s, e) == RemoveAt(s, i)
  {
    if i > 0 {
      RemoveFirstAt(s[1..], e, i - 1);
      assert RemoveAt(s, i) == [s[0]] + RemoveAt(s[1..], i - 1);
    }
  }

  /** An absent edge leaves the ledger as it was. */
  lemma {:induction false} RemoveFirstAbsent(s: seq<Edge>, e: Edge)
    requires e !in s
    ensures RemoveFirst(s, e) == s
  {
    if s != [] {
      RemoveFirstAbsent(s[1..], e);
      assert s == [s[0]] + s[1..];
    }
  }

  /** Exactly one occurrence of `e` disappears, and the rest keep their order. */
  lemma {:induction false} RemoveFirstSpec(s: seq<Edge>, e: Edge)
    ensures multiset(RemoveFirst(s, e)) == multiset(s) - multiset{e}
    ensures |RemoveFirst(s, e)| == if e in s then |s| - 1 else |s|
    ensures SubSeq(RemoveFirst(s, e), s)
  {
    if s == [] {
    } else {
      assert s == [s[0]] + s[1..];
      if s[0] == e {
        SubSeqRemoveAt(s, 0);
        assert RemoveAt(s, 0) == s[1..];
      } else {
        RemoveFirstSpec(s[1..], e);
        var r := RemoveFirst(s[1..], e);
        assert RemoveFirst(s, e) == [s[0]] + r;
        assert ([s[0]] + r)[1..] == r;
        assert e in s <==> e in s[1..];
      }
    }
  }

  /** The condition under which del_connection erases an edge: forward, any
      edge leaving `block`; backward, any edge entering `block` that does not
      come from the shared source. */
  predicate Matches(e: Edge, block: Node, reverse: bool)
  {
    if reverse then e.dst == block && e.src != Source else e.src == block
  }

  /** The scan inside del_connection's rescan loop: the index of the first
      matching edge, or |s| when there is none. */
  method FindMatch(s: seq<Edge>, block: Node, reverse: bool) returns (i: nat)
    ensures i <= |s|
    ensures forall j :: 0 <= j < i ==> !Matches(s[j], block, reverse)
    ensures i < |s| ==> Matches(s[i], block, reverse)
  {
    i := 0;
    while i < |s|
      invariant i <= |s|
      invariant forall j :: 0 <= j < i ==> !Matches(s[j], block, reverse)
    {
      if reverse {
        if block != s[i].dst || s[i].src == Source {
          i := i + 1;
          continue;
        }
      } else if block != s[i].src {
        i := i + 1;
        continue;
      }
      return;
    }
  }

  /** The scan of the ledger-level disconnect: the index of the first entry
      equal to `e`, or |s|. */
  method IndexOf(s: seq<Edge>, e: Edge) returns (i: nat)
    ensures i <= |s|
    ensures forall j :: 0 <= j < i ==> s[j] != e
    ensures i < |s| ==> s[i] == e
  {
    i := 0;
    while i < |s| && s[i] != e
      invariant i <= |s|
      invariant forall j :: 0 <= j < i ==> s[j] != e
    {
      i := i + 1;
    }
  }

  /** The index of the first edge entering `n`, or |s|. */
  method FindInbound(s: seq<Edge>, n: Node) returns (i: nat)
    ensures i <= |s|
    ensures forall j :: 0 <= j < i ==> s[j].dst != n
    ensures i < |s| ==> s[i].dst == n
  {
    i := 0;
    while i < |s| && s[i].dst != n
      invariant i <= |s|
      invariant forall j :: 0 <= j < i ==> s[j].dst != n
    {
      i := i + 1;
    }
  }

  /** The edges touching `n` at either end. */
  function Touching(g: set<Edge>, n: Node): set<Edge>
  {
    set e | e in g && (e.src == n || e.dst == n)
  }

  /** The graph after removing block `n` (hier_block2::disconnect(block)). */
  function Detach(g: set<Edge>, n: Node): set<Edge>
  {
    g - Touching(g, n)
  }

  /** Block `n` has been torn down in `s`: no edge leaves it, and only edges
      from the shared source still enter it. */
  ghost predicate Cleared(s: seq<Edge>, n: Node)
  {
    forall f :: f in s ==> f.src != n && (f.dst == n ==> f.src == Source)
  }

  /** The blocks `c` form a sub-graph of their own in `s`: no edge other than
      one leaving the shared source crosses its boundary, in either direction. */
  ghost predicate Closed(s: seq<Edge>, c: set<Node>)
  {
    forall e :: e in s && e.src != Source ==> (e.src in c <==> e.dst in c)
  }

  /** Erasing entries keeps a torn-down block torn down. */
  lemma ClearedMono(a: seq<Edge>, b: seq<Edge>)
    requires forall x :: x in a ==> x in b
    ensures forall n :: Cleared(b, n) ==> Cleared(a, n)
  {
  }

  /** Every edge erased from `o` on the way to `s` has both ends torn down,
      except the ends at `block` that the current pass is still working on. */
  ghost predicate ErasedTornDown(o: seq<Edge>, s: seq<Edge>, block: Node, reverse: bool)
  {
    forall e :: e in o && e !in s ==>
      (Cleared(s, e.dst) || (reverse && e.dst == block)) && (Cleared(s, e.src) || e.src == block)
  }

  /** One step of del_connection's rescan loop keeps ErasedTornDown: `e` is
      erased, and the recursive teardown from its far end `far`, which ends
      with `far` torn down and every edge it erased torn down at both ends,
      turns `mid` into `s`. */
  lemma ErasedStep(o: seq<Edge>, before: seq<Edge>, mid: seq<Edge>, s: seq<Edge>,
                   e: Edge, far: Node, block: Node, reverse: bool)
    requires ErasedTornDown(o, before, block, reverse)
    requires LedgerSet(mid) == LedgerSet(before) - {e}
    requires forall x :: x in s ==> x in mid
    requires forall x :: x in mid && x !in s ==> Cleared(s, x.dst) && Cleared(s, x.src)
    requires Cleared(s, far)
    requires if reverse then e.dst == block && far == e.src else e.src == block && far == e.dst
    ensures ErasedTornDown(o, s, block, reverse)
  {
    forall x | x in mid ensures x in before && x != e {
      assert x in LedgerSet(mid);
    }
    ClearedMono(s, before);
    forall x | x in o && x !in s
      ensures (Cleared(s, x.dst) || (reverse && x.dst == block)) && (Cleared(s, x.src) || x.src == block)
    {
      if x !in before {
      } else if x == e {
      } else {
        assert x in LedgerSet(before);
        assert x in LedgerSet(mid);
      }
    }
  }

  /** The end of a backward pass: no edge but the source's enters `block`
      any more, and the forward pass from `block` turns `mid` into `s`. Then
      `block` is torn down and so is every erased edge at both ends. */
  lemma ErasedFinal(o: seq<Edge>, mid: seq<Edge>, s: seq<Edge>, block: Node)
    requires ErasedTornDown(o, mid, block, true)
    requires forall x :: x in mid ==> !Matches(x, block, true)
    requires forall x :: x in s ==> x in mid
    requires forall x :: x in mid && x !in s ==> Cleared(s, x.dst) && (Cleared(s, x.src) || x.src == block)
    requires forall x :: x in s ==> x.src != block
    ensures Cleared(s, block)
    ensures forall x :: x in o && x !in s ==> Cleared(s, x.dst) && Cleared(s, x.src)
  {
    ClearedMono(s, mid);
  }

  /** Every edge of `o` that leaves a block of `c` is still in `s`. */
  ghost predicate Kept(o: seq<Edge>, s: seq<Edge>, c: set<Node>)
  {
    forall e :: e in o && e.src in c ==> e in s
  }

  /** The edge a step of del_connection erases does not leave the sub-graph
      `c`, and neither does the recursive teardown from its far end start in it. */
  lemma FrameFar(o: seq<Edge>, before: seq<Edge>, mid: seq<Edge>, e: Edge, far: Node,
                 block: Node, reverse: bool, c: set<Node>)
    requires block != Source && SourceIsRoot(o) && block !in c && Closed(o, c)
    requires forall x :: x in before ==> x in o
    requires e in before && LedgerSet(mid) == LedgerSet(before) - {e}
    requires Matches(e, block, reverse) && far == (if reverse then e.src else e.dst)
    ensures e.src !in c
    ensures far != Source && far !in c && SourceIsRoot(mid) && Closed(mid, c)
  {
    forall x | x in mid ensures x in o {
      assert x in LedgerSet(mid);
    }
  }

  /** Erasing an edge that does not leave `c`, then an erasure that keeps
      `c`'s edges, keeps `c`'s edges. */
  lemma KeptStep(o: seq<Edge>, before: seq<Edge>, mid: seq<Edge>, s: seq<Edge>, e: Edge, c: set<Node>)
    requires Kept(o, before, c) && Kept(mid, s, c)
    requires LedgerSet(mid) == LedgerSet(before) - {e} && e.src !in c
    ensures Kept(o, s, c)
  {
    forall x | x in o && x.src in c ensures x in s {
      assert x in LedgerSet(before);
      assert x in LedgerSet(mid);
    }
  }

  /** The engine's edges after a teardown step: erasing `e` and then the
      edges a nested teardown erases leaves the engine short of exactly the
      edges erased from the ledger overall. */
  lemma EraseGraph(g: set<Edge>, o: set<Edge>, b: set<Edge>, m: set<Edge>, s: set<Edge>, e: Edge)
    requires e in b && b <= o && m == b - {e} && s <= m
    ensures g - (o - b) - {e} - (m - s) == g - (o - s)
  {
    forall x | x in g - (o - s) ensures x in g - (o - b) - {e} - (m - s) {
      if x in o {
        assert x in s && x in m;
      }
    }
  }

  /** The same for a nested teardown alone. */
  lemma EraseGraphTail(g: set<Edge>, o: set<Edge>, m: set<Edge>, s: set<Edge>)
    requires m <= o && s <= m
    ensures g - (o - m) - (m - s) == g - (o - s)
  {
  }
}
