/**
 * The health gate of IgniteFailureDetector: the threshold payload decoder,
 * the health test shared by the gate and the wake-up sweep, the recount of
 * non-client members on a discovery event, and the registry of blocked
 * callers.
 */
module FailureDetector {
  import opened Wrappers
  import opened JavaInts

  /** What the modelled Java code can throw. */
  datatype Exception = ArrayIndexOutOfBounds

  // ---------------------------------------------------------------------------
  // Decoding the threshold payload
  // ---------------------------------------------------------------------------

  /** The unsigned big-endian number whose digits in base 256 are the bytes of `s`. */
  function BigEndian(s: seq<Byte>): (r: nat)
    ensures r < Pow2(8 * |s|)
    ensures |s| == 8 ==> r < TWO_64
  {
    if s == [] then 0
    else
      var front := s[..|s| - 1];
      var r := BigEndian(front) * 0x100 + Unsigned8(s[|s| - 1]);
      assert Pow2(8 * |s|) == Pow2(8 * |front|) * 0x100 by {
        Pow2Add(8 * |front|, 8);
        assert Pow2(8) == 0x100;
      }
      assert Pow2(64) == TWO_64 by {
        Pow2Bytes();
      }
      r
  }

  /** Two byte strings of one length with the same big-endian reading are equal. */
  lemma {:induction false} BigEndianInjective(a: seq<Byte>, b: seq<Byte>)
    requires |a| == |b| && BigEndian(a) == BigEndian(b)
    ensures a == b
  {
    if a != [] {
      var n := |a| - 1;
      var x := BigEndian(a);
      assert x == 0x100 * BigEndian(a[..n]) + Unsigned8(a[n]);
      assert x == 0x100 * BigEndian(b[..n]) + Unsigned8(b[n]);
      assert BigEndian(a[..n]) == BigEndian(b[..n]) by {
        DivUnique(x, 0x100, BigEndian(a[..n]), Unsigned8(a[n]));
        DivUnique(x, 0x100, BigEndian(b[..n]), Unsigned8(b[n]));
      }
      assert a[n] == b[n] by {
        ToByteUnsigned8(a[n]);
        ToByteUnsigned8(b[n]);
      }
      BigEndianInjective(a[..n], b[..n]);
      assert a == a[..n] + [a[n]];
      assert b == b[..n] + [b[n]];
    }
  }

  /** The 64-bit two's-complement reading of an unsigned 64-bit number. */
  function Signed64(u: nat): (r: Long)
    requires u < TWO_64
    ensures (r - u) % TWO_64 == 0
    ensures r < 0 <==> u > LONG_MAX
  {
    if u > LONG_MAX then u - TWO_64 else u
  }

  /** BigEndian of eight bytes, digit by digit. */
  lemma BigEndian8(s: seq<Byte>)
    requires |s| == 8
    ensures BigEndian(s) == Unsigned8(s[0]) * 0x100_0000_0000_0000 + Unsigned8(s[1]) * 0x1_0000_0000_0000
      + Unsigned8(s[2]) * 0x100_0000_0000 + Unsigned8(s[3]) * 0x1_0000_0000 + Unsigned8(s[4]) * 0x100_0000
      + Unsigned8(s[5]) * 0x1_0000 + Unsigned8(s[6]) * 0x100 + Unsigned8(s[7])
  {
    assert s[..7][..6] == s[..6];
    assert s[..6][..5] == s[..5];
    assert s[..5][..4] == s[..4];
    assert s[..4][..3] == s[..3];
    assert s[..3][..2] == s[..2];
    assert s[..2][..1] == s[..1];
    assert s[..1][..0] == [];
  }

  /**
   * The long that getLong assembles from eight bytes: the first is
   * sign-extended before its shift by 56, the other seven are masked with
   * 0xFF; Java wraps every shift and addition modulo 2^64, so one Wrap of the
   * exact sum gives the same value.
   */
  function Assemble(b0: Byte, b1: Byte, b2: Byte, b3: Byte, b4: Byte, b5: Byte, b6: Byte, b7: Byte): (r: Long)
    ensures r < 0 <==> b0 < 0
    ensures r % 0x100 == Unsigned8(b7)
  {
    var top := (b0 as int) * 0x100_0000_0000_0000;
    var high := Unsigned8(b6) + Unsigned8(b5) * 0x100 + Unsigned8(b4) * 0x1_0000 + Unsigned8(b3) * 0x100_0000
      + Unsigned8(b2) * 0x1_0000_0000 + Unsigned8(b1) * 0x100_0000_0000 + (b0 as int) * 0x1_0000_0000_0000;
    var low := Unsigned8(b7) + Unsigned8(b6) * 0x100 + Unsigned8(b5) * 0x1_0000 + Unsigned8(b4) * 0x100_0000
      + Unsigned8(b3) * 0x1_0000_0000 + Unsigned8(b2) * 0x100_0000_0000 + Unsigned8(b1) * 0x1_0000_0000_0000;
    assert Wrap(top) == top;
    assert 0 <= low < 0x100_0000_0000_0000;
    assert Wrap(low + top) == low + top;
    assert (low + top) % 0x100 == Unsigned8(b7) by {
      assert low + top == 0x100 * high + Unsigned8(b7);
      DivUnique(low + top, 0x100, high, Unsigned8(b7));
    }
    Wrap(low + Wrap(top))
  }

  /** The big-endian weight of the seven low bytes of a long. */
  function LowSeven(s: seq<Byte>): (r: nat)
    requires |s| == 8
    ensures r < 0x100_0000_0000_0000
  {
    Unsigned8(s[1]) * 0x1_0000_0000_0000 + Unsigned8(s[2]) * 0x100_0000_0000
      + Unsigned8(s[3]) * 0x1_0000_0000 + Unsigned8(s[4]) * 0x100_0000
      + Unsigned8(s[5]) * 0x1_0000 + Unsigned8(s[6]) * 0x100 + Unsigned8(s[7])
  }

  /** No Java operation in Assemble overflows: it is the sign-extended top byte over the seven unsigned ones. */
  lemma AssembleExact(s: seq<Byte>)
    requires |s| == 8
    ensures Assemble(s[0], s[1], s[2], s[3], s[4], s[5], s[6], s[7]) == (s[0] as int) * 0x100_0000_0000_0000 + LowSeven(s)
  {
    var top := (s[0] as int) * 0x100_0000_0000_0000;
    assert Wrap(top) == top;
  }

  /** What Assemble computes: the two's-complement reading of the bytes as a big-endian number. */
  lemma AssembleIsTwosComplement(s: seq<Byte>)
    requires |s| == 8
    ensures var v := Assemble(s[0], s[1], s[2], s[3], s[4], s[5], s[6], s[7]);
      && v == Signed64(BigEndian(s))
      && (v < 0 <==> s[0] < 0)
      && Unsigned64(v) % 0x100 == Unsigned8(s[7])
  {
    AssembleExact(s);
    BigEndian8(s);
    var u := BigEndian(s);
    assert u == Unsigned8(s[0]) * 0x100_0000_0000_0000 + LowSeven(s);
    var high := Unsigned8(s[0]) * 0x1_0000_0000_0000 + Unsigned8(s[1]) * 0x100_0000_0000
      + Unsigned8(s[2]) * 0x1_0000_0000 + Unsigned8(s[3]) * 0x100_0000
      + Unsigned8(s[4]) * 0x1_0000 + Unsigned8(s[5]) * 0x100 + Unsigned8(s[6]);
    DivUnique(u, 0x100, high, Unsigned8(s[7]));
    assert Unsigned64(Assemble(s[0], s[1], s[2], s[3], s[4], s[5], s[6], s[7])) == u;
  }

  /**
   * getLong(b, off): the big-endian long held by the eight bytes from `off`.
   * An index outside the array throws instead of yielding a value.
   */
  function GetLong(b: seq<Byte>, off: int): (r: Result<Long, Exception>)
    ensures r.Ok? <==> 0 <= off && off + 8 <= |b|
    ensures r.Ok? ==> r.value == Signed64(BigEndian(b[off..off + 8]))
    ensures r.Ok? ==> (r.value < 0 <==> b[off] < 0)
    ensures r.Ok? ==> Unsigned64(r.value) % 0x100 == Unsigned8(b[off + 7])
  {
    if off < 0 || off + 8 > |b| then Err(ArrayIndexOutOfBounds)
    else
      var s := b[off..off + 8];
      assert s[0] == b[off] && s[1] == b[off + 1] && s[2] == b[off + 2] && s[3] == b[off + 3];
      assert s[4] == b[off + 4] && s[5] == b[off + 5] && s[6] == b[off + 6] && s[7] == b[off + 7];
      AssembleIsTwosComplement(s);
      Ok(Assemble(b[off], b[off + 1], b[off + 2], b[off + 3], b[off + 4], b[off + 5], b[off + 6], b[off + 7]))
  }

  /** An eight-byte payload read from offset 0 is read whole. */
  lemma GetLongWhole(b: seq<Byte>)
    requires |b| == 8
    ensures GetLong(b, 0) == Ok(Signed64(BigEndian(b)))
  {
    assert b[0..8] == b;
  }

  /** getLong reads exactly the eight bytes at `off`: whatever else the payload holds does not matter. */
  lemma GetLongReadsEightBytes(b: seq<Byte>, c: seq<Byte>, off: int)
    requires 0 <= off && off + 8 <= |b| && off + 8 <= |c|
    requires b[off..off + 8] == c[off..off + 8]
    ensures GetLong(b, off) == GetLong(c, off)
  {
    assert forall j :: off <= j < off + 8 ==> b[j] == b[off..off + 8][j - off] == c[j];
  }

  /** The threshold is taken from bytes 0..7 of the payload; trailing bytes are ignored. */
  lemma ThresholdIgnoresTrailingBytes(data: seq<Byte>, trailing: seq<Byte>)
    requires |data| == 8
    ensures GetLong(data + trailing, 0) == GetLong(data, 0)
  {
    assert (data + trailing)[0..8] == data[0..8];
    GetLongReadsEightBytes(data + trailing, data, 0);
  }

  // ---------------------------------------------------------------------------
  // The health test
  // ---------------------------------------------------------------------------

  /**
   * The condition under which reflesh wakes every waiter: `currentNodes >= normalNodes - 1L`.
   * The gate is open when the cluster is at most one member short of the
   * threshold, except at threshold `Long.MIN_VALUE`, where `normalNodes - 1L`
   * wraps to `Long.MAX_VALUE`.
   */
  predicate GateOpen(currentNodes: Long, normalNodes: Long): (r: bool)
    ensures r <==> if normalNodes == LONG_MIN then currentNodes == LONG_MAX else currentNodes >= normalNodes - 1
  {
    SubOne(normalNodes);
    currentNodes >= Sub(normalNodes, 1)
  }

  /** The condition under which check registers a waiter: `currentNodes < normalNodes - 1L`. */
  predicate MustWait(currentNodes: Long, normalNodes: Long): (r: bool)
    ensures r <==> if normalNodes == LONG_MIN then currentNodes < LONG_MAX else currentNodes < normalNodes - 1
  {
    SubOne(normalNodes);
    currentNodes < Sub(normalNodes, 1)
  }

  /** For any counter values exactly one of "register a waiter" and "drain the registry" is enabled. */
  lemma GateConditionsComplementary(currentNodes: Long, normalNodes: Long)
    ensures MustWait(currentNodes, normalNodes) <==> !GateOpen(currentNodes, normalNodes)
  {
  }

  /** With a non-negative count and a threshold in [Long.MIN_VALUE + 1, 1] the gate is always open. */
  lemma SmallThresholdKeepsGateOpen(currentNodes: Long, normalNodes: Long)
    requires currentNodes >= 0
    requires LONG_MIN + 1 <= normalNodes <= 1
    ensures GateOpen(currentNodes, normalNodes)
  {
  }

  // ---------------------------------------------------------------------------
  // Topology
  // ---------------------------------------------------------------------------

  /** A member of the cluster topology; client (thin) members do not count towards its size. */
  datatype ClusterNode = ClusterNode(id: nat, isClient: bool)

  datatype DiscoveryKind = NodeJoined | NodeLeft | NodeFailed

  /** An event delivered to the local listener; only discovery events carry a topology. */
  datatype IgniteEvent =
    | DiscoveryEvent(kind: DiscoveryKind, topologyNodes: seq<ClusterNode>)
    | OtherEvent

  /** `topologyNodes().stream().filter(n -> !n.isClient()).count()`. */
  function NonClientCount(nodes: seq<ClusterNode>): (n: nat)
    ensures n <= |nodes|
  {
    if nodes == [] then 0
    else NonClientCount(nodes[..|nodes| - 1]) + (if nodes[|nodes| - 1].isClient then 0 else 1)
  }

  lemma {:induction false} NonClientCountAppend(a: seq<ClusterNode>, b: seq<ClusterNode>)
    ensures NonClientCount(a + b) == NonClientCount(a) + NonClientCount(b)
  {
    if b != [] {
      assert (a + b)[..|a + b| - 1] == a + b[..|b| - 1];
      NonClientCountAppend(a, b[..|b| - 1]);
    } else {
      assert a + b == a;
    }
  }

  /** Every member is counted exactly when no member is a client. */
  lemma {:induction false} NonClientCountAll(nodes: seq<ClusterNode>)
    ensures NonClientCount(nodes) == |nodes| <==> forall i :: 0 <= i < |nodes| ==> !nodes[i].isClient
  {
    if nodes != [] {
      var front := nodes[..|nodes| - 1];
      NonClientCountAll(front);
      assert forall i :: 0 <= i < |front| ==> front[i] == nodes[i];
    }
  }

  /** No member is counted exactly when every member is a client. */
  lemma {:induction false} NonClientCountNone(nodes: seq<ClusterNode>)
    ensures NonClientCount(nodes) == 0 <==> forall i :: 0 <= i < |nodes| ==> nodes[i].isClient
  {
    if nodes != [] {
      var front := nodes[..|nodes| - 1];
      NonClientCountNone(front);
      assert forall i :: 0 <= i < |front| ==> front[i] == nodes[i];
    }
  }

  // ---------------------------------------------------------------------------
  // The detector
  // ---------------------------------------------------------------------------

  /** The object a blocked caller of check waits on. */
  class Waiter {
    constructor ()
    {
    }
  }

  ghost predicate Distinct<T>(s: seq<T>)
  {
    forall i, j :: 0 <= i < j < |s| ==> s[i] != s[j]
  }

  class Detector {
    const timeout: Long
    /** The threshold: the expected number of non-client members. */
    var normalNodes: Long
    /** The number of non-client members in the last topology seen. */
    var currentNodes: Long
    /** The callers blocked in check, in registration order. */
    var pausing: seq<Waiter>
    /** The waiters notified so far, in notification order. */
    var released: seq<Waiter>

    /**
     * No waiter is ever notified twice or notified while still registered,
     * and the registry is empty whenever the gate is open.
     */
    ghost predicate Valid()
      reads this
    {
      && Distinct(released + pausing)
      && (GateOpen(currentNodes, normalNodes) ==> pausing == [])
    }

    /** The field initialisers: both counters start at 0 and the registry is empty. */
    constructor Allocate(timeout: Long)
      ensures this.timeout == timeout
      ensures normalNodes == 0 && currentNodes == 0 && pausing == [] && released == []
      ensures Valid()
    {
      this.timeout := timeout;
      normalNodes, currentNodes := 0, 0;
      pausing, released := [], [];
    }

    /**
     * The Java constructor: reads the payload stored at the watched path,
     * sets the threshold from it and re-evaluates the gate. A missing node or
     * an undecodable payload makes construction fail.
     */
    static method Create(timeout: Long, stored: Option<seq<Byte>>) returns (r: Option<Detector>)
      ensures r.Some? <==> stored.Some? && |stored.value| >= 8
      ensures r.Some? ==> fresh(r.value) && r.value.Valid() && r.value.timeout == timeout
      ensures r.Some? ==> r.value.normalNodes == GetLong(stored.value, 0).value
      ensures r.Some? ==> r.value.currentNodes == 0 && r.value.pausing == [] && r.value.released == []
    {
      if stored.None? {
        return None;
      }
      var d := new Detector.Allocate(timeout);
      var decoded := d.SetNormalNodes(stored.value);
      if decoded.Fail? {
        return None;
      }
      d.Reflesh();
      r := Some(d);
    }

    /** setNormalNodes: the threshold becomes the long at offset 0 of the payload, or the call throws and nothing changes. */
    method SetNormalNodes(data: seq<Byte>) returns (r: Outcome<Exception>)
      modifies this`normalNodes
      ensures r.Pass? <==> |data| >= 8
      ensures r.Pass? ==> normalNodes == GetLong(data, 0).value
      ensures r.Fail? ==> normalNodes == old(normalNodes)
    {
      var nodes := GetLong(data, 0);
      if nodes.Err? {
        return Fail(nodes.error);
      }
      normalNodes := nodes.value;
      r := Pass;
    }

    /**
     * reflesh: when the gate is open, notifies every registered waiter once,
     * in registration order, removing each as it goes; otherwise does nothing.
     */
    method Reflesh()
      requires Distinct(released + pausing)
      modifies this`pausing, this`released
      ensures Valid()
      ensures GateOpen(currentNodes, normalNodes) ==> pausing == [] && released == old(released) + old(pausing)
      ensures !GateOpen(currentNodes, normalNodes) ==> pausing == old(pausing) && released == old(released)
    {
      if GateOpen(currentNodes, normalNodes) {
        while pausing != []
          invariant released + pausing == old(released) + old(pausing)
          decreases |pausing|
        {
          var o := pausing[0];
          released := released + [o];  // o.notify()
          pausing := pausing[1..];      // ite.remove()
          assert released + pausing == old(released) + old(pausing) by {
            assert (released[..|released| - 1] + [o]) + pausing == released[..|released| - 1] + ([o] + pausing);
          }
        }
        assert released == old(released) + old(pausing) by {
          assert released + [] == released;
        }
      }
    }

    /**
     * check, up to the wait: an open gate registers nothing; otherwise one
     * fresh waiter is appended to the registry and returned.
     */
    method Check() returns (w: Waiter?)
      requires Valid()
      modifies this`pausing
      ensures Valid()
      ensures w == null <==> GateOpen(currentNodes, normalNodes)
      ensures w == null ==> pausing == old(pausing)
      ensures w != null ==> fresh(w) && pausing == old(pausing) + [w]
    {
      w := null;
      if MustWait(currentNodes, normalNodes) {
        var o := new Waiter();
        pausing := pausing + [o];
        w := o;
        assert released + pausing == (released + old(pausing)) + [o];
      }
    }

    /** The listener on the watched path: a new payload replaces the threshold, then the gate is re-evaluated. */
    method OnThresholdChanged(data: seq<Byte>) returns (r: Outcome<Exception>)
      requires Valid()
      modifies this`normalNodes, this`pausing, this`released
      ensures Valid()
      ensures r.Pass? <==> |data| >= 8
      ensures r.Fail? ==> normalNodes == old(normalNodes) && pausing == old(pausing) && released == old(released)
      ensures r.Pass? ==> normalNodes == GetLong(data, 0).value
      ensures r.Pass? && GateOpen(currentNodes, normalNodes) ==>
        pausing == [] && released == old(released) + old(pausing)
      ensures r.Pass? && !GateOpen(currentNodes, normalNodes) ==>
        pausing == old(pausing) && released == old(released)
    {
      r := SetNormalNodes(data);
      if r.Pass? {
        Reflesh();
      }
    }

    /**
     * The local event listener registered by start: a discovery event sets
     * the member count to the number of non-client members of its topology,
     * whatever it was before, and re-evaluates the gate; other events change
     * nothing. The listener always stays subscribed.
     */
    method OnEvent(e: IgniteEvent) returns (keepListening: bool)
      requires Valid()
      requires e.DiscoveryEvent? ==> |e.topologyNodes| <= LONG_MAX
      modifies this`currentNodes, this`pausing, this`released
      ensures Valid()
      ensures keepListening
      ensures e.OtherEvent? ==> currentNodes == old(currentNodes) && pausing == old(pausing) && released == old(released)
      ensures e.DiscoveryEvent? ==> currentNodes == NonClientCount(e.topologyNodes)
      ensures e.DiscoveryEvent? && GateOpen(currentNodes, normalNodes) ==>
        pausing == [] && released == old(released) + old(pausing)
      ensures e.DiscoveryEvent? && !GateOpen(currentNodes, normalNodes) ==>
        pausing == old(pausing) && released == old(released)
    {
      if e.DiscoveryEvent? {
        currentNodes := NonClientCount(e.topologyNodes);
        Reflesh();
      }
      keepListening := true;
    }
  }
}
