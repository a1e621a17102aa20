/**
 * IgniteFailureConsole, the bootstrap tool that seeds the threshold: it
 * encodes the node count as eight big-endian bytes and creates the watched
 * path, with any missing ancestors, unless it already exists.
 */
module FailureConsole {
  import opened Wrappers
  import opened JavaInts
  import opened ZkStore
  import FailureDetector

  // ---------------------------------------------------------------------------
  // Encoding the threshold
  // ---------------------------------------------------------------------------

  /** `(byte) (val >>> shift)`. */
  function ByteOf(val: Long, shift: nat): (r: Byte)
    requires shift < 64
    ensures Unsigned8(r) == Ushr(val, shift) % 0x100
  {
    ToByte(Ushr(val, shift))
  }

  /** The eight bytes putLong writes, most significant first. */
  function Encode(val: Long): (s: seq<Byte>)
    ensures |s| == 8
  {
    [ByteOf(val, 56), ByteOf(val, 48), ByteOf(val, 40), ByteOf(val, 32),
     ByteOf(val, 24), ByteOf(val, 16), ByteOf(val, 8), ByteOf(val, 0)]
  }

  /** Each byte putLong writes is one base-256 digit of the unsigned reading of the value. */
  lemma EncodeDigits(val: Long)
    ensures var s, u := Encode(val), Unsigned64(val);
      && Unsigned8(s[7]) == u % 0x100
      && Unsigned8(s[6]) == u / 0x100 % 0x100
      && Unsigned8(s[5]) == u / 0x1_0000 % 0x100
      && Unsigned8(s[4]) == u / 0x100_0000 % 0x100
      && Unsigned8(s[3]) == u / 0x1_0000_0000 % 0x100
      && Unsigned8(s[2]) == u / 0x100_0000_0000 % 0x100
      && Unsigned8(s[1]) == u / 0x1_0000_0000_0000 % 0x100
      && s[0] == ToByte(u / 0x100_0000_0000_0000)
  {
    Pow2Bytes();
    UshrDivides(val, 0);
    UshrDivides(val, 8);
    UshrDivides(val, 16);
    UshrDivides(val, 24);
    UshrDivides(val, 32);
    UshrDivides(val, 40);
    UshrDivides(val, 48);
    UshrDivides(val, 56);
  }

  /** A number below 2^64 is the sum of its eight base-256 digits. */
  lemma DigitSum(u: nat)
    requires u < TWO_64
    ensures u == u % 0x100 + (u / 0x100 % 0x100) * 0x100 + (u / 0x1_0000 % 0x100) * 0x1_0000
      + (u / 0x100_0000 % 0x100) * 0x100_0000 + (u / 0x1_0000_0000 % 0x100) * 0x1_0000_0000
      + (u / 0x100_0000_0000 % 0x100) * 0x100_0000_0000 + (u / 0x1_0000_0000_0000 % 0x100) * 0x1_0000_0000_0000
      + (u / 0x100_0000_0000_0000) * 0x100_0000_0000_0000
  {
    var q1, q2, q3, q4 := u / 0x100, u / 0x1_0000, u / 0x100_0000, u / 0x1_0000_0000;
    var q5, q6, q7 := u / 0x100_0000_0000, u / 0x1_0000_0000_0000, u / 0x100_0000_0000_0000;
    DivDiv(u, 0x100, 0x100);
    DivDiv(u, 0x1_0000, 0x100);
    DivDiv(u, 0x100_0000, 0x100);
    DivDiv(u, 0x1_0000_0000, 0x100);
    DivDiv(u, 0x100_0000_0000, 0x100);
    DivDiv(u, 0x1_0000_0000_0000, 0x100);
    assert u == u % 0x100 + 0x100 * q1;
    assert q1 == q1 % 0x100 + 0x100 * q2;
    assert q2 == q2 % 0x100 + 0x100 * q3;
    assert q3 == q3 % 0x100 + 0x100 * q4;
    assert q4 == q4 % 0x100 + 0x100 * q5;
    assert q5 == q5 % 0x100 + 0x100 * q6;
    assert q6 == q6 % 0x100 + 0x100 * q7;
  }

  /** The top digit, cast to a byte, carries the sign of the long. */
  lemma TopByte(u: nat)
    requires u < TWO_64
    ensures var q7 := u / 0x100_0000_0000_0000;
      && q7 < 0x100
      && (ToByte(q7) as int) * 0x100_0000_0000_0000 == q7 * 0x100_0000_0000_0000 - (if u > LONG_MAX then TWO_64 else 0)
  {
  }

  /** getLong's arithmetic on the eight encoded bytes rebuilds the long. */
  lemma EncodeAssembles(val: Long)
    ensures var s := Encode(val);
      FailureDetector.Assemble(s[0], s[1], s[2], s[3], s[4], s[5], s[6], s[7]) == val
  {
    var s := Encode(val);
    var u := Unsigned64(val);
    var q7 := u / 0x100_0000_0000_0000;
    var low := u % 0x100 + (u / 0x100 % 0x100) * 0x100 + (u / 0x1_0000 % 0x100) * 0x1_0000
      + (u / 0x100_0000 % 0x100) * 0x100_0000 + (u / 0x1_0000_0000 % 0x100) * 0x1_0000_0000
      + (u / 0x100_0000_0000 % 0x100) * 0x100_0000_0000 + (u / 0x1_0000_0000_0000 % 0x100) * 0x1_0000_0000_0000;
    assert low == FailureDetector.LowSeven(s) && s[0] == ToByte(q7) by {
      EncodeDigits(val);
    }
    assert (ToByte(q7) as int) * 0x100_0000_0000_0000 + low == val by {
      DigitSum(u);
      TopByte(u);
    }
    FailureDetector.AssembleExact(s);
  }

  /** What putLong writes, getLong reads back: the codec round-trips every long. */
  lemma EncodeDecodes(val: Long)
    ensures FailureDetector.GetLong(Encode(val), 0) == Ok(val)
  {
    EncodeAssembles(val);
  }

  /** Re-encoding a decoded 8-byte payload gives back the same bytes: the codec is a bijection. */
  lemma DecodeEncodes(s: seq<Byte>)
    requires |s| == 8
    ensures Encode(FailureDetector.GetLong(s, 0).value) == s
  {
    var v := FailureDetector.GetLong(s, 0).value;
    var e := Encode(v);
    var ue, us := FailureDetector.BigEndian(e), FailureDetector.BigEndian(s);
    assert FailureDetector.Signed64(ue) == v == FailureDetector.Signed64(us) by {
      EncodeDecodes(v);
      FailureDetector.GetLongWhole(e);
      FailureDetector.GetLongWhole(s);
    }
    FailureDetector.BigEndianInjective(e, s);
  }

  /**
   * putLong(b, off, val): writes the eight bytes of `val` from `off`, most
   * significant first (in the order the source assigns them, last index
   * first); no other element of `b` changes.
   */
  method PutLong(b: array<Byte>, off: int, val: Long)
    requires 0 <= off && off + 8 <= b.Length
    modifies b
    ensures b[off..off + 8] == Encode(val)
    ensures forall j :: 0 <= j < b.Length && !(off <= j < off + 8) ==> b[j] == old(b[j])
  {
    b[off + 7] := ByteOf(val, 0);
    b[off + 6] := ByteOf(val, 8);
    b[off + 5] := ByteOf(val, 16);
    b[off + 4] := ByteOf(val, 24);
    b[off + 3] := ByteOf(val, 32);
    b[off + 2] := ByteOf(val, 40);
    b[off + 1] := ByteOf(val, 48);
    b[off] := ByteOf(val, 56);
  }

  // ---------------------------------------------------------------------------
  // Creating the watched path
  // ---------------------------------------------------------------------------

  /** What the modelled console code can throw: the client refuses a malformed path. */
  datatype Exception = IllegalArgument(path: Path)

  /**
   * The change createPath makes to a store in state (`before`, `hBefore`):
   * the pending nodes of `path` are created in that order, each without
   * data except `path` itself, which gets `data` when `withData` holds;
   * every node already present keeps its data.
   */
  ghost predicate CreatesPending(before: map<Path, Option<seq<Byte>>>, hBefore: seq<Path>,
                                 after: map<Path, Option<seq<Byte>>>, hAfter: seq<Path>,
                                 path: Path, data: seq<Byte>, withData: bool)
  {
    && hAfter == hBefore + Pending(before.Keys, path)
    && (forall q :: q in after <==> q in before || q in Pending(before.Keys, path))
    && (forall q :: q in before ==> after[q] == before[q])
    && (forall q :: q in after && q !in before ==> after[q] == if q == path && withData then Some(data) else None)
  }

  /** Creating `path` right after its parent's pending nodes completes the pending nodes of `path`. */
  lemma CreatesPendingStep(n0: map<Path, Option<seq<Byte>>>, h0: seq<Path>,
                           n1: map<Path, Option<seq<Byte>>>, h1: seq<Path>,
                           path: Path, data: seq<Byte>, withData: bool)
    requires |path| > 1 && path !in n0
    requires CreatesPending(n0, h0, n1, h1, Parent(path), data, false)
    ensures CreatesPending(n0, h0, n1[path := if withData then Some(data) else None], h1 + [path], path, data, withData)
  {
    assert Pending(n0.Keys, path) == Pending(n0.Keys, Parent(path)) + [path];
  }

  /** Whatever createPath adds to a store lies on the chain of ancestors of the path. */
  lemma CreatesOnlyChain(before: map<Path, Option<seq<Byte>>>, hBefore: seq<Path>,
                         after: map<Path, Option<seq<Byte>>>, hAfter: seq<Path>,
                         path: Path, data: seq<Byte>, withData: bool)
    requires ValidPath(path) && path != ROOT
    requires CreatesPending(before, hBefore, after, hAfter, path, data, withData)
    ensures forall q :: q in after && q !in before ==> q in Chain(path)
    ensures forall k :: |hBefore| <= k < |hAfter| ==> hAfter[k] in Chain(path)
  {
    PendingOnChain(before.Keys, path);
  }

  /**
   * createPath(client, path, data, withData): a malformed path is refused
   * and changes nothing; otherwise, unless `path` exists, its missing
   * ancestors are created first, without data, then `path` itself.
   */
  method CreatePath(store: Store, path: Path, data: seq<Byte>, withData: bool) returns (r: Outcome<Exception>)
    requires store.Valid()
    modifies store
    decreases |path|
    ensures store.Valid()
    ensures r.Pass? <==> ValidPath(path)
    ensures r.Fail? ==> store.nodes == old(store.nodes) && store.history == old(store.history)
    ensures r.Pass? ==> path in store.nodes
    ensures path in old(store.nodes) ==> store.nodes == old(store.nodes) && store.history == old(store.history)
    ensures r.Pass? ==> CreatesPending(old(store.nodes), old(store.history), store.nodes, store.history, path, data, withData)
  {
    if !ValidPath(path) {
      return Fail(IllegalArgument(path));
    }
    if store.Exists(path) {
      return Pass;
    }
    ParentOfValid(path);
    var parent := Parent(path);
    if |parent| > 1 {
      var parentOutcome := CreatePath(store, parent, data, false);
      assert parentOutcome.Pass?;
    }
    CreatesPendingStep(old(store.nodes), old(store.history), store.nodes, store.history, path, data, withData);
    var payload := if withData then Some(data) else None;
    store.Create(path, payload);
    r := Pass;
  }

  // ---------------------------------------------------------------------------
  // The console
  // ---------------------------------------------------------------------------

  /**
   * invoke(zkConnString, zkWatchPath, normalNodes): encodes the threshold
   * into a fresh eight-byte buffer and creates the watched path holding it.
   * A path that already exists keeps its old payload.
   */
  method Invoke(store: Store, watchPath: Path, normalNodes: Long) returns (r: Outcome<Exception>)
    requires store.Valid()
    modifies store
    ensures store.Valid()
    ensures r.Pass? <==> ValidPath(watchPath)
    ensures r.Fail? || watchPath in old(store.nodes) ==>
      store.nodes == old(store.nodes) && store.history == old(store.history)
    ensures r.Pass? ==> watchPath in store.nodes
    ensures r.Pass? ==> CreatesPending(old(store.nodes), old(store.history), store.nodes, store.history,
                                       watchPath, Encode(normalNodes), true)
    ensures r.Pass? && watchPath !in old(store.nodes) ==>
      && store.nodes[watchPath] == Some(Encode(normalNodes))
      && FailureDetector.GetLong(store.nodes[watchPath].value, 0) == Ok(normalNodes)
  {
    var data := new Byte[8];
    PutLong(data, 0, normalNodes);
    assert data[..] == Encode(normalNodes) by {
      assert data[..] == data[0..8];
    }
    r := CreatePath(store, watchPath, data[..], true);
    EncodeDecodes(normalNodes);
  }

  /** The process exit statuses of main. */
  const EXIT_OK := 0
  const EXIT_FAILED := 7
  const EXIT_BAD_NUMBER := 8
  const EXIT_USAGE := 9

  /**
   * main(args), returning the status it passes to System.exit. `args` is
   * None for a null array; `parseLong` stands for Long.parseLong, None
   * meaning NumberFormatException. Too few arguments exit with 9, an
   * unparsable threshold with 8, any failure of invoke with 7, and success
   * with 0; the store changes only on success.
   */
  method Run(store: Store, args: Option<seq<string>>, parseLong: string -> Option<Long>) returns (status: int)
    requires store.Valid()
    modifies store
    ensures store.Valid()
    ensures status == EXIT_USAGE <==> args.None? || |args.value| < 3
    ensures status == EXIT_BAD_NUMBER <==> args.Some? && |args.value| >= 3 && parseLong(args.value[2]).None?
    ensures status == EXIT_FAILED <==>
      args.Some? && |args.value| >= 3 && parseLong(args.value[2]).Some? && !ValidPath(args.value[1])
    ensures status in {EXIT_OK, EXIT_FAILED, EXIT_BAD_NUMBER, EXIT_USAGE}
    ensures status != EXIT_OK ==> store.nodes == old(store.nodes) && store.history == old(store.history)
    ensures status == EXIT_OK ==>
      CreatesPending(old(store.nodes), old(store.history), store.nodes, store.history,
                     args.value[1], Encode(parseLong(args.value[2]).value), true)
  {
    if args.None? || |args.value| < 3 {
      return EXIT_USAGE;
    }
    var normalNodes := parseLong(args.value[2]);
    if normalNodes.None? {
      return EXIT_BAD_NUMBER;
    }
    var r := Invoke(store, args.value[1], normalNodes.value);
    if r.Fail? {
      return EXIT_FAILED;
    }
    return EXIT_OK;
  }
}
