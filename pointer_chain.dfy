/**
 * Pointer-chain resolution: starting from a module base, repeatedly add the
 * next offset and dereference, `current := read_uint64(current + offset)`.
 * The first failing level aborts the walk, and its error is wrapped with the
 * 1-based level number and that level's offset.
 */
module PointerChain {
  import opened Wrappers
  import opened MemoryAccess

  datatype ChainError = LevelFailed(level: nat, offset: int, cause: ReadError)

  /**
   * The walk from level `from + 1` on: `current` is the address reached after
   * the first `from` offsets, and an error at offsets[i] carries level i + 1,
   * as `enumerate(offsets, 1)` numbers them.
   */
  function Resolve(h: Handle, mem: Memory, current: int, offsets: seq<int>, from: nat): Result<int, ChainError>
    requires from <= |offsets|
    decreases |offsets| - from
  {
    if from == |offsets| then Success(current)
    else
      match ReadU64Spec(h, mem, current + offsets[from])
      case Failure(e) => Failure(LevelFailed(from + 1, offsets[from], e))
      case Success(next) => Resolve(h, mem, next, offsets, from + 1)
  }

  /** The addresses of the ReadProcessMemory calls the walk from level `from + 1` on issues, in order. */
  function ChainReads(h: Handle, mem: Memory, current: int, offsets: seq<int>, from: nat): (log: seq<int>)
    requires from <= |offsets|
    ensures |log| <= |offsets| - from
    decreases |offsets| - from
  {
    if from == |offsets| then []
    else
      var a := current + offsets[from];
      IssuedReads(h, a) +
      match ReadU64Spec(h, mem, a)
      case Failure(_) => []
      case Success(next) => ChainReads(h, mem, next, offsets, from + 1)
  }

  lemma AppendAssociates(a: seq<int>, b: seq<int>, c: seq<int>)
    ensures (a + b) + c == a + (b + c)
  {
  }

  /**
   * The walk over the first k offsets, then on from where it ended: a walk
   * that fails within the first k levels fails as that prefix does, and
   * otherwise continues from the prefix's end.
   */
  lemma {:induction false} ResolveSplit(h: Handle, mem: Memory, current: int, offsets: seq<int>, from: nat, k: nat)
    requires from <= k <= |offsets|
    ensures var head := Resolve(h, mem, current, offsets[..k], from);
            Resolve(h, mem, current, offsets, from) ==
              if head.Failure? then head else Resolve(h, mem, head.value, offsets, k)
    decreases k - from
  {
    if from < k {
      assert offsets[..k][from] == offsets[from];
      var first := ReadU64Spec(h, mem, current + offsets[from]);
      if first.Success? {
        ResolveSplit(h, mem, first.value, offsets, from + 1, k);
      }
    }
  }

  /** The reads of a walk are those over the first k offsets, then, if those all succeeded, the reads from where they ended. */
  lemma {:induction false} ChainReadsSplit(h: Handle, mem: Memory, current: int, offsets: seq<int>, from: nat, k: nat)
    requires from <= k <= |offsets|
    ensures var head := Resolve(h, mem, current, offsets[..k], from);
            ChainReads(h, mem, current, offsets, from) ==
              ChainReads(h, mem, current, offsets[..k], from) +
              if head.Failure? then [] else ChainReads(h, mem, head.value, offsets, k)
    decreases k - from
  {
    if from < k {
      var a := current + offsets[from];
      assert offsets[..k][from] == offsets[from];
      var first := ReadU64Spec(h, mem, a);
      if first.Success? {
        ChainReadsSplit(h, mem, first.value, offsets, from + 1, k);
        var head := Resolve(h, mem, current, offsets[..k], from);
        AppendAssociates(IssuedReads(h, a), ChainReads(h, mem, first.value, offsets[..k], from + 1),
                         if head.Failure? then [] else ChainReads(h, mem, head.value, offsets, k));
      }
    }
  }

  /** A walk that resolves issued one read per remaining offset. */
  lemma {:induction false} ResolvedReadsAll(h: Handle, mem: Memory, current: int, offsets: seq<int>, from: nat)
    requires from <= |offsets|
    requires Resolve(h, mem, current, offsets, from).Success?
    ensures |ChainReads(h, mem, current, offsets, from)| == |offsets| - from
    decreases |offsets| - from
  {
    if from < |offsets| {
      ReadU64Contract(h, mem, current + offsets[from]);
      ResolvedReadsAll(h, mem, ReadU64Spec(h, mem, current + offsets[from]).value, offsets, from + 1);
    }
  }

  /**
   * A resolved chain issued exactly one read per offset, in list order: the
   * i-th read is at the address reached after i levels plus offsets[i]. The
   * empty chain returns the base itself.
   */
  lemma ResolveSuccess(h: Handle, mem: Memory, base: int, offsets: seq<int>)
    requires Resolve(h, mem, base, offsets, 0).Success?
    ensures offsets == [] ==> Resolve(h, mem, base, offsets, 0).value == base
    ensures |ChainReads(h, mem, base, offsets, 0)| == |offsets|
    ensures forall i :: 0 <= i < |offsets| ==>
              Resolve(h, mem, base, offsets[..i], 0).Success? &&
              ChainReads(h, mem, base, offsets, 0)[i] == Resolve(h, mem, base, offsets[..i], 0).value + offsets[i]
  {
    ResolvedReadsAll(h, mem, base, offsets, 0);
    forall i | 0 <= i < |offsets|
      ensures Resolve(h, mem, base, offsets[..i], 0).Success?
      ensures ChainReads(h, mem, base, offsets, 0)[i] == Resolve(h, mem, base, offsets[..i], 0).value + offsets[i]
    {
      ResolveSplit(h, mem, base, offsets, 0, i);
      ChainReadsSplit(h, mem, base, offsets, 0, i);
      var end := Resolve(h, mem, base, offsets[..i], 0).value;
      ResolvedReadsAll(h, mem, base, offsets[..i], 0);
      ReadU64Contract(h, mem, end + offsets[i]);
    }
  }

  /**
   * A failed chain failed at some level k + 1: the first k levels resolved,
   * and the read at level k + 1 failed with the error carried.
   */
  lemma {:induction false} ResolveFailure(h: Handle, mem: Memory, current: int, offsets: seq<int>, from: nat)
    requires from <= |offsets|
    requires Resolve(h, mem, current, offsets, from).Failure?
    ensures var err := Resolve(h, mem, current, offsets, from).error;
            var k := err.level - 1;
            && from <= k < |offsets|
            && err.offset == offsets[k]
            && Resolve(h, mem, current, offsets[..k], from).Success?
            && ReadU64Spec(h, mem, Resolve(h, mem, current, offsets[..k], from).value + offsets[k]) == Failure(err.cause)
    decreases |offsets| - from
  {
    var first := ReadU64Spec(h, mem, current + offsets[from]);
    if first.Success? {
      var err := Resolve(h, mem, current, offsets, from).error;
      ResolveFailure(h, mem, first.value, offsets, from + 1);
      var k := err.level - 1;
      assert offsets[..k][from] == offsets[from];
    }
  }

  /** Once a chain has failed, appending offsets does not change the outcome: later levels are never looked at. */
  lemma FailedChainIgnoresLaterLevels(h: Handle, mem: Memory, base: int, offsets: seq<int>, more: seq<int>)
    requires Resolve(h, mem, base, offsets, 0).Failure?
    ensures Resolve(h, mem, base, offsets + more, 0) == Resolve(h, mem, base, offsets, 0)
  {
    assert (offsets + more)[..|offsets|] == offsets;
    ResolveSplit(h, mem, base, offsets + more, 0, |offsets|);
  }

  /** Once a chain has failed, appending offsets issues no further reads. */
  lemma FailedChainReadsNoMore(h: Handle, mem: Memory, base: int, offsets: seq<int>, more: seq<int>)
    requires Resolve(h, mem, base, offsets, 0).Failure?
    ensures ChainReads(h, mem, base, offsets + more, 0) == ChainReads(h, mem, base, offsets, 0)
  {
    assert (offsets + more)[..|offsets|] == offsets;
    ChainReadsSplit(h, mem, base, offsets + more, 0, |offsets|);
  }

  /**
   * If the first k levels resolved and the read at level k + 1 fails, the
   * walk fails there whatever offsets follow: the error carries level k + 1
   * and that level's offset.
   */
  lemma FailedLevelEndsWalk(h: Handle, mem: Memory, base: int, offsets: seq<int>, k: nat)
    requires k < |offsets|
    requires Resolve(h, mem, base, offsets[..k], 0).Success?
    requires ReadU64Spec(h, mem, Resolve(h, mem, base, offsets[..k], 0).value + offsets[k]).Failure?
    ensures Resolve(h, mem, base, offsets, 0) ==
              Failure(LevelFailed(k + 1, offsets[k], ReadU64Spec(h, mem, Resolve(h, mem, base, offsets[..k], 0).value + offsets[k]).error))
  {
    ResolveSplit(h, mem, base, offsets, 0, k);
  }

  /** In the same situation, the read at level k + 1 is the last one issued: no read is issued for any later level. */
  lemma FailedLevelReadsNoMore(h: Handle, mem: Memory, base: int, offsets: seq<int>, k: nat)
    requires k < |offsets|
    requires Resolve(h, mem, base, offsets[..k], 0).Success?
    requires ReadU64Spec(h, mem, Resolve(h, mem, base, offsets[..k], 0).value + offsets[k]).Failure?
    ensures ChainReads(h, mem, base, offsets, 0) ==
              ChainReads(h, mem, base, offsets[..k], 0) + IssuedReads(h, Resolve(h, mem, base, offsets[..k], 0).value + offsets[k])
  {
    ChainReadsSplit(h, mem, base, offsets, 0, k);
  }

  /** resolve_pointer_chain: the walk over a reader, stopping at the first failed level. */
  method ResolvePointerChain(reader: MemoryReader, base: int, offsets: seq<int>) returns (r: Result<int, ChainError>)
    modifies reader`osReads
    ensures r == Resolve(reader.handle, reader.memory, base, offsets, 0)
    ensures reader.osReads == old(reader.osReads) + ChainReads(reader.handle, reader.memory, base, offsets, 0)
  {
    ghost var h, mem := reader.handle, reader.memory;
    var current := base;
    for i := 0 to |offsets|
      invariant reader.handle == h
      invariant Resolve(h, mem, base, offsets, 0) == Resolve(h, mem, current, offsets, i)
      invariant old(reader.osReads) + ChainReads(h, mem, base, offsets, 0)
             == reader.osReads + ChainReads(h, mem, current, offsets, i)
    {
      ghost var before := reader.osReads;
      var v := reader.ReadU64(current + offsets[i]);
      if v.Failure? {
        return Failure(LevelFailed(i + 1, offsets[i], v.error));
      }
      AppendAssociates(before, IssuedReads(h, current + offsets[i]), ChainReads(h, mem, v.value, offsets, i + 1));
      current := v.value;
    }
    return Success(current);
  }
}
