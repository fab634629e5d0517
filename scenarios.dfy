/** Whole-system runs of the allocator against a fresh table: one instance
    issuing identifiers with no other writer, an instance refilling from an
    existing row, and two instances sharing one sequence under an arbitrary
    interleaving of their calls, rivals and SQL failures. */
module Scenarios {
  import opened Wrappers
  import opened Store
  import opened Allocator

  /** The number of blocks of `bs` identifiers an instance working alone
      claims to hand out `n` identifiers. */
  function BlocksFor(n: int, bs: int): (c: nat)
    requires bs >= 1
    decreases n
  {
    if n <= 0 then 0 else 1 + BlocksFor(n - bs, bs)
  }

  /** How many identifiers those blocks hold: the first multiple of `bs` that
      is at least `n`. */
  function CoveredBy(n: int, bs: int): (covered: int)
    requires bs >= 1
    decreases n
    ensures n <= 0 ==> covered == 0
    ensures n > 0 ==> n <= covered < n + bs
  {
    if n <= 0 then 0 else bs + CoveredBy(n - bs, bs)
  }

  /** The blocks claimed for `n` identifiers hold BlocksFor(n, bs) * bs of
      them, and one block fewer would not hold all `n`. */
  lemma {:induction false} BlocksForBounds(n: int, bs: int)
    requires bs >= 1
    decreases n
    ensures CoveredBy(n, bs) == BlocksFor(n, bs) * bs
    ensures n > 0 ==> (BlocksFor(n, bs) - 1) * bs < n <= BlocksFor(n, bs) * bs
  {
    if n > 0 {
      BlocksForBounds(n - bs, bs);
      assert (BlocksFor(n - bs, bs) + 1) * bs == BlocksFor(n - bs, bs) * bs + bs;
    }
  }

  /** Handing out identifier number i + 1 needs one more block exactly when
      the first i used up the blocks claimed for them. */
  lemma {:induction false} BlocksForStep(i: int, bs: int)
    requires bs >= 1 && i >= 0
    decreases i
    ensures i == CoveredBy(i, bs) ==>
      BlocksFor(i + 1, bs) == BlocksFor(i, bs) + 1 && CoveredBy(i + 1, bs) == CoveredBy(i, bs) + bs
    ensures i != CoveredBy(i, bs) ==>
      BlocksFor(i + 1, bs) == BlocksFor(i, bs) && CoveredBy(i + 1, bs) == CoveredBy(i, bs)
  {
    if i >= bs {
      BlocksForStep(i - bs, bs);
    }
  }

  /** After `i` identifiers from an instance that has worked alone on
      sequence `name`: the blocks it claimed are those the first i identifiers
      need, the row marks the end of the current window, and the next
      identifier is bs + i. */
  ghost predicate IssuingAlone(gen: LinearBlockAllocator, name: string, bs: int, i: nat)
    reads gen, gen.table
  {
    && gen.Valid()
    && gen.sequenceName == Some(name) && gen.blockSize == bs
    && gen.statisticsTableAccessCount == BlocksFor(i, bs)
    && (i == 0 ==> name !in gen.table.rows && gen.allocNext == gen.allocHi)
    && (i > 0 ==>
          && name in gen.table.rows && gen.table.rows[name] == gen.allocHi
          && gen.allocNext == bs + i
          && gen.allocHi == bs + CoveredBy(i, bs))
  }

  /** A new instance on a new, empty table, configured with sequence `name`
      and block size `requestedBlockSize`. */
  method NewAlone(name: string, requestedBlockSize: int) returns (gen: LinearBlockAllocator)
    ensures fresh(gen) && fresh(gen.table)
    ensures IssuingAlone(gen, name, ClampBlockSize(requestedBlockSize), 0)
  {
    var table := new AllocTable();
    gen := new LinearBlockAllocator(table);
    var configured := gen.Configure(Params(Some(name), None, Some(requestedBlockSize)));
  }

  /** The next identifier of an instance working alone: bs + i. */
  method NextAloneId(gen: LinearBlockAllocator, name: string, bs: int, i: nat) returns (id: int)
    requires IssuingAlone(gen, name, bs, i)
    modifies gen, gen.table
    ensures id == bs + i
    ensures IssuingAlone(gen, name, bs, i + 1)
  {
    BlocksForStep(i, bs);
    var r := gen.Generate([]);
    id := r.value;
  }

  /** `n` identifiers from an instance working alone: bs, bs + 1, ... */
  method IssueAlone(gen: LinearBlockAllocator, name: string, bs: int, n: nat) returns (ids: seq<int>)
    requires IssuingAlone(gen, name, bs, 0)
    modifies gen, gen.table
    ensures IssuingAlone(gen, name, bs, n)
    ensures |ids| == n && forall k | 0 <= k < n :: ids[k] == bs + k
  {
    ids := [];
    var i := 0;
    while i < n
      invariant IssuingAlone(gen, name, bs, i)
      invariant i <= n && |ids| == i
      invariant forall k | 0 <= k < i :: ids[k] == bs + k
    {
      var id := NextAloneId(gen, name, bs, i);
      ids := ids + [id];
      i := i + 1;
    }
  }

  /** One instance configured with sequence `name` and block size
      `requestedBlockSize`, on an empty table and with no other writer, asked
      `n` times for an identifier. The identifiers run consecutively from the
      (clamped) block size, the first block being the one the bootstrap
      creates; the table was read once per block the identifiers need; the
      row ends one block past the last block claimed. */
  method SequentialIds(name: string, requestedBlockSize: int, n: nat) returns (ids: seq<int>, accesses: nat, row: Option<int>)
    ensures |ids| == n
    ensures forall k | 0 <= k < n :: ids[k] == ClampBlockSize(requestedBlockSize) + k
    ensures accesses == BlocksFor(n, ClampBlockSize(requestedBlockSize))
    ensures n == 0 ==> row == None
    ensures n > 0 ==> row == Some(ClampBlockSize(requestedBlockSize) + CoveredBy(n, ClampBlockSize(requestedBlockSize)))
  {
    var gen := NewAlone(name, requestedBlockSize);
    ids := IssueAlone(gen, name, gen.blockSize, n);
    accesses := gen.GetStatsTableAccessCount();
    row := gen.table.Read(name);
  }

  /** Twenty identifiers at block size 10: the identifiers 10 to 29, from two
      blocks, so two table accesses, and the row left at 30. */
  method BlockAllocationRun() returns (ids: seq<int>, accesses: nat, row: Option<int>)
    ensures |ids| == 20 && forall k | 0 <= k < 20 :: ids[k] == 10 + k
    ensures accesses == 2
    ensures row == Some(30)
  {
    ids, accesses, row := SequentialIds("EntityA", 10, 20);
  }

  /** An instance of sequence "Customer" at block size 10 whose row holds 300:
      its first identifier is 300, the guarded update moves the row from 300
      to 310, and one table access is counted. */
  method CustomerRefill() returns (id: int, row: Option<int>, accesses: nat)
    ensures id == 300 && row == Some(310) && accesses == 1
  {
    var table := new AllocTable();
    var seeded := table.Insert("Customer", 300);
    var gen := new LinearBlockAllocator(table);
    var configured := gen.Configure(Params(Some("Customer"), None, Some(10)));
    var r := gen.Generate([]);
    id := r.value;
    row := table.Read("Customer");
    accesses := gen.GetStatsTableAccessCount();
  }

  /** One call of `generate` in an interleaving of two instances: which
      instance is called, and what happens around each pass of its fetch. */
  datatype Call = Call(byFirst: bool, turns: seq<Turn>)

  /** Two distinct, valid instances configured with the same sequence
      `name` over one table. */
  ghost predicate SharingSequence(a: LinearBlockAllocator, b: LinearBlockAllocator, name: string)
    reads a, b, a.table
  {
    && a != b && a.table == b.table
    && a.sequenceName == Some(name) && b.sequenceName == Some(name)
    && a.Valid() && b.Valid()
  }

  /** Two new instances of sequence `name` on a new, empty table. */
  method NewPair(name: string, sizeA: int, sizeB: int) returns (a: LinearBlockAllocator, b: LinearBlockAllocator)
    ensures fresh(a) && fresh(b) && fresh(a.table)
    ensures SharingSequence(a, b, name)
    ensures a.issued == {} && b.issued == {}
  {
    var table := new AllocTable();
    a := new LinearBlockAllocator(table);
    b := new LinearBlockAllocator(table);
    var configuredA := a.Configure(Params(Some(name), None, Some(sizeA)));
    var configuredB := b.Configure(Params(Some(name), None, Some(sizeB)));
  }

  /** One call of `generate` on the instance `call` names. An identifier it
      returns was returned by neither instance before, and it joins the ones
      they have returned; the other instance stays valid. */
  method PairCall(a: LinearBlockAllocator, b: LinearBlockAllocator, name: string, call: Call)
    returns (r: Result<int, SqlError>)
    requires SharingSequence(a, b, name)
    modifies a, b, a.table
    ensures SharingSequence(a, b, name)
    ensures r.Success? ==> r.value !in old(a.issued) + old(b.issued)
    ensures a.issued + b.issued == old(a.issued) + old(b.issued) + (if r.Success? then {r.value} else {})
  {
    ghost var before := a.table.claims;
    if call.byFirst {
      r := a.Generate(call.turns);
      HoldsExtends(before, a.table.claims, b, name, b.allocNext, b.allocHi, b.issued);
    } else {
      r := b.Generate(call.turns);
      HoldsExtends(before, a.table.claims, a, name, a.allocNext, a.allocHi, a.issued);
    }
    InstancesIssueDisjointIds(a, b);
  }

  /** Two instances of one sequence on one table (with their own block sizes)
      called in the order `schedule` gives, each call under its own rivals and
      failures. Every identifier either of them returns is distinct from all
      others returned. */
  method TwoInstances(name: string, sizeA: int, sizeB: int, schedule: seq<Call>) returns (ids: seq<int>)
    ensures |ids| <= |schedule|
    ensures forall i, j | 0 <= i < j < |ids| :: ids[i] != ids[j]
  {
    var a, b := NewPair(name, sizeA, sizeB);
    ids := [];
    var i := 0;
    while i < |schedule|
      invariant i <= |schedule| && |ids| <= i
      invariant SharingSequence(a, b, name)
      invariant forall k | 0 <= k < |ids| :: ids[k] in a.issued + b.issued
      invariant forall k, l | 0 <= k < l < |ids| :: ids[k] != ids[l]
      modifies a, b, a.table
    {
      var r := PairCall(a, b, name, schedule[i]);
      if r.Success? {
        ids := ids + [r.value];
      }
      i := i + 1;
    }
  }
}
