/** LinearBlockAllocator: hands out identifiers from an in-memory window
    [allocNext, allocHi) and, when the window is used up, claims the next
    block of `blockSize` identifiers from the shared allocator table with an
    optimistic read / compare-and-swap loop that creates the sequence's row
    on first use. */
module Allocator {
  import opened Wrappers
  import opened Store

  /** Block size used when the `blockSize` parameter is absent. */
  const DEFAULT_BLOCK_SIZE: int := 100

  /** The configuration parameters the allocator reads: `sequenceName`, the
      owning entity's table name (the default sequence name) and `blockSize`. */
  datatype Params = Params(sequenceName: Option<string>, entityTable: Option<string>, blockSize: Option<int>)

  datatype ConfigError = MissingSequenceName

  /** A configured block size below 1 is raised to 1; any other is kept. */
  function ClampBlockSize(n: int): (bs: int)
    ensures bs >= 1
    ensures n >= 1 ==> bs == n
    ensures n < 1 ==> bs == 1
  {
    if n < 1 then 1 else n
  }

  /** The sequence name: the `sequenceName` parameter, else the entity's table
      name; nothing when neither is given. */
  function ResolveSequenceName(p: Params): (name: Option<string>)
    ensures name.Some? <==> p.sequenceName.Some? || p.entityTable.Some?
    ensures p.sequenceName.Some? ==> name == p.sequenceName
    ensures p.sequenceName.None? ==> name == p.entityTable
  {
    if p.sequenceName.Some? then p.sequenceName else p.entityTable
  }

  /** The effective block size: at least 1, the configured value when that is
      already valid, and the default when none is configured. */
  function ResolveBlockSize(p: Params): (bs: int)
    ensures bs >= 1
    ensures p.blockSize.None? ==> bs == DEFAULT_BLOCK_SIZE
    ensures p.blockSize.Some? && p.blockSize.value >= 1 ==> bs == p.blockSize.value
    ensures p.blockSize.Some? && p.blockSize.value < 1 ==> bs == 1
  {
    ClampBlockSize(p.blockSize.GetOr(DEFAULT_BLOCK_SIZE))
  }

  /** The statements of one pass of the fetch loop, in order. */
  datatype Stage = AtRead | AtInsert | AtUpdate

  /** What the rest of the world does during one pass of the fetch loop.
      Calm: nothing. Rival(b): right after our read, before our next write,
      another allocator instance configured with block size b claims a block
      of the same sequence (creating the row if there is none). Fails(s): the
      statement at stage s raises an SQL error; a stage the pass does not
      reach or does not issue is unaffected. */
  datatype Turn = Calm | Rival(rivalBlockSize: int) | Fails(stage: Stage)

  /** How one pass of the fetch loop ends: the update claimed the block
      starting at `start`; the update changed no row because another writer
      advanced the row since it was read; or a statement failed. */
  datatype PassOutcome = Claimed(start: int) | Contended | Aborted(error: SqlError)

  /** The error that ends a fetch whose passes from pass k on meet `turns`,
      or None when the fetch claims a block. `present` says whether the
      sequence has a row when pass k starts. A rival on an existing row only
      makes its pass retry (the rows it leaves still exist); a rival that
      creates the row first makes our insert fail; a scheduled failure decides
      the fetch when its pass reaches that statement (the insert only runs on
      a sequence with no row); a calm pass, or the end of the schedule, claims. */
  function ScheduledError(turns: seq<Turn>, k: nat, present: bool): Option<SqlError>
    decreases |turns| - k
  {
    if k >= |turns| then None
    else match turns[k]
      case Calm => None
      case Rival(_) => if present then ScheduledError(turns, k + 1, true) else Some(DuplicateKey)
      case Fails(AtRead) => Some(ReadFailed)
      case Fails(AtInsert) => if present then None else Some(InsertFailed)
      case Fails(AtUpdate) => Some(UpdateFailed)
  }

  /** Contention alone never makes a fetch fail: on a sequence that has a row,
      a schedule with no SQL failure ends with a claim. */
  lemma {:induction false} ContentionNeverFails(turns: seq<Turn>, k: nat)
    requires forall j | k <= j < |turns| :: !turns[j].Fails?
    decreases |turns| - k
    ensures ScheduledError(turns, k, true) == None
  {
    if k < |turns| {
      ContentionNeverFails(turns, k + 1);
    }
  }

  /** Every error a fetch ends with has a cause in the schedule: a duplicate
      key comes from a rival in the first pass on a sequence with no row, any
      other error from a scheduled SQL failure. */
  lemma {:induction false} ErrorHasCause(turns: seq<Turn>, k: nat, present: bool)
    decreases |turns| - k
    ensures ScheduledError(turns, k, present) == Some(DuplicateKey) ==>
      !present && k < |turns| && turns[k].Rival?
    ensures ScheduledError(turns, k, present).Some? && ScheduledError(turns, k, present) != Some(DuplicateKey) ==>
      exists j | k <= j < |turns| :: turns[j].Fails?
  {
    if k < |turns| && turns[k].Rival? && present {
      ErrorHasCause(turns, k + 1, true);
    }
  }

  /** The first half of one pass of the fetch loop: read NEXT_VAL and, when
      the sequence has no row, insert (name, blockSize) and take blockSize as
      the value read. A rival scheduled for this pass runs its whole protocol
      between the read and the insert. */
  method ReadOrBootstrap(table: AllocTable, name: string, blockSize: int, turn: Turn)
    returns (r: Result<int, SqlError>)
    requires table.Valid()
    requires blockSize >= 1
    modifies table
    decreases if turn.Rival? then 1 else 0, 0
    ensures table.Valid()
    ensures Keeps(old(table.claims), table.claims)
    ensures forall p | p in table.claims && p !in old(table.claims) :: p.0 == name
    ensures table.rows - {name} == old(table.rows) - {name}
    ensures name in old(table.rows) ==> name in table.rows && old(table.rows)[name] <= table.rows[name]
    ensures r.Success? ==> r.value == if name in old(table.rows) then old(table.rows)[name] else blockSize
    ensures !turn.Rival? ==> table.claims == old(table.claims)
    ensures !turn.Rival? && r.Success? ==> name in table.rows && table.rows[name] == r.value
    ensures turn == Calm || turn == Fails(AtUpdate) || (turn == Fails(AtInsert) && name in old(table.rows)) ==>
      r.Success?
    ensures turn == Fails(AtRead) ==> r == Failure(ReadFailed) && table.rows == old(table.rows)
    ensures turn == Fails(AtInsert) && name !in old(table.rows) ==>
      r == Failure(InsertFailed) && table.rows == old(table.rows)
    ensures turn.Rival? && name !in old(table.rows) ==> r == Failure(DuplicateKey)
    ensures turn.Rival? && name in old(table.rows) ==> r.Success? && table.rows[name] > r.value
  {
    if turn == Fails(AtRead) {
      return Failure(ReadFailed);
    }
    var current := table.Read(name);
    if turn.Rival? {
      // another instance runs the whole protocol between our read and our next write
      var _ := FetchAndAdvance(table, name, ClampBlockSize(turn.rivalBlockSize), [], null);
    }
    if current.Some? {
      return Success(current.value);
    }
    if turn == Fails(AtInsert) {
      return Failure(InsertFailed);
    }
    var inserted := table.Insert(name, blockSize);
    if inserted.Failure? {
      return Failure(inserted.error);
    }
    r := Success(blockSize);
  }

  /** One pass of the fetch loop: read (or bootstrap) NEXT_VAL, then set the
      row to that value plus blockSize only if it still holds that value.
      There is no early return after the insert: the freshly inserted row goes
      through the same guarded update. */
  method Pass(table: AllocTable, name: string, blockSize: int, turn: Turn, ghost holder: object?)
    returns (p: PassOutcome)
    requires table.Valid()
    requires blockSize >= 1
    modifies table
    decreases if turn.Rival? then 1 else 0, 1
    ensures table.Valid()
    ensures Keeps(old(table.claims), table.claims)
    ensures forall p | p in table.claims && p !in old(table.claims) :: p.0 == name
    ensures table.rows - {name} == old(table.rows) - {name}
    ensures name in old(table.rows) ==> name in table.rows && old(table.rows)[name] <= table.rows[name]
    ensures p.Claimed? ==>
      && name in table.rows
      && table.rows[name] == p.start + blockSize
      && (forall x | p.start <= x < p.start + blockSize ::
            (name, x) !in old(table.claims) && (name, x) in table.claims && table.claims[(name, x)] == holder)
      && (name in old(table.rows) ==> old(table.rows)[name] <= p.start)
    ensures turn == Calm || (turn == Fails(AtInsert) && name in old(table.rows)) ==>
      p == Claimed(if name in old(table.rows) then old(table.rows)[name] else blockSize)
    ensures turn.Rival? && name in old(table.rows) ==> p == Contended
    ensures turn.Rival? && name !in old(table.rows) ==> p == Aborted(DuplicateKey)
    ensures turn == Fails(AtRead) ==>
      p == Aborted(ReadFailed) && table.rows == old(table.rows) && table.claims == old(table.claims)
    ensures turn == Fails(AtInsert) && name !in old(table.rows) ==>
      p == Aborted(InsertFailed) && table.rows == old(table.rows) && table.claims == old(table.claims)
    ensures turn == Fails(AtUpdate) ==> p == Aborted(UpdateFailed) && table.claims == old(table.claims)
  {
    var read := ReadOrBootstrap(table, name, blockSize, turn);
    if read.Failure? {
      return Aborted(read.error);
    }
    if turn == Fails(AtUpdate) {
      return Aborted(UpdateFailed);
    }
    var rows := table.CasUpdate(name, read.value + blockSize, read.value, holder);
    p := if rows == 0 then Contended else Claimed(read.value);
  }

  /** The body of the isolated unit of work: passes of the loop above, repeated
      while the update changed no row. Answers the start of the claimed block;
      an SQL error ends the loop at once. `turns` schedules the other writers
      and the failures, one entry per pass; once it is used up, every pass is
      calm. */
  method FetchAndAdvance(table: AllocTable, name: string, blockSize: int, turns: seq<Turn>, ghost holder: object?)
    returns (r: Result<int, SqlError>)
    requires table.Valid()
    requires blockSize >= 1
    modifies table
    decreases |turns|, 2
    ensures table.Valid()
    ensures Keeps(old(table.claims), table.claims)
    ensures forall p | p in table.claims && p !in old(table.claims) :: p.0 == name
    ensures table.rows - {name} == old(table.rows) - {name}
    ensures name in old(table.rows) ==> name in table.rows && old(table.rows)[name] <= table.rows[name]
    ensures r.Success? ==>
      && name in table.rows
      && table.rows[name] == r.value + blockSize
      && (forall x | r.value <= x < r.value + blockSize ::
            (name, x) !in old(table.claims) && (name, x) in table.claims && table.claims[(name, x)] == holder)
      && (name in old(table.rows) ==> old(table.rows)[name] <= r.value)
    ensures turns == [] ==> r == Success(if name in old(table.rows) then old(table.rows)[name] else blockSize)
    ensures turns != [] && turns[0] == Fails(AtRead) ==>
      r == Failure(ReadFailed) && table.rows == old(table.rows) && table.claims == old(table.claims)
    ensures turns != [] && turns[0].Rival? && name !in old(table.rows) ==>
      r == Failure(DuplicateKey)
    ensures r.Failure? <==> ScheduledError(turns, 0, name in old(table.rows)).Some?
    ensures r.Failure? ==> ScheduledError(turns, 0, name in old(table.rows)) == Some(r.error)
  {
    var k := 0;
    while true
      invariant k <= |turns|
      invariant table.Valid()
      invariant Keeps(old(table.claims), table.claims)
      invariant forall p | p in table.claims && p !in old(table.claims) :: p.0 == name
      invariant table.rows - {name} == old(table.rows) - {name}
      invariant name in old(table.rows) ==> name in table.rows && old(table.rows)[name] <= table.rows[name]
      invariant k == 0 ==> table.rows == old(table.rows) && table.claims == old(table.claims)
      invariant turns != [] && turns[0] == Fails(AtRead) ==> k == 0
      invariant turns != [] && turns[0].Rival? && name !in old(table.rows) ==> k == 0
      invariant k > 0 ==> name in table.rows
      invariant ScheduledError(turns, k, name in table.rows) == ScheduledError(turns, 0, name in old(table.rows))
      decreases |turns| - k
    {
      var turn := if k < |turns| then turns[k] else Calm;
      var p := Pass(table, name, blockSize, turn, holder);
      match p
      case Claimed(start) => return Success(start);
      case Aborted(e) => return Failure(e);
      case Contended =>
      k := k + 1;
    }
  }

  /** The state of allocator instance `me` of sequence `name` against the
      table's claims: every identifier of the window [next, hi) and every
      identifier in `issued` was claimed by `me`, and all of `issued` lie
      below `next`. */
  ghost predicate Holds(claims: Claims, me: object, name: string, next: int, hi: int, issued: set<int>)
  {
    && next <= hi
    && (forall x | next <= x < hi :: (name, x) in claims && claims[(name, x)] == me)
    && (forall x | x in issued :: (name, x) in claims && claims[(name, x)] == me && x < next)
  }

  /** Claims made later, by anyone, leave an instance's holdings intact. */
  lemma HoldsExtends(claims: Claims, claims': Claims, me: object, name: string, next: int, hi: int, issued: set<int>)
    requires Holds(claims, me, name, next, hi, issued)
    requires Keeps(claims, claims')
    ensures Holds(claims', me, name, next, hi, issued)
  {
  }

  /** Taking `next` from a window that is not used up returns an identifier
      above every one returned before, and keeps the holdings. */
  lemma HoldsAfterTake(claims: Claims, me: object, name: string, next: int, hi: int, issued: set<int>)
    requires Holds(claims, me, name, next, hi, issued)
    requires next < hi
    ensures next !in issued
    ensures forall x | x in issued :: x < next
    ensures Holds(claims, me, name, next + 1, hi, issued + {next})
  {
  }

  /** Resetting an exhausted window to a block [v, v + blockSize) just claimed
      by `me`, which starts above every identifier returned so far, keeps the
      holdings. */
  lemma HoldsAfterRefill(claims: Claims, me: object, name: string, next: int, hi: int, issued: set<int>,
                         v: int, blockSize: int)
    requires Holds(claims, me, name, next, hi, issued)
    requires blockSize >= 1
    requires forall x | v <= x < v + blockSize :: (name, x) in claims && claims[(name, x)] == me
    requires forall x | x in issued :: x < v
    ensures Holds(claims, me, name, v, v + blockSize, issued)
  {
  }

  class LinearBlockAllocator {
    /** The shared allocator table. */
    const table: AllocTable
    var sequenceName: Option<string>
    var blockSize: int
    /** The window: allocNext is the next identifier to hand out, allocHi the
        end of the block it was cut from. */
    var allocNext: int
    var allocHi: int
    /** Number of blocks fetched from the table. */
    var statisticsTableAccessCount: nat
    /** Every identifier returned so far. */
    ghost var issued: set<int>

    /** Before any use. */
    ghost predicate Unused()
      reads this
    {
      issued == {} && allocNext == 0 && allocHi == 0 && statisticsTableAccessCount == 0
    }

    /** Configured; the window and every identifier returned were claimed by
        this instance. */
    ghost predicate Sound()
      reads this, table
    {
      && sequenceName.Some?
      && blockSize >= 1
      && table.Valid()
      && Holds(table.claims, this, sequenceName.value, allocNext, allocHi, issued)
    }

    /** Sound, and the window holds fewer than blockSize identifiers (one has
        been taken from every block claimed). */
    ghost predicate Valid()
      reads this, table
    {
      Sound() && allocHi - allocNext < blockSize
    }

    /** A new, not yet configured allocator over `table`; its window starts
        exhausted at 0. */
    constructor (table: AllocTable)
      ensures this.table == table
      ensures sequenceName == None && blockSize == 0
      ensures Unused()
    {
      this.table := table;
      sequenceName := None;
      blockSize := 0;
      allocNext, allocHi := 0, 0;
      statisticsTableAccessCount := 0;
      issued := {};
    }

    /** Reads the sequence name (required) and the block size (raised to 1
        when smaller). */
    method Configure(params: Params) returns (r: Result<(), ConfigError>)
      requires Unused()
      modifies this`sequenceName, this`blockSize
      ensures sequenceName == ResolveSequenceName(params)
      ensures r.Success? <==> sequenceName.Some?
      ensures r.Failure? ==> r.error == MissingSequenceName && blockSize == old(blockSize)
      ensures r.Success? ==> blockSize == ResolveBlockSize(params)
      ensures r.Success? && table.Valid() ==> Valid()
    {
      sequenceName := if params.sequenceName.Some? then params.sequenceName else params.entityTable;
      if sequenceName == None {
        return Failure(MissingSequenceName);
      }
      blockSize := params.blockSize.GetOr(DEFAULT_BLOCK_SIZE);
      if blockSize < 1 {
        blockSize := 1;
      }
      r := Success(());
    }

    /** Claims the next block of the sequence from the table, counting each
        successful claim. */
    method AllocateBlock(turns: seq<Turn>) returns (r: Result<int, SqlError>)
      requires Valid()
      modifies this`statisticsTableAccessCount, table
      ensures Valid()
      ensures Keeps(old(table.claims), table.claims)
      ensures table.rows - {sequenceName.value} == old(table.rows) - {sequenceName.value}
      ensures statisticsTableAccessCount == old(statisticsTableAccessCount) + (if r.Success? then 1 else 0)
      ensures r.Success? ==>
        && sequenceName.value in table.rows
        && table.rows[sequenceName.value] == r.value + blockSize
        && (forall x | r.value <= x < r.value + blockSize ::
              (sequenceName.value, x) in table.claims && table.claims[(sequenceName.value, x)] == this)
        && (sequenceName.value in old(table.rows) ==> old(table.rows)[sequenceName.value] <= r.value)
      ensures turns == [] ==>
        r == Success(if sequenceName.value in old(table.rows) then old(table.rows)[sequenceName.value] else blockSize)
      ensures r.Failure? <==> ScheduledError(turns, 0, sequenceName.value in old(table.rows)).Some?
      ensures r.Failure? ==> ScheduledError(turns, 0, sequenceName.value in old(table.rows)) == Some(r.error)
      ensures turns != [] && turns[0] == Fails(AtRead) ==>
        table.rows == old(table.rows) && table.claims == old(table.claims)
    {
      ghost var before := table.claims;
      r := FetchAndAdvance(table, sequenceName.value, blockSize, turns, this);
      HoldsExtends(before, table.claims, this, sequenceName.value, allocNext, allocHi, issued);
      if r.Success? {
        statisticsTableAccessCount := statisticsTableAccessCount + 1;
      }
    }

    /** The refill branch of `generate`: claims a block from the table and,
        only when that succeeds, resets the window to it. */
    method Refill(turns: seq<Turn>) returns (r: Result<int, SqlError>)
      requires Valid()
      requires allocNext >= allocHi
      modifies this`allocNext, this`allocHi, this`statisticsTableAccessCount, table
      ensures Sound()
      ensures Keeps(old(table.claims), table.claims)
      ensures table.rows - {sequenceName.value} == old(table.rows) - {sequenceName.value}
      ensures r.Success? ==>
        && allocNext == r.value && allocHi == r.value + blockSize && allocNext < allocHi
        && statisticsTableAccessCount == old(statisticsTableAccessCount) + 1
        && sequenceName.value in table.rows
        && table.rows[sequenceName.value] == allocHi
      ensures turns == [] ==>
        r == Success(if sequenceName.value in old(table.rows) then old(table.rows)[sequenceName.value] else blockSize)
      ensures r.Failure? <==> ScheduledError(turns, 0, sequenceName.value in old(table.rows)).Some?
      ensures r.Failure? ==> ScheduledError(turns, 0, sequenceName.value in old(table.rows)) == Some(r.error)
      ensures r.Failure? ==>
        && allocNext == old(allocNext) && allocHi == old(allocHi)
        && statisticsTableAccessCount == old(statisticsTableAccessCount)
    {
      ghost var rowsBefore := table.rows;
      r := AllocateBlock(turns);
      if r.Failure? {
        return;
      }
      // every identifier returned so far was claimed before the fetch, so it
      // lies below the row's value at that time, and the new block starts there
      assert forall x | x in issued :: x < rowsBefore[sequenceName.value] <= r.value;
      HoldsAfterRefill(table.claims, this, sequenceName.value, allocNext, allocHi, issued, r.value, blockSize);
      allocNext := r.value;
      allocHi := r.value + blockSize;
    }

    /** Returns the next identifier: from the window when it is not used up,
        otherwise from a freshly claimed block whose first identifier it
        returns. The window changes only after a successful claim. */
    method Generate(turns: seq<Turn>) returns (r: Result<int, SqlError>)
      requires Valid()
      modifies this, table
      ensures Valid()
      ensures sequenceName == old(sequenceName) && blockSize == old(blockSize)
      ensures Keeps(old(table.claims), table.claims)
      ensures table.rows - {sequenceName.value} == old(table.rows) - {sequenceName.value}
      ensures old(allocNext) < old(allocHi) ==>
        && r == Success(old(allocNext))
        && allocNext == old(allocNext) + 1
        && allocHi == old(allocHi)
        && statisticsTableAccessCount == old(statisticsTableAccessCount)
        && table.rows == old(table.rows)
        && table.claims == old(table.claims)
      ensures old(allocNext) >= old(allocHi) && r.Success? ==>
        && allocNext == r.value + 1
        && allocHi == r.value + blockSize
        && statisticsTableAccessCount == old(statisticsTableAccessCount) + 1
        && sequenceName.value in table.rows
        && table.rows[sequenceName.value] == allocHi
      ensures old(allocNext) >= old(allocHi) && turns == [] ==>
        r == Success(if sequenceName.value in old(table.rows) then old(table.rows)[sequenceName.value] else blockSize)
      ensures old(allocNext) >= old(allocHi) ==>
        (r.Failure? <==> ScheduledError(turns, 0, sequenceName.value in old(table.rows)).Some?)
      ensures r.Failure? ==>
        old(allocNext) >= old(allocHi) && ScheduledError(turns, 0, sequenceName.value in old(table.rows)) == Some(r.error)
      ensures r.Failure? ==>
        && allocNext == old(allocNext)
        && allocHi == old(allocHi)
        && statisticsTableAccessCount == old(statisticsTableAccessCount)
        && issued == old(issued)
      ensures r.Success? ==>
        && r.value !in old(issued)
        && (forall x | x in old(issued) :: x < r.value)
        && issued == old(issued) + {r.value}
    {
      if allocNext >= allocHi {
        var fetched := Refill(turns);
        if fetched.Failure? {
          return Failure(fetched.error);
        }
      }
      HoldsAfterTake(table.claims, this, sequenceName.value, allocNext, allocHi, issued);
      var result := allocNext;
      allocNext := allocNext + 1;
      issued := issued + {result};
      r := Success(result);
    }

    /** The number of blocks this instance has fetched from the table. */
    function GetStatsTableAccessCount(): (n: nat)
      reads this
      ensures n == statisticsTableAccessCount
    {
      statisticsTableAccessCount
    }
  }

  /** The row of a sequence stands above every identifier an instance of it
      has returned or holds in its window. */
  lemma RowAboveIssued(a: LinearBlockAllocator)
    requires a.Valid()
    ensures forall x | x in a.issued || a.allocNext <= x < a.allocHi ::
      a.sequenceName.value in a.table.rows && x < a.table.rows[a.sequenceName.value]
  {
    // both kinds of identifier were claimed by a, and claims lie below the row
    var name := a.sequenceName.value;
    forall x | x in a.issued || a.allocNext <= x < a.allocHi
      ensures name in a.table.rows && x < a.table.rows[name]
    {
      assert (name, x) in a.table.claims;
    }
  }

  /** Two instances drawing on one sequence of one table never return the
      same identifier, and neither returns one that lies in the other's
      window. */
  lemma InstancesIssueDisjointIds(a: LinearBlockAllocator, b: LinearBlockAllocator)
    requires a != b && a.table == b.table
    requires a.Valid() && b.Valid()
    requires a.sequenceName == b.sequenceName
    ensures a.issued !! b.issued
    ensures forall x | x in a.issued :: !(b.allocNext <= x < b.allocHi)
    ensures forall x | x in b.issued :: !(a.allocNext <= x < a.allocHi)
  {
    // an identifier both returned would have been claimed for a and for b
    var name := a.sequenceName.value;
    forall x | x in a.issued
      ensures x !in b.issued
    {
      assert a.table.claims[(name, x)] == a;
    }
  }
}
