/** The shared allocator table (KEY_ALLOC by default): one row per sequence
    name, holding NEXT_VAL, the start of the next block nobody has claimed yet.
    The three statements the allocator issues against it (the SELECT, the
    INSERT that bootstraps a row and the guarded UPDATE) are the three methods
    of `AllocTable`; each is atomic, as a single SQL statement is. */
module Store {
  import opened Wrappers

  /** The ways a statement against the table can fail (an SQLException). */
  datatype SqlError = ReadFailed | InsertFailed | DuplicateKey | UpdateFailed

  /** Who claimed which identifier: (sequence name, identifier) -> the
      allocator instance whose successful update claimed it (null stands for
      an instance outside the model). */
  type Claims = imap<(string, int), object?>

  /** The claims made by one successful update: every identifier of
      [lo, hi) in sequence `name`, for `holder`. */
  ghost function BlockClaims(name: string, lo: int, hi: int, holder: object?): (c: Claims)
    ensures forall x | lo <= x < hi :: (name, x) in c && c[(name, x)] == holder
    ensures forall p | p in c :: p.0 == name && lo <= p.1 < hi
  {
    imap p: (string, int) | p.0 == name && lo <= p.1 < hi :: holder
  }

  /** `c'` keeps every claim of `c` unchanged: a claim, once made, stands. */
  ghost predicate Keeps(c: Claims, c': Claims)
  {
    forall p | p in c :: p in c' && c'[p] == c[p]
  }

  class AllocTable {
    /** SEQ -> NEXT_VAL. */
    var rows: map<string, int>
    /** Every identifier a successful compare-and-swap ever handed out. */
    ghost var claims: Claims

    /** Every claimed identifier lies below its sequence's row value, so the
        block starting at that value has not been handed out to anyone. */
    ghost predicate Valid()
      reads this
    {
      forall p | p in claims :: p.0 in rows && p.1 < rows[p.0]
    }

    /** An empty table. */
    constructor ()
      ensures Valid()
      ensures rows == map[] && claims == imap[]
    {
      rows := map[];
      claims := imap[];
    }

    /** SELECT NEXT_VAL FROM KEY_ALLOC WHERE SEQ = name: the row's value, or
        nothing when the sequence has no row yet. */
    method Read(name: string) returns (v: Option<int>)
      ensures v.Some? <==> name in rows
      ensures v.Some? ==> v.value == rows[name]
    {
      v := if name in rows then Some(rows[name]) else None;
    }

    /** INSERT INTO KEY_ALLOC (SEQ, NEXT_VAL) VALUES (name, value); SEQ is the
        primary key, so a second row for the same name is refused. */
    method Insert(name: string, value: int) returns (r: Result<(), SqlError>)
      requires Valid()
      modifies this
      ensures Valid()
      ensures r.Success? <==> name !in old(rows)
      ensures r.Success? ==> rows == old(rows)[name := value]
      ensures r.Failure? ==> r.error == DuplicateKey && rows == old(rows)
      ensures rows - {name} == old(rows) - {name}
      ensures name in rows && (r.Success? ==> rows[name] == value)
      ensures claims == old(claims)
    {
      if name in rows {
        r := Failure(DuplicateKey);
      } else {
        rows := rows[name := value];
        r := Success(());
      }
    }

    /** UPDATE KEY_ALLOC SET NEXT_VAL = newValue WHERE SEQ = name AND
        NEXT_VAL = expected: changes the row only if it still holds the value
        the caller read, and answers the number of rows it changed. A
        successful update claims [expected, newValue) for `holder`, none of
        which anyone had claimed before. */
    method CasUpdate(name: string, newValue: int, expected: int, ghost holder: object?)
      returns (count: nat)
      requires Valid()
      requires expected < newValue
      modifies this
      ensures Valid()
      ensures count <= 1
      ensures count == 1 <==> name in old(rows) && old(rows)[name] == expected
      ensures count == 1 ==>
        && rows == old(rows)[name := newValue]
        && claims == old(claims) + BlockClaims(name, expected, newValue, holder)
      ensures count == 0 ==> rows == old(rows) && claims == old(claims)
      ensures rows - {name} == old(rows) - {name}
      ensures Keeps(old(claims), claims)
      ensures forall p | p in claims && p !in old(claims) :: p.0 == name
      ensures count == 1 ==>
        && name in rows && rows[name] == newValue
        && (forall x | expected <= x < newValue ::
              (name, x) !in old(claims) && (name, x) in claims && claims[(name, x)] == holder)
    {
      if name in rows && rows[name] == expected {
        rows := rows[name := newValue];
        claims := claims + BlockClaims(name, expected, newValue, holder);
        count := 1;
      } else {
        count := 0;
      }
    }
  }
}
