/** What the name-keyed tables (Departments, Issues, Roles, ServiceTypes)
    have in common: the normalised form a name is stored and compared in,
    and the "no two rows share it" rule that each handler enforces by reading
    the table before it writes. Tables are maps from the row id to the row. */
module Registry {
  import opened Http
  import opened Text

  /** A required name field that is absent, empty or whitespace only
      (`!name || name.trim() === ""`). */
  predicate Blank(name: Option<string>) {
    name.None? || AllSpace(name.value)
  }

  /** No lower-case ASCII letter occurs in `s`. */
  predicate NoLower(s: string) {
    forall i | 0 <= i < |s| :: !('a' <= s[i] <= 'z')
  }

  /** The form a name is stored in: trimmed and upper-cased. */
  predicate Normalized(s: string) {
    IsTrimmed(s) && NoLower(s)
  }

  /** `name.trim().toUpperCase()`: a normalised string, empty exactly when the
      input is all whitespace. */
  function Normalize(s: string): (n: string)
    ensures Normalized(n)
    ensures n == "" <==> AllSpace(s)
    ensures |n| <= |s|
  {
    UpperKeepsTrimmed(Trim(s));
    Upper(Trim(s))
  }

  /** A stored name normalises to itself, so normalising twice is
      normalising once. */
  lemma {:induction false} NormalizeFixesNormalized(s: string)
    requires Normalized(s)
    ensures Normalize(s) == s
  {
    TrimPadded([], s, []);
    assert [] + s + [] == s;
    assert Upper(s) == s;
  }

  lemma NormalizeIdempotent(s: string)
    ensures Normalize(Normalize(s)) == Normalize(s)
  {
    NormalizeFixesNormalized(Normalize(s));
  }

  /** No two different ids hold the same value. */
  ghost predicate Unique<V>(rows: map<int, V>) {
    forall i, j | i in rows && j in rows && i != j :: rows[i] != rows[j]
  }

  /** Some row holds `v`: `SELECT * FROM T WHERE col = @v` finds a row. */
  predicate Held<V(==)>(rows: map<int, V>, v: V) {
    exists id | id in rows :: rows[id] == v
  }

  /** Some row other than `self` holds `v`: the update-time duplicate query
      `... WHERE col = @v AND id != @self` finds a row. */
  predicate HeldByOther<V(==)>(rows: map<int, V>, v: V, self: int) {
    exists id | id in rows :: id != self && rows[id] == v
  }

  /** Every id lies below the next identity value. */
  ghost predicate IdsBelow<V>(rows: map<int, V>, next: int) {
    forall id | id in rows :: id < next
  }

  /** Inserting under the next identity value adds a new id and keeps every
      id below the advanced counter. */
  lemma InsertNext<V>(rows: map<int, V>, next: int, v: V)
    requires IdsBelow(rows, next)
    ensures next !in rows && IdsBelow(rows[next := v], next + 1)
  {
  }

  /** Inserting a value nobody holds under the next identity value keeps the
      table free of duplicates and every id below the advanced counter. */
  lemma InsertFreshKeepsUnique<V>(rows: map<int, V>, next: int, v: V)
    requires Unique(rows) && IdsBelow(rows, next) && !Held(rows, v)
    ensures next !in rows
    ensures Unique(rows[next := v]) && IdsBelow(rows[next := v], next + 1)
  {
  }

  /** Overwriting one row with a value no other row holds keeps the table
      free of duplicates. */
  lemma OverwriteKeepsUnique<V>(rows: map<int, V>, id: int, v: V)
    requires Unique(rows) && !HeldByOther(rows, v, id)
    ensures Unique(rows[id := v])
  {
  }

  /** In a table without duplicates a row never clashes with its own value,
      so renaming a row to the value it already holds passes the update's
      duplicate check. */
  lemma OwnValueNoClash<V>(rows: map<int, V>, id: int)
    requires Unique(rows) && id in rows
    ensures !HeldByOther(rows, rows[id], id)
  {
  }

  /** The update-time check is the create-time check with the target row left
      out: for an id not in the table the two agree. */
  lemma ClashWithAbsentId<V>(rows: map<int, V>, v: V, id: int)
    requires id !in rows
    ensures HeldByOther(rows, v, id) <==> Held(rows, v)
  {
  }
}
