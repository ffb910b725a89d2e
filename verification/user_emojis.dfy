/**
 * The `UserEmojis` table: one row per reaction, and the three Sequelize
 * operations the reaction routes run against it (`findOne`, `create`,
 * `increment`/`decrement` with a `where` clause). The table is an ordered
 * sequence of rows; `findOne` returns the first row its clause selects.
 */
module UserEmojis {
  import opened Wrappers

  /** A row. `userId`, `linkId` and `emojiName` are required; the table
      declares no uniqueness constraint and no lower bound on `count`. */
  datatype Row = Row(userId: int, linkId: int, emojiName: string, count: int)

  type Table = seq<Row>

  /** The two `where` clauses the routes use. */
  datatype Where =
    | ByOwner(userId: int, linkId: int)
    | ByEmoji(emojiName: string, linkId: int)

  predicate Selects(w: Where, row: Row) {
    match w
    case ByOwner(u, l) => row.userId == u && row.linkId == l
    case ByEmoji(e, l) => row.emojiName == e && row.linkId == l
  }

  /** `UserEmojis.create(...)`: the three required columns must be present
      (a missing one is a not-null violation, `None`), and `count` takes
      its default of 0 when the caller does not supply it. */
  function Create(userId: Option<int>, linkId: Option<int>, emojiName: Option<string>,
                  count: Option<int>): (r: Option<Row>)
    ensures r.Some? <==> userId.Some? && linkId.Some? && emojiName.Some?
    ensures r.Some? ==> Selects(ByOwner(userId.value, linkId.value), r.value)
    ensures r.Some? ==> Selects(ByEmoji(emojiName.value, linkId.value), r.value)
    ensures r.Some? && count.None? ==> r.value.count == 0
    ensures r.Some? && count.Some? ==> r.value.count == count.value
  {
    if userId.None? || linkId.None? || emojiName.None? then None
    else Some(Row(userId.value, linkId.value, emojiName.value, count.GetOr(0)))
  }

  /** `findOne({ where })`: the index of the first selected row. */
  function FindOne(t: Table, w: Where): (r: Option<nat>)
    ensures r.None? <==> forall i :: 0 <= i < |t| ==> !Selects(w, t[i])
    ensures r.Some? ==> r.value < |t| && Selects(w, t[r.value])
    ensures r.Some? ==> forall j :: 0 <= j < r.value ==> !Selects(w, t[j])
  {
    if |t| == 0 then None
    else if Selects(w, t[0]) then Some(0)
    else
      match FindOne(t[1..], w)
      case None => None
      case Some(i) => Some(i + 1)
  }

  /** One row after `increment('count', { by, where })` has passed over it. */
  function Bumped(row: Row, w: Where, delta: int): Row {
    if Selects(w, row) then row.(count := row.count + delta) else row
  }

  /** `increment('count', { by: delta, where })`; a `decrement` is an increment by
      a negative amount. Every selected row changes, nothing else does, and
      no row moves or changes owner, link or emoji. */
  function Increment(t: Table, w: Where, delta: int): (r: Table)
    ensures |r| == |t|
    ensures forall i :: 0 <= i < |t| ==> r[i] == Bumped(t[i], w, delta)
    ensures SameKeys(t, r)
  {
    if |t| == 0 then []
    else [Bumped(t[0], w, delta)] + Increment(t[1..], w, delta)
  }

  /** Two tables with the same rows in the same places, up to `count`. */
  predicate SameKeys(a: Table, b: Table) {
    && |a| == |b|
    && forall i :: 0 <= i < |a| ==>
         a[i].userId == b[i].userId && a[i].linkId == b[i].linkId && a[i].emojiName == b[i].emojiName
  }

  /** The number of rows a clause selects (a `count({ where })`). */
  function CountWhere(t: Table, w: Where): (n: nat)
    ensures n <= |t|
    ensures n == 0 <==> FindOne(t, w).None?
  {
    if |t| == 0 then 0
    else (if Selects(w, t[0]) then 1 else 0) + CountWhere(t[1..], w)
  }

  /** At most one row per (userId, linkId): the rule the reaction route
      keeps by looking before it creates. The table itself does not
      enforce it. */
  predicate OneRowPerOwner(t: Table) {
    forall i, j :: 0 <= i < |t| && 0 <= j < |t| && i != j ==>
      !(t[i].userId == t[j].userId && t[i].linkId == t[j].linkId)
  }

  /** Keeping every row's owner and link in place keeps the rule. */
  lemma SameKeysKeepOneRowPerOwner(a: Table, b: Table)
    requires SameKeys(a, b)
    requires OneRowPerOwner(a)
    ensures OneRowPerOwner(b)
  {
  }

  /** Rows with the same keys are selected the same way, so finds and
      counts agree. */
  lemma {:induction false} SameKeysSameSelection(a: Table, b: Table, w: Where)
    requires SameKeys(a, b)
    ensures FindOne(a, w) == FindOne(b, w)
    ensures CountWhere(a, w) == CountWhere(b, w)
  {
    if |a| > 0 {
      assert Selects(w, a[0]) == Selects(w, b[0]);
      SameKeysSameSelection(a[1..], b[1..], w);
    }
  }

  /** Appending a row adds one to the count of the clauses that select it. */
  lemma {:induction false} CountWhereAppend(t: Table, row: Row, w: Where)
    ensures CountWhere(t + [row], w) == CountWhere(t, w) + (if Selects(w, row) then 1 else 0)
  {
    if |t| > 0 {
      assert (t + [row])[1..] == t[1..] + [row];
      CountWhereAppend(t[1..], row, w);
    }
  }

  /** Replacing one row moves it from the clauses selecting the old row to
      the clauses selecting the new one. */
  lemma {:induction false} CountWhereUpdate(t: Table, i: nat, row: Row, w: Where)
    requires i < |t|
    ensures CountWhere(t[i := row], w)
         == CountWhere(t, w) - (if Selects(w, t[i]) then 1 else 0) + (if Selects(w, row) then 1 else 0)
  {
    if i > 0 {
      assert t[i := row][1..] == t[1..][i - 1 := row];
      CountWhereUpdate(t[1..], i - 1, row, w);
    } else {
      assert t[i := row][1..] == t[1..];
    }
  }
}
