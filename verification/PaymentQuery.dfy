/** Listing payments: the compilation of a query into a WHERE clause with numbered placeholders
    (crates/infrastructure/src/payments_repo.rs) and the paging over it
    (crates/api/src/transactions.rs). */
module PaymentQueries {
  import opened Common
  import opened PaymentStatuses

  /** A stored row, as far as listing reads it; `createdAt` is in whole seconds, `id` stands for the
      uuid's place in its ordering. */
  datatype Row = Row(id: nat, createdAt: nat, status: Status)

  /** `createdAfter` and `createdBefore` are instants in nanoseconds, negative before the epoch. */
  datatype Query = Query(status: Option<Status>, createdAfter: Option<int>, createdBefore: Option<int>, limit: nat,
      offset: nat)

  const MAX_LIST_LIMIT: nat := 200
  const DEFAULT_LIMIT: nat := 50

  function AsStr(s: Status): string {
    match s
    case Created => "created"
    case RequiresAction => "requires_action"
    case Authorized => "authorized"
    case Captured => "captured"
    case PartiallyRefunded => "partially_refunded"
    case Refunded => "refunded"
    case Failed => "failed"
    case Canceled => "canceled"
  }

  /** `to_epoch`: whole seconds, or NULL before the epoch. */
  function EpochArg(t: int): Arg {
    if t < 0 then Null else BigInt(t / SECOND)
  }

  // -------- the compiled query --------

  datatype Arg = Text(text: string) | BigInt(n: nat) | Null

  /** One condition on a column, comparing it with the argument of a 1-based placeholder. */
  datatype Condition = StatusEquals(placeholder: nat) | CreatedAtLeast(placeholder: nat)
      | CreatedBelow(placeholder: nat)

  datatype Sql = Sql(conditions: seq<Condition>, args: seq<Arg>)

  function NextPlaceholder(s: Sql): nat {
    |s.args| + 1
  }

  function Add(s: Sql, c: Condition, a: Arg): Sql {
    Sql(s.conditions + [c], s.args + [a])
  }

  /** The conditions of a query, added to whatever the builder holds. */
  function Extend(s0: Sql, q: Query): Sql {
    var s1 := if q.status == None then s0 else Add(s0, StatusEquals(NextPlaceholder(s0)), Text(AsStr(q.status.value)));
    var s2 := if q.createdAfter == None then s1
        else Add(s1, CreatedAtLeast(NextPlaceholder(s1)), EpochArg(q.createdAfter.value));
    if q.createdBefore == None then s2 else Add(s2, CreatedBelow(NextPlaceholder(s2)), EpochArg(q.createdBefore.value))
  }

  function Compile(q: Query): Sql {
    Extend(Sql([], []), q)
  }

  /** A comparison with NULL, or with a missing or wrongly typed argument, selects no row. */
  predicate Holds(c: Condition, args: seq<Arg>, row: Row) {
    && 1 <= c.placeholder <= |args|
    && var a := args[c.placeholder - 1];
       match c
       case StatusEquals(_) => a == Text(AsStr(row.status))
       case CreatedAtLeast(_) => a.BigInt? && row.createdAt >= a.n
       case CreatedBelow(_) => a.BigInt? && row.createdAt < a.n
  }

  predicate Selects(s: Sql, row: Row) {
    forall c <- s.conditions :: Holds(c, s.args, row)
  }

  function Selected(table: seq<Row>, s: Sql): seq<Row> {
    if table == [] then []
    else
      var front, last := Selected(table[..|table|-1], s), table[|table|-1];
      if Selects(s, last) then front + [last] else front
  }

  /** ORDER BY created_at DESC, id DESC */
  predicate ComesFirst(a: Row, b: Row) {
    a.createdAt > b.createdAt || (a.createdAt == b.createdAt && a.id > b.id)
  }

  function InsertOrdered(r: Row, rows: seq<Row>): seq<Row> {
    if rows == [] || !ComesFirst(rows[0], r) then [r] + rows else [rows[0]] + InsertOrdered(r, rows[1..])
  }

  function Ordered(rows: seq<Row>): seq<Row> {
    if rows == [] then [] else InsertOrdered(rows[0], Ordered(rows[1..]))
  }

  /** LIMIT and OFFSET */
  function Page(rows: seq<Row>, limit: nat, offset: nat): seq<Row> {
    rows[Min(offset, |rows|)..Min(offset + limit, |rows|)]
  }

  function ClampLimit(limit: nat): nat {
    if limit < 1 then 1 else Min(limit, MAX_LIST_LIMIT)
  }

  /** Every row a query matches, in listing order. */
  function AllMatches(table: seq<Row>, q: Query): seq<Row> {
    Ordered(Selected(table, Compile(q)))
  }

  function List(table: seq<Row>, q: Query): seq<Row> {
    Page(AllMatches(table, q), ClampLimit(q.limit), q.offset)
  }

  function Count(table: seq<Row>, q: Query): nat {
    |Selected(table, Compile(q))|
  }

  class FilterSql {
    var conditions: seq<Condition>
    var args: seq<Arg>

    constructor ()
      ensures Snapshot() == Sql([], [])
    {
      conditions, args := [], [];
    }

    function Snapshot(): Sql
      reads this
    {
      Sql(conditions, args)
    }

    method AddArg(a: Arg) returns (placeholder: nat)
      modifies this`args
      ensures placeholder == NextPlaceholder(old(Snapshot()))
      ensures args == old(args) + [a]
    {
      placeholder := |args| + 1;
      args := args + [a];
    }

    method PushConditions(q: Query)
      modifies this
      ensures Snapshot() == Extend(old(Snapshot()), q)
    {
      var p;
      if q.status.Some? {
        p := AddArg(Text(AsStr(q.status.value)));
        conditions := conditions + [StatusEquals(p)];
      }
      if q.createdAfter.Some? {
        p := AddArg(EpochArg(q.createdAfter.value));
        conditions := conditions + [CreatedAtLeast(p)];
      }
      if q.createdBefore.Some? {
        p := AddArg(EpochArg(q.createdBefore.value));
        conditions := conditions + [CreatedBelow(p)];
      }
    }
  }

  /** What the database returns for the statement: its last two placeholders page the result. */
  function Execute(table: seq<Row>, s: Sql, limit: nat, offset: nat): seq<Row>
    requires 1 <= limit <= |s.args| && s.args[limit-1].BigInt?
    requires 1 <= offset <= |s.args| && s.args[offset-1].BigInt?
  {
    Page(Ordered(Selected(table, s)), s.args[limit-1].n, s.args[offset-1].n)
  }

  method ListPayments(table: seq<Row>, q: Query) returns (page: seq<Row>)
    ensures page == List(table, q)
  {
    var filter := new FilterSql();
    filter.PushConditions(q);
    var limitPlaceholder := filter.AddArg(BigInt(ClampLimit(q.limit)));
    var offsetPlaceholder := filter.AddArg(BigInt(q.offset));
    PagingArgsSelectNothing(table, Compile(q), [BigInt(ClampLimit(q.limit)), BigInt(q.offset)]);
    assert filter.Snapshot() ==
        Sql(Compile(q).conditions, Compile(q).args + [BigInt(ClampLimit(q.limit)), BigInt(q.offset)]);
    page := Execute(table, filter.Snapshot(), limitPlaceholder, offsetPlaceholder);
  }

  // -------- placeholders --------

  /** Placeholders and arguments are in lockstep: the i-th condition compares with the i-th argument. */
  predicate Lockstep(s: Sql) {
    && |s.conditions| == |s.args|
    && forall i :: 0 <= i < |s.conditions| ==> s.conditions[i].placeholder == i + 1
  }

  lemma CompileIsLockstep(q: Query)
    ensures Lockstep(Compile(q))
  {
  }

  /** Arguments added after the conditions, to page the result, do not change which rows they select. */
  lemma {:induction false} PagingArgsSelectNothing(table: seq<Row>, s: Sql, more: seq<Arg>)
    requires Lockstep(s)
    ensures Selected(table, Sql(s.conditions, s.args + more)) == Selected(table, s)
  {
    if table != [] {
      PagingArgsSelectNothing(table[..|table|-1], s, more);
      var row := table[|table|-1];
      forall c <- s.conditions ensures Holds(c, s.args + more, row) <==> Holds(c, s.args, row) {
        var i :| 0 <= i < |s.conditions| && s.conditions[i] == c;
      }
    }
  }

  // -------- meaning --------

  /** The rows a query asks for. */
  predicate Wanted(q: Query, row: Row) {
    && (q.status.Some? ==> row.status == q.status.value)
    && (q.createdAfter.Some? ==> row.createdAt * SECOND >= q.createdAfter.value)
    && (q.createdBefore.Some? ==> row.createdAt * SECOND < q.createdBefore.value)
  }

  lemma AsStrInjective(s: Status, t: Status)
    ensures AsStr(s) == AsStr(t) ==> s == t
  {
    assert |AsStr(Created)| == 7 && |AsStr(RequiresAction)| == 15 && |AsStr(Authorized)| == 10;
    assert |AsStr(PartiallyRefunded)| == 18 && |AsStr(Failed)| == 6;
    assert AsStr(Captured)[2] == 'p' && AsStr(Refunded)[2] == 'f' && AsStr(Canceled)[2] == 'n';
  }

  /** The rows the clause selects: bounds cut to whole seconds, and none at all when one lies before
      the epoch. */
  lemma CompiledSelects(q: Query, row: Row)
    ensures Selects(Compile(q), row) <==>
            && (q.status.Some? ==> row.status == q.status.value)
            && (q.createdAfter.Some? ==> q.createdAfter.value >= 0 && row.createdAt >= q.createdAfter.value / SECOND)
            && (q.createdBefore.Some? ==> q.createdBefore.value >= 0 && row.createdAt < q.createdBefore.value / SECOND)
  {
    var s0 := Sql([], []);
    var s1 := if q.status == None then s0 else Add(s0, StatusEquals(1), Text(AsStr(q.status.value)));
    var s2 := if q.createdAfter == None then s1
        else Add(s1, CreatedAtLeast(NextPlaceholder(s1)), EpochArg(q.createdAfter.value));
    if q.status.Some? {
      AddSelects(s0, StatusEquals(1), Text(AsStr(q.status.value)), row);
      AsStrInjective(row.status, q.status.value);
    }
    if q.createdAfter.Some? {
      AddSelects(s1, CreatedAtLeast(NextPlaceholder(s1)), EpochArg(q.createdAfter.value), row);
    }
    if q.createdBefore.Some? {
      AddSelects(s2, CreatedBelow(NextPlaceholder(s2)), EpochArg(q.createdBefore.value), row);
    }
  }

  /** A condition added with the next placeholder compares with its own argument, and leaves the
      others theirs. */
  lemma AddSelects(s: Sql, c: Condition, a: Arg, row: Row)
    requires Lockstep(s) && c.placeholder == NextPlaceholder(s)
    ensures Lockstep(Add(s, c, a))
    ensures Selects(Add(s, c, a), row) <==> Selects(s, row) && Holds(c, s.args + [a], row)
  {
    var longer := Add(s, c, a);
    forall d <- s.conditions ensures d in longer.conditions && (Holds(d, longer.args, row) <==> Holds(d, s.args, row)) {
      var i :| 0 <= i < |s.conditions| && s.conditions[i] == d;
      assert longer.conditions[i] == d;
    }
    assert longer.conditions[|s.conditions|] == c;
    forall d <- longer.conditions ensures d in s.conditions || d == c {}
  }

  predicate WholeSecond(t: int) {
    t >= 0 && t % SECOND == 0
  }

  /** Each bound is absent, or a whole second at or after the epoch. */
  predicate FaithfulBounds(q: Query) {
    && (q.createdAfter.Some? ==> WholeSecond(q.createdAfter.value))
    && (q.createdBefore.Some? ==> WholeSecond(q.createdBefore.value))
  }

  /** The bounds leave no second, neither as given nor once cut to whole seconds. */
  predicate EmptyRange(q: Query) {
    && q.createdBefore.Some?
    && var first := if q.createdAfter.Some? && q.createdAfter.value > 0
         then (q.createdAfter.value + SECOND - 1) / SECOND else 0;
       && first * SECOND >= q.createdBefore.value
       && (|| q.createdBefore.value < 0
           || (q.createdAfter.Some? && q.createdAfter.value < 0)
           || q.createdBefore.value / SECOND <= if q.createdAfter.Some? then q.createdAfter.value / SECOND else 0)
  }

  lemma FaithfulRow(q: Query, row: Row)
    requires FaithfulBounds(q) || EmptyRange(q)
    ensures Selects(Compile(q), row) <==> Wanted(q, row)
  {
    CompiledSelects(q, row);
  }

  /** The compiled clause selects exactly the rows asked for, whatever the rows, if and only if each
      bound is a whole second at or after the epoch, or the bounds leave no second anyway. */
  lemma CompilationPreservesMeaningIff(q: Query)
    ensures (forall row :: Selects(Compile(q), row) <==> Wanted(q, row)) <==> FaithfulBounds(q) || EmptyRange(q)
  {
    if FaithfulBounds(q) || EmptyRange(q) {
      forall row ensures Selects(Compile(q), row) <==> Wanted(q, row) {
        FaithfulRow(q, row);
      }
    } else {
      var row := UnfaithfulRow(q);
      assert !(Selects(Compile(q), row) <==> Wanted(q, row));
    }
  }

  /** A row on which an unfaithful query goes wrong. */
  lemma UnfaithfulRow(q: Query) returns (row: Row)
    requires !FaithfulBounds(q) && !EmptyRange(q)
    ensures !(Selects(Compile(q), row) <==> Wanted(q, row))
  {
    var status := if q.status.Some? then q.status.value else Created;
    var after := if q.createdAfter.Some? then q.createdAfter.value else 0;
    var up := if after > 0 then (after + SECOND - 1) / SECOND else 0;
    // the first second wanted, the first selected, or the second the upper bound is cut to
    var low := if after >= 0 then after / SECOND else 0;
    var cut := if q.createdBefore.Some? && q.createdBefore.value >= 0 then q.createdBefore.value / SECOND else 0;
    var rows := [Row(0, up, status), Row(0, low, status), Row(0, cut, status)];
    CompiledSelects(q, rows[0]);
    CompiledSelects(q, rows[1]);
    CompiledSelects(q, rows[2]);
    row := rows[0];
    if Selects(Compile(q), rows[0]) <==> Wanted(q, rows[0]) {
      row := rows[1];
      if Selects(Compile(q), rows[1]) <==> Wanted(q, rows[1]) {
        row := rows[2];
      }
    }
  }

  /** The transactions endpoint's query: epoch seconds clamped at zero, limit defaulted and clamped. */
  function FromRequest(status: Option<Status>, after: Option<int>, before: Option<int>, limit: Option<nat>,
      offset: Option<nat>): Query {
    Query(
      status,
      if after.Some? then Some((if after.value < 0 then 0 else after.value) * SECOND) else None,
      if before.Some? then Some((if before.value < 0 then 0 else before.value) * SECOND) else None,
      ClampLimit(if limit.Some? then limit.value else DEFAULT_LIMIT),
      if offset.Some? then offset.value else 0)
  }

  /** Every query the endpoint builds is compiled faithfully. */
  lemma RequestsAreFaithful(status: Option<Status>, after: Option<int>, before: Option<int>, limit: Option<nat>,
      offset: Option<nat>, row: Row)
    ensures var q := FromRequest(status, after, before, limit, offset);
            (Selects(Compile(q), row) <==> Wanted(q, row)) && 1 <= q.limit <= MAX_LIST_LIMIT &&
                ClampLimit(q.limit) == q.limit
  {
    FaithfulRow(FromRequest(status, after, before, limit, offset), row);
  }

  // -------- order and paging --------

  /** No row comes before one listed ahead of it. */
  predicate InOrder(rows: seq<Row>) {
    rows == [] || ((forall x <- rows[1..] :: !ComesFirst(x, rows[0])) && InOrder(rows[1..]))
  }

  lemma {:induction false} InsertKeepsRows(r: Row, rows: seq<Row>)
    ensures multiset(InsertOrdered(r, rows)) == multiset(rows) + multiset{r}
    decreases |rows|
  {
    if rows != [] && ComesFirst(rows[0], r) {
      InsertKeepsRows(r, rows[1..]);
      assert rows == [rows[0]] + rows[1..];
    }
  }

  lemma {:induction false} InsertKeepsOrder(r: Row, rows: seq<Row>)
    requires InOrder(rows)
    ensures InOrder(InsertOrdered(r, rows))
    decreases |rows|
  {
    var inserted := InsertOrdered(r, rows);
    if rows != [] && ComesFirst(rows[0], r) {
      var rest := InsertOrdered(r, rows[1..]);
      InsertKeepsOrder(r, rows[1..]);
      InsertKeepsRows(r, rows[1..]);
      forall x <- rest ensures !ComesFirst(x, rows[0]) {
        assert x in multiset(rest);
        assert x == r || x in rows[1..];
      }
      assert inserted[1..] == rest;
    } else {
      assert inserted[1..] == rows;
      forall x <- rows ensures !ComesFirst(x, r) {
        assert x == rows[0] || x in rows[1..];
      }
    }
  }

  /** The listing order: newest first, ties by id, nothing lost and nothing added. */
  lemma {:induction false} OrderedSorts(rows: seq<Row>)
    ensures InOrder(Ordered(rows))
    ensures multiset(Ordered(rows)) == multiset(rows)
    decreases |rows|
  {
    if rows != [] {
      OrderedSorts(rows[1..]);
      InsertKeepsOrder(rows[0], Ordered(rows[1..]));
      InsertKeepsRows(rows[0], Ordered(rows[1..]));
      assert rows == [rows[0]] + rows[1..];
    }
  }

  lemma {:induction false} SelectedCounts(table: seq<Row>, s: Sql, row: Row)
    ensures multiset(Selected(table, s))[row] == if Selects(s, row) then multiset(table)[row] else 0
  {
    if table != [] {
      SelectedCounts(table[..|table|-1], s, row);
      assert table == table[..|table|-1] + [table[|table|-1]];
    }
  }

  /** What all pages together show: each wanted row of the table as often as it is there, and no
      other, in order; and there are `count` of them. */
  lemma AllMatchesMeaning(table: seq<Row>, q: Query, row: Row)
    requires FaithfulBounds(q)
    ensures multiset(AllMatches(table, q))[row] == if Wanted(q, row) then multiset(table)[row] else 0
    ensures InOrder(AllMatches(table, q))
    ensures |AllMatches(table, q)| == Count(table, q)
  {
    var selected := Selected(table, Compile(q));
    OrderedSorts(selected);
    SelectedCounts(table, Compile(q), row);
    FaithfulRow(q, row);
    CountIsLength(table, q);
  }

  lemma {:induction false} InOrderHolds(rows: seq<Row>, i: nat, j: nat)
    requires InOrder(rows) && i < j < |rows|
    ensures rows[i].createdAt >= rows[j].createdAt
    ensures rows[i].createdAt == rows[j].createdAt ==> rows[i].id >= rows[j].id
    decreases |rows|
  {
    if i == 0 {
      assert rows[j] in rows[1..];
    } else {
      InOrderHolds(rows[1..], i - 1, j - 1);
    }
  }

  /** The listing is newest first, and among rows of one second the highest id first. */
  lemma NewestFirst(table: seq<Row>, q: Query, i: nat, j: nat)
    requires i < j < |AllMatches(table, q)|
    ensures var a, b := AllMatches(table, q)[i], AllMatches(table, q)[j];
            a.createdAt > b.createdAt || (a.createdAt == b.createdAt && a.id >= b.id)
  {
    OrderedSorts(Selected(table, Compile(q)));
    InOrderHolds(AllMatches(table, q), i, j);
  }

  /** A page is the listing from the offset on, at most 200 rows and at least one row of limit. */
  lemma PageMeaning(table: seq<Row>, q: Query)
    ensures var all, page := AllMatches(table, q), List(table, q);
            var limit := if q.limit == 0 then 1 else if q.limit > 200 then 200 else q.limit;
            && |page| == (if q.offset >= |all| then 0 else if q.offset + limit > |all| then |all| - q.offset else limit)
            && forall k :: 0 <= k < |page| ==> page[k] == all[q.offset + k]
  {
  }

  /** What a request asks for, in its own fields: the status given, created no earlier than `after` and
      earlier than `before` in epoch seconds, 50 rows unless it says otherwise, from the start. */
  lemma RequestMeaning(status: Option<Status>, after: Option<int>, before: Option<int>, limit: Option<nat>,
      offset: Option<nat>, row: Row)
    ensures var q := FromRequest(status, after, before, limit, offset);
            && (Wanted(q, row) <==>
                  && (status.Some? ==> row.status == status.value)
                  && (after.Some? ==> row.createdAt >= after.value)
                  && (before.Some? ==> row.createdAt < before.value))
            && q.limit == (if limit == None then 50 else if limit.value == 0 then 1
                           else if limit.value > 200 then 200 else limit.value)
            && q.offset == (if offset == None then 0 else offset.value)
            && (q.createdAfter.Some? <==> after.Some?) && (q.createdBefore.Some? <==> before.Some?)
            && (after.Some? ==> q.createdAfter.value == if after.value < 0 then 0 else after.value * SECOND)
            && (before.Some? ==> q.createdBefore.value == if before.value < 0 then 0 else before.value * SECOND)
  {
  }

  /** The first `n` pages, stepping the offset by the capped limit. */
  function Pages(table: seq<Row>, q: Query, n: nat): seq<Row> {
    if n == 0 then [] else Pages(table, q, n - 1) + List(table, q.(offset := Offset(q, n - 1)))
  }

  function Offset(q: Query, n: nat): nat {
    if n == 0 then 0 else Offset(q, n - 1) + ClampLimit(q.limit)
  }

  /** Paging loses and repeats nothing: the first n pages are the first rows of the full listing, and
      once the offset reaches `count` they are all of it. */
  lemma PagesConcatenate(table: seq<Row>, q: Query, n: nat)
    ensures var all := AllMatches(table, q);
            && Pages(table, q, n) == all[..Min(Offset(q, n), |all|)]
            && (Offset(q, n) >= Count(table, q) ==> Pages(table, q, n) == all)
  {
    var all := AllMatches(table, q);
    PagesArePrefixes(table, q, n);
    CountIsLength(table, q);
    assert all[..|all|] == all;
  }

  lemma {:induction false} PagesArePrefixes(table: seq<Row>, q: Query, n: nat)
    ensures Pages(table, q, n) == AllMatches(table, q)[..Min(Offset(q, n), |AllMatches(table, q)|)]
  {
    if n > 0 {
      var offset := Offset(q, n - 1);
      PagesArePrefixes(table, q, n - 1);
      NextPage(table, q, offset);
      PageContinues(AllMatches(table, q), ClampLimit(q.limit), offset);
    }
  }

  lemma CountIsLength(table: seq<Row>, q: Query)
    ensures |AllMatches(table, q)| == Count(table, q)
  {
    OrderedSorts(Selected(table, Compile(q)));
    assert |multiset(AllMatches(table, q))| == |multiset(Selected(table, Compile(q)))|;
  }

  lemma NextPage(table: seq<Row>, q: Query, offset: nat)
    ensures List(table, q.(offset := offset)) == Page(AllMatches(table, q), ClampLimit(q.limit), offset)
  {
    assert Compile(q.(offset := offset)) == Compile(q);
  }

  lemma PageContinues(all: seq<Row>, limit: nat, offset: nat)
    ensures all[..Min(offset, |all|)] + Page(all, limit, offset) == all[..Min(offset + limit, |all|)]
  {
  }
}
