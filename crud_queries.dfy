/**
 * The read operations of the generic CRUD engine (crud/base.py, class
 * CRUDBase) as pure functions over a snapshot of the table's rows:
 * `get`, `get_first_by_filter`, `get_multi`, `get_multi_filter`,
 * `get_multi_filters` and `get_last_by_filters`. A snapshot lists the rows
 * in the store's own order, which is the order a query without ORDER BY
 * returns them in.
 */
module Queries {
  import opened Text
  import opened Records

  /** The primary key is unique across the table. */
  predicate UniqueIds(rows: seq<Car>) {
    forall i, j :: 0 <= i < j < |rows| ==> rows[i].id != rows[j].id
  }

  /** Failures of a query; they are raised before any row is read. */
  datatype QueryError =
    | NoSuchField(name: string)    // AttributeError from getattr(model, name)
    | UnknownOperator(op: string)  // ValueError("Operador desconhecido: ...")
    | BadArgument                  // a list given to a scalar operator, or a scalar to IN / NOT IN
    | MissingFilterKey(key: string)  // KeyError: a filter dict without a key the loop reads

  // ---------------------------------------------------------------------
  // get
  // ---------------------------------------------------------------------

  /** `get(id)`: the first row whose primary key is `id`. */
  function Get(rows: seq<Car>, id: int): (r: Option<Car>)
    ensures r.Some? ==> r.value in rows && r.value.id == id
    ensures r.None? <==> forall c :: c in rows ==> c.id != id
  {
    if rows == [] then None
    else if rows[0].id == id then Some(rows[0])
    else Get(rows[1..], id)
  }

  /** With unique ids, `get` finds exactly the row carrying the id. */
  lemma {:induction false} GetUnique(rows: seq<Car>, c: Car)
    requires UniqueIds(rows) && c in rows
    ensures Get(rows, c.id) == Some(c)
  {
    if rows[0] != c {
      assert c in rows[1..];
      var k :| 0 <= k < |rows[1..]| && rows[1..][k] == c;
      assert rows[k + 1] == c;
      GetUnique(rows[1..], c);
    }
  }

  // ---------------------------------------------------------------------
  // Ordering
  // ---------------------------------------------------------------------

  predicate SortedBy(s: seq<Car>, col: Column) {
    forall i, j :: 0 <= i < j < |s| ==> Precedes(s[i], s[j], col)
  }

  function Insert(c: Car, s: seq<Car>, col: Column): (r: seq<Car>)
    requires SortedBy(s, col)
    ensures SortedBy(r, col)
    ensures multiset(r) == multiset(s) + multiset{c}
  {
    if s == [] then [c]
    else if Precedes(c, s[0], col) then
      BelowHead(c, s, col);
      PrependSorted(c, s, col);
      [c] + s
    else
      var t := Insert(c, s[1..], col);
      PrecedesTotal(c, s[0], col);
      HeadBelowInsert(c, s, t, col);
      PrependSorted(s[0], t, col);
      assert s == [s[0]] + s[1..];
      [s[0]] + t
  }

  /** A row that precedes the head of a sorted sequence precedes all of it. */
  lemma BelowHead(c: Car, s: seq<Car>, col: Column)
    requires SortedBy(s, col) && s != [] && Precedes(c, s[0], col)
    ensures forall j :: 0 <= j < |s| ==> Precedes(c, s[j], col)
  {
    forall j | 0 < j < |s| ensures Precedes(c, s[j], col) {
      PrecedesTransitive(c, s[0], s[j], col);
    }
  }

  /** The head of a sorted sequence precedes everything the rest becomes after an insertion behind it. */
  lemma HeadBelowInsert(c: Car, s: seq<Car>, t: seq<Car>, col: Column)
    requires SortedBy(s, col) && s != [] && Precedes(s[0], c, col)
    requires multiset(t) == multiset(s[1..]) + multiset{c}
    ensures forall j :: 0 <= j < |t| ==> Precedes(s[0], t[j], col)
  {
    forall j | 0 <= j < |t| ensures Precedes(s[0], t[j], col) {
      var x := t[j];
      assert x in multiset(t);
      if x != c {
        assert x in multiset(s[1..]);
        var k :| 0 <= k < |s[1..]| && s[1..][k] == x;
        assert s[k + 1] == x;
      }
    }
  }

  lemma PrependSorted(x: Car, t: seq<Car>, col: Column)
    requires SortedBy(t, col) && forall j :: 0 <= j < |t| ==> Precedes(x, t[j], col)
    ensures SortedBy([x] + t, col)
  {
    var u := [x] + t;
    forall i, j | 0 <= i < j < |u| ensures Precedes(u[i], u[j], col) {
      assert u[j] == t[j - 1];
      if i > 0 { assert u[i] == t[i - 1]; }
    }
  }

  /** Rows in ascending ORDER BY `col` order (an insertion sort). */
  function SortBy(rows: seq<Car>, col: Column): (r: seq<Car>)
    ensures SortedBy(r, col)
    ensures multiset(r) == multiset(rows)
  {
    if rows == [] then []
    else
      assert rows == [rows[0]] + rows[1..];
      Insert(rows[0], SortBy(rows[1..], col), col)
  }

  /** Ordering by id lists rows in strictly increasing id order. */
  lemma SortByIdIncreasing(rows: seq<Car>)
    requires UniqueIds(rows)
    ensures forall i, j :: 0 <= i < j < |SortBy(rows, Id)| ==> SortBy(rows, Id)[i].id < SortBy(rows, Id)[j].id
  {
    var s := SortBy(rows, Id);
    DistinctUnderPermutation(rows, s);
    forall i, j | 0 <= i < j < |s| ensures s[i].id < s[j].id {
      assert Precedes(s[i], s[j], Id);
      assert s[i] in multiset(rows) && s[j] in multiset(rows);
      assert s[i] in rows && s[j] in rows;
      var a :| 0 <= a < |rows| && rows[a] == s[i];
      var b :| 0 <= b < |rows| && rows[b] == s[j];
      assert a != b;
    }
  }

  predicate Distinct(s: seq<Car>) {
    forall i, j :: 0 <= i < j < |s| ==> s[i] != s[j]
  }

  lemma {:induction false} DistinctCount(s: seq<Car>, x: Car)
    requires Distinct(s)
    ensures multiset(s)[x] <= 1
  {
    if s != [] {
      assert s == [s[0]] + s[1..];
      assert Distinct(s[1..]);
      DistinctCount(s[1..], x);
      if s[0] == x {
        assert x !in s[1..];
      }
    }
  }

  lemma TwoIndicesCount(s: seq<Car>, i: nat, j: nat)
    requires i < j < |s| && s[i] == s[j]
    ensures multiset(s)[s[i]] >= 2
  {
    assert s == s[..j] + s[j..];
    assert s[i] in s[..j];
    assert s[j] in s[j..];
  }

  lemma DistinctUnderPermutation(a: seq<Car>, b: seq<Car>)
    requires UniqueIds(a) && multiset(a) == multiset(b)
    ensures Distinct(b)
  {
    assert Distinct(a);
    forall i, j | 0 <= i < j < |b| ensures b[i] != b[j] {
      if b[i] == b[j] {
        TwoIndicesCount(b, i, j);
        DistinctCount(a, b[i]);
      }
    }
  }

  // ---------------------------------------------------------------------
  // Operators and filter specifications of get_multi_filters
  // ---------------------------------------------------------------------

  /** The ten entries of `operator_map`. */
  datatype Op = OpCmp(cmp: Cmp) | OpLike | OpILike | OpIn | OpNotIn

  /** The key of `operator_map` an operator is stored under. */
  function OpName(op: Op): string {
    match op
    case OpCmp(Eq) => "="
    case OpCmp(Ne) => "!="
    case OpCmp(Lt) => "<"
    case OpCmp(Le) => "<="
    case OpCmp(Gt) => ">"
    case OpCmp(Ge) => ">="
    case OpLike => "like"
    case OpILike => "ilike"
    case OpIn => "in"
    case OpNotIn => "notin"
  }

  /** `operator in operator_map`, and the entry found: the one stored under that very key. */
  function ParseOp(s: string): (r: Option<Op>)
    ensures r.Some? ==> OpName(r.value) == s
  {
    if s == "=" then Some(OpCmp(Eq))
    else if s == "!=" then Some(OpCmp(Ne))
    else if s == "<" then Some(OpCmp(Lt))
    else if s == "<=" then Some(OpCmp(Le))
    else if s == ">" then Some(OpCmp(Gt))
    else if s == ">=" then Some(OpCmp(Ge))
    else if s == "like" then Some(OpLike)
    else if s == "ilike" then Some(OpILike)
    else if s == "in" then Some(OpIn)
    else if s == "notin" then Some(OpNotIn)
    else None
  }

  /** Every entry of the map is found under its own key. */
  lemma OpNameParses(op: Op)
    ensures ParseOp(OpName(op)) == Some(op)
  {
    match op
    case OpCmp(k) =>
    case _ =>
  }

  /** Exactly ten operator strings are recognised. */
  lemma ParseOpKnown(s: string)
    ensures ParseOp(s).Some? <==> s in ["=", "!=", "<", "<=", ">", ">=", "like", "ilike", "in", "notin"]
  {
  }

  /** A filter value: one scalar, or a list for IN / NOT IN. */
  datatype Arg = One(v: Value) | Many(vs: seq<Value>)

  /** `{"field": ..., "operator": ..., "value": ...}`; any of the three keys may be absent. */
  datatype FilterSpec = FilterSpec(field: Option<string>, op: Option<string>, value: Option<Arg>)

  /** A resolved filter: a column, an operator and its argument. */
  datatype Pred = Pred(col: Column, op: Op, arg: Arg)

  /** `filter.get("operator", "=")` */
  function OperatorOf(f: FilterSpec): string {
    match f.op
    case Some(o) => o
    case None => "="
  }

  /**
   * One loop iteration: `filter["field"]` and `filter["value"]` are read
   * first, then getattr on the field, then the operator lookup; `in_` and
   * `notin_` refuse a single value as soon as the expression is built.
   */
  function Resolve(f: FilterSpec): (r: Result<Pred, QueryError>)
    ensures r.Ok? ==> f.field == Some(ColumnName(r.value.col)) && f.value == Some(r.value.arg)
                      && OpName(r.value.op) == OperatorOf(f)
    ensures r.Ok? ==> (r.value.op == OpIn || r.value.op == OpNotIn ==> r.value.arg.Many?)
    ensures f.field.None? ==> r == Err(MissingFilterKey("field"))
    ensures f.field.Some? && f.value.None? ==> r == Err(MissingFilterKey("value"))
    ensures r == Err(BadArgument) <==> f.field.Some? && f.value.Some? && f.value.value.One?
                                       && ColumnNamed(f.field.value).Some? && OperatorOf(f) in {"in", "notin"}
  {
    match f.field
    case None => Err(MissingFilterKey("field"))
    case Some(name) =>
      match f.value
      case None => Err(MissingFilterKey("value"))
      case Some(arg) =>
        match ColumnNamed(name)
        case None => Err(NoSuchField(name))
        case Some(c) =>
          match ParseOp(OperatorOf(f))
          case None => Err(UnknownOperator(OperatorOf(f)))
          case Some(op) =>
            if (op == OpIn || op == OpNotIn) && arg.One? then Err(BadArgument)
            else Ok(Pred(c, op, arg))
  }

  /**
   * Folding the filters into a query in input order: succeeds exactly when
   * every filter resolves, and otherwise reports the first one that does not.
   */
  function Compose(fs: seq<FilterSpec>): (r: Result<seq<Pred>, QueryError>)
    ensures r.Ok? <==> forall i :: 0 <= i < |fs| ==> Resolve(fs[i]).Ok?
    ensures r.Ok? ==> |r.value| == |fs| && forall i :: 0 <= i < |fs| ==> Resolve(fs[i]) == Ok(r.value[i])
    ensures r.Err? ==> exists i :: 0 <= i < |fs| && Resolve(fs[i]) == Err(r.error)
                                 && forall j :: 0 <= j < i ==> Resolve(fs[j]).Ok?
  {
    if fs == [] then Ok([])
    else
      match Resolve(fs[0])
      case Err(e) => Err(e)
      case Ok(p) =>
        var rest := Compose(fs[1..]);
        assert forall i :: 1 <= i < |fs| ==> fs[1..][i - 1] == fs[i];
        match rest
        case Err(e) =>
          FailureShifts(fs, e);
          Err(e)
        case Ok(ps) => Ok([p] + ps)
  }

  /** The first failing filter of the tail, seen from the whole list. */
  lemma FailureShifts(fs: seq<FilterSpec>, e: QueryError)
    requires |fs| > 0 && Resolve(fs[0]).Ok?
    requires exists i :: 0 <= i < |fs[1..]| && Resolve(fs[1..][i]) == Err(e) && forall j :: 0 <= j < i ==> Resolve(fs[1..][j]).Ok?
    ensures exists i :: 0 <= i < |fs| && Resolve(fs[i]) == Err(e) && forall j :: 0 <= j < i ==> Resolve(fs[j]).Ok?
  {
    var i :| 0 <= i < |fs[1..]| && Resolve(fs[1..][i]) == Err(e) && forall j :: 0 <= j < i ==> Resolve(fs[1..][j]).Ok?;
    forall j | 0 <= j < i + 1 ensures Resolve(fs[j]).Ok? {
      if j > 0 { assert fs[j] == fs[1..][j - 1]; }
    }
    assert Resolve(fs[i + 1]) == Err(e);
  }

  /** The argument has the shape the operator needs; a list given to a scalar operator only fails when the query runs. */
  predicate ArgFits(p: Pred) {
    (p.op == OpIn || p.op == OpNotIn) <==> p.arg.Many?
  }

  /** Whether the row satisfies one resolved filter; an argument of the wrong shape keeps no row. */
  predicate Holds(p: Pred, c: Car)
    ensures Holds(p, c) ==> ArgFits(p)
  {
    var field := Attr(c, p.col);
    match (p.op, p.arg)
    case (OpCmp(k), One(v)) => Compare(k, field, v)
    case (OpLike, One(v)) => LikeValue(field, v)
    case (OpILike, One(v)) => ILikeValue(field, v)
    case (OpIn, Many(vs)) => InList(field, vs)
    case (OpNotIn, Many(vs)) => NotInList(field, vs)
    case _ => false
  }

  predicate AllHold(ps: seq<Pred>, c: Car) {
    forall i :: 0 <= i < |ps| ==> Holds(ps[i], c)
  }

  /** The rows satisfying every filter, in store order. */
  function Where(rows: seq<Car>, ps: seq<Pred>): (r: seq<Car>)
    ensures forall c :: c in r <==> c in rows && AllHold(ps, c)
    ensures multiset(r) <= multiset(rows)
  {
    if rows == [] then []
    else
      assert rows == [rows[0]] + rows[1..];
      (if AllHold(ps, rows[0]) then [rows[0]] else []) + Where(rows[1..], ps)
  }

  /**
   * A filter specification accepted and satisfied by the row. Without an
   * `operator` key the filter is an equality test.
   */
  predicate SpecHolds(f: FilterSpec, c: Car)
    ensures f.op.None? && f.field.Some? && f.value.Some? && f.value.value.One? && ColumnNamed(f.field.value).Some? ==>
              (SpecHolds(f, c) <==> Compare(Eq, Attr(c, ColumnNamed(f.field.value).value), f.value.value.v))
  {
    Resolve(f).Ok? && Holds(Resolve(f).value, c)
  }

  /**
   * `get_multi_filters`: composes every filter first (per filter in order:
   * missing key, unknown field, unknown operator, single value for IN /
   * NOT IN), then runs the query, which fails on a list given to a scalar
   * operator, and reads the rows that satisfy all of them.
   */
  function GetMultiFilters(rows: seq<Car>, fs: seq<FilterSpec>): (r: Result<seq<Car>, QueryError>)
    ensures r.Ok? ==> forall c :: c in r.value <==> c in rows && forall i :: 0 <= i < |fs| ==> SpecHolds(fs[i], c)
    ensures r.Ok? ==> multiset(r.value) <= multiset(rows)
    ensures r.Ok? ==> forall i :: 0 <= i < |fs| ==> ParseOp(OperatorOf(fs[i])).Some?
    ensures (exists i :: 0 <= i < |fs| && Resolve(fs[i]).Err?) ==>
              exists i :: 0 <= i < |fs| && Resolve(fs[i]).Err? && r == Err(Resolve(fs[i]).error) && forall j :: 0 <= j < i ==> Resolve(fs[j]).Ok?
    ensures (forall i :: 0 <= i < |fs| ==> Resolve(fs[i]).Ok?) ==>
              (r.Err? <==> exists i :: 0 <= i < |fs| && !ArgFits(Resolve(fs[i]).value))
  {
    match Compose(fs)
    case Err(e) => Err(e)
    case Ok(ps) =>
      if exists i :: 0 <= i < |ps| && !ArgFits(ps[i]) then Err(BadArgument)
      else
        var r := Where(rows, ps);
        assert forall c :: AllHold(ps, c) <==> forall i :: 0 <= i < |fs| ==> SpecHolds(fs[i], c) by {
          forall c ensures AllHold(ps, c) <==> forall i :: 0 <= i < |fs| ==> SpecHolds(fs[i], c) {
            assert forall i :: 0 <= i < |fs| ==> Resolve(fs[i]).value == ps[i];
          }
        }
        Ok(r)
  }

  /**
   * AND semantics: a composed filter set keeps exactly the rows that each of
   * its filters, applied on its own, keeps.
   */
  lemma FilterSetIsConjunction(rows: seq<Car>, fs: seq<FilterSpec>, c: Car)
    requires GetMultiFilters(rows, fs).Ok?
    ensures forall i :: 0 <= i < |fs| ==> GetMultiFilters(rows, [fs[i]]).Ok?
    ensures c in GetMultiFilters(rows, fs).value <==>
              c in rows && forall i :: 0 <= i < |fs| ==> c in GetMultiFilters(rows, [fs[i]]).value
  {
    forall i | 0 <= i < |fs|
      ensures GetMultiFilters(rows, [fs[i]]).Ok?
      ensures c in GetMultiFilters(rows, [fs[i]]).value <==> c in rows && SpecHolds(fs[i], c)
    {
      SingleFilterOk(rows, fs, i);
      SingleFilterKeeps(rows, fs[i], c);
    }
  }

  /** Each filter of a set that runs also runs on its own. */
  lemma SingleFilterOk(rows: seq<Car>, fs: seq<FilterSpec>, i: nat)
    requires GetMultiFilters(rows, fs).Ok? && i < |fs|
    ensures GetMultiFilters(rows, [fs[i]]).Ok?
  {
    var ps := Compose(fs).value;
    assert Resolve(fs[i]) == Ok(ps[i]);
    assert ArgFits(ps[i]);
    ComposeSingle(fs[i]);
  }

  lemma SingleFilterKeeps(rows: seq<Car>, f: FilterSpec, c: Car)
    requires GetMultiFilters(rows, [f]).Ok?
    ensures c in GetMultiFilters(rows, [f]).value <==> c in rows && SpecHolds(f, c)
  {
    assert [f][0] == f;
  }

  lemma ComposeSingle(f: FilterSpec)
    requires Resolve(f).Ok?
    ensures Compose([f]) == Ok([Resolve(f).value])
  {
    assert [f][0] == f && [f][1..] == [];
    assert Compose([f][1..]) == Ok([]);
    assert [Resolve(f).value] + [] == [Resolve(f).value];
  }

  /**
   * Whatever the table holds, the first filter that fails to resolve (a
   * missing key, an unknown field or operator, a single value for IN / NOT
   * IN) decides the error; later filters are never looked at.
   */
  lemma FirstBadFilterReported(rows: seq<Car>, fs: seq<FilterSpec>, i: nat)
    requires i < |fs| && Resolve(fs[i]).Err?
    requires forall j :: 0 <= j < i ==> Resolve(fs[j]).Ok?
    ensures GetMultiFilters(rows, fs) == Err(Resolve(fs[i]).error)
  {
    var r := Compose(fs);
    var k :| 0 <= k < |fs| && Resolve(fs[k]) == Err(r.error) && forall j :: 0 <= j < k ==> Resolve(fs[j]).Ok?;
    assert k == i;
  }

  // ---------------------------------------------------------------------
  // get_multi, get_multi_filter, get_first_by_filter
  // ---------------------------------------------------------------------

  function Min(a: nat, b: nat): nat { if a < b then a else b }

  /** OFFSET `skip` LIMIT `limit` over an already ordered sequence. */
  function Page(s: seq<Car>, skip: nat, limit: nat): (r: seq<Car>)
    ensures |r| <= limit
    ensures |r| == Min(limit, |s| - Min(skip, |s|))
    ensures forall k :: 0 <= k < |r| ==> r[k] == s[skip + k]
  {
    s[Min(skip, |s|)..Min(skip + limit, |s|)]
  }

  /**
   * `get_multi(skip, limit, order_by)`: the window of the sorted rows that
   * starts after the first `skip` of them.
   */
  function GetMulti(rows: seq<Car>, skip: nat, limit: nat, orderBy: string): (r: Result<seq<Car>, QueryError>)
    ensures r.Err? <==> ColumnNamed(orderBy).None?
    ensures r.Ok? ==> |r.value| <= limit && SortedBy(r.value, ColumnNamed(orderBy).value)
    ensures r.Ok? ==> |r.value| == Min(limit, |rows| - Min(skip, |rows|))
    ensures r.Ok? ==> forall k :: 0 <= k < |r.value| ==> r.value[k] == SortBy(rows, ColumnNamed(orderBy).value)[skip + k]
    ensures r.Ok? ==> multiset(r.value) <= multiset(rows)
    ensures r.Ok? && skip == 0 && limit >= |rows| ==> multiset(r.value) == multiset(rows)
  {
    match ColumnNamed(orderBy)
    case None => Err(NoSuchField(orderBy))
    case Some(c) =>
      var s := SortBy(rows, c);
      assert |s| == |multiset(s)| == |multiset(rows)| == |rows|;
      PageWithin(s, skip, limit);
      PageSorted(s, skip, limit, c);
      Ok(Page(s, skip, limit))
  }

  /** A page holds rows of the sequence, and an unrestricted page holds all of them. */
  lemma PageWithin(s: seq<Car>, skip: nat, limit: nat)
    ensures multiset(Page(s, skip, limit)) <= multiset(s)
    ensures skip == 0 && limit >= |s| ==> Page(s, skip, limit) == s
  {
    var r := Page(s, skip, limit);
    assert s == s[..Min(skip, |s|)] + r + s[Min(skip + limit, |s|)..];
    assert multiset(s) == multiset(s[..Min(skip, |s|)]) + multiset(r) + multiset(s[Min(skip + limit, |s|)..]);
  }

  lemma PageSorted(s: seq<Car>, skip: nat, limit: nat, col: Column)
    requires SortedBy(s, col)
    ensures SortedBy(Page(s, skip, limit), col)
  {
  }

  /** Two consecutive pages are adjacent: together they form the double page. */
  lemma PagesAdjacent(s: seq<Car>, skip: nat, limit: nat)
    ensures Page(s, skip, limit) + Page(s, skip + limit, limit) == Page(s, skip, 2 * limit)
  {
  }

  /** Slices at disjoint index ranges of a duplicate-free sequence share nothing. */
  lemma ConsecutivePagesDisjoint(s: seq<Car>, skip: nat, limit: nat)
    requires Distinct(s)
    ensures forall c :: !(c in Page(s, skip, limit) && c in Page(s, skip + limit, limit))
  {
    var p, q := Page(s, skip, limit), Page(s, skip + limit, limit);
    forall a, b | 0 <= a < |p| && 0 <= b < |q| ensures p[a] != q[b] {
      assert p[a] == s[skip + a] && q[b] == s[skip + limit + b];
    }
  }

  /** Over a table with unique ids, consecutive pages share no row and together form the double page. */
  lemma PagesDisjoint(rows: seq<Car>, skip: nat, limit: nat, orderBy: string)
    requires UniqueIds(rows) && ColumnNamed(orderBy).Some?
    ensures GetMulti(rows, skip, limit, orderBy).value + GetMulti(rows, skip + limit, limit, orderBy).value
            == GetMulti(rows, skip, 2 * limit, orderBy).value
    ensures forall c :: !(c in GetMulti(rows, skip, limit, orderBy).value && c in GetMulti(rows, skip + limit, limit, orderBy).value)
  {
    var s := SortBy(rows, ColumnNamed(orderBy).value);
    assert GetMulti(rows, skip, limit, orderBy).value == Page(s, skip, limit);
    assert GetMulti(rows, skip + limit, limit, orderBy).value == Page(s, skip + limit, limit);
    assert GetMulti(rows, skip, 2 * limit, orderBy).value == Page(s, skip, 2 * limit);
    PagesAdjacent(s, skip, limit);
    DistinctUnderPermutation(rows, s);
    ConsecutivePagesDisjoint(s, skip, limit);
  }

  /** The filter `getattr(model, filterby) == filter`. */
  function EqPred(col: Column, v: Value): Pred {
    Pred(col, OpCmp(Eq), One(v))
  }

  /** `get_multi_filter`: matching rows ordered by `order_by` (resolved first). */
  function GetMultiFilter(rows: seq<Car>, orderBy: string, filterBy: string, v: Value): (r: Result<seq<Car>, QueryError>)
    ensures r.Err? <==> ColumnNamed(orderBy).None? || ColumnNamed(filterBy).None?
    ensures r.Err? ==> r.error == NoSuchField(if ColumnNamed(orderBy).None? then orderBy else filterBy)
    ensures r.Ok? ==> SortedBy(r.value, ColumnNamed(orderBy).value)
    ensures r.Ok? ==> forall c :: c in r.value <==> c in rows && Compare(Eq, Attr(c, ColumnNamed(filterBy).value), v)
    ensures r.Ok? ==> multiset(r.value) <= multiset(rows)
  {
    match ColumnNamed(orderBy)
    case None => Err(NoSuchField(orderBy))
    case Some(oc) =>
      match ColumnNamed(filterBy)
      case None => Err(NoSuchField(filterBy))
      case Some(fc) =>
        var w := Where(rows, [EqPred(fc, v)]);
        assert forall c :: AllHold([EqPred(fc, v)], c) <==> Compare(Eq, Attr(c, fc), v) by {
          forall c ensures AllHold([EqPred(fc, v)], c) <==> Compare(Eq, Attr(c, fc), v) {
            assert [EqPred(fc, v)][0] == EqPred(fc, v);
          }
        }
        var r := SortBy(w, oc);
        assert forall c :: c in r <==> c in w by {
          forall c ensures c in r <==> c in w {
            assert c in r <==> c in multiset(r);
          }
        }
        Ok(r)
  }

  /** `get_first_by_filter`: the first matching row in `order_by` order. */
  function GetFirstByFilter(rows: seq<Car>, orderBy: string, filterBy: string, v: Value): (r: Result<Option<Car>, QueryError>)
    ensures r.Err? <==> ColumnNamed(orderBy).None? || ColumnNamed(filterBy).None?
    ensures r.Ok? && r.value.Some? ==>
              var col, key := ColumnNamed(orderBy).value, ColumnNamed(filterBy).value;
              && r.value.value in rows && Compare(Eq, Attr(r.value.value, key), v)
              && forall c :: c in rows && Compare(Eq, Attr(c, key), v) ==> Precedes(r.value.value, c, col)
    ensures r.Ok? && r.value.None? ==>
              forall c :: c in rows ==> !Compare(Eq, Attr(c, ColumnNamed(filterBy).value), v)
  {
    match GetMultiFilter(rows, orderBy, filterBy, v)
    case Err(e) => Err(e)
    case Ok(s) =>
      if s == [] then Ok(None)
      else
        var col := ColumnNamed(orderBy).value;
        assert forall c :: c in s ==> Precedes(s[0], c, col) by {
          forall c | c in s ensures Precedes(s[0], c, col) {
            var k :| 0 <= k < |s| && s[k] == c;
            if k == 0 { PrecedesTotal(c, c, col); }
          }
        }
        Ok(Some(s[0]))
  }

  // ---------------------------------------------------------------------
  // get_last_by_filters
  // ---------------------------------------------------------------------

  /** The operators `get_last_by_filters` acts on; any other is skipped. */
  datatype LastOp = LastCmp(cmp: Cmp) | LastLike | LastIsNull

  /** The if/elif chain: `==`, not `=`, and `is_null`, which ignores the value. */
  function ParseLastOp(s: string): (r: Option<LastOp>)
    ensures r.Some? <==> s in [">", "<", ">=", "<=", "==", "!=", "like", "is_null"]
  {
    if s == ">" then Some(LastCmp(Gt))
    else if s == "<" then Some(LastCmp(Lt))
    else if s == ">=" then Some(LastCmp(Ge))
    else if s == "<=" then Some(LastCmp(Le))
    else if s == "==" then Some(LastCmp(Eq))
    else if s == "!=" then Some(LastCmp(Ne))
    else if s == "like" then Some(LastLike)
    else if s == "is_null" then Some(LastIsNull)
    else None
  }

  /** One item `name: {"operator": op, "value": value}` of the filters dict; either inner key may be absent. */
  datatype NamedFilter = NamedFilter(name: string, op: Option<string>, value: Option<Value>)

  /** Python's f-string rendering of a filter value; an integer renders as text that reads back as it. */
  function Render(v: Value): (r: string)
    ensures v.IntV? ==> ReadInt(r) == v.i
    ensures v.StrV? ==> r == v.s
  {
    match v
    case IntV(i) => ReadIntString(i); IntString(i)
    case StrV(s) => s
    case NullV => "None"
  }

  /** The condition one recognised operator adds; `is_null` ignores the value given with it. */
  predicate LastHolds(op: LastOp, field: Value, v: Value)
    ensures op == LastIsNull ==> (LastHolds(op, field, v) <==> field.NullV?)
    ensures op == LastCmp(Eq) && v.NullV? ==> (LastHolds(op, field, v) <==> field.NullV?)
  {
    match op
    case LastCmp(k) => Compare(k, field, v)
    case LastLike => LikeValue(field, StrV("%" + Render(v) + "%"))
    case LastIsNull => field.NullV?
  }

  /**
   * Whether one dict item keeps the row: an unknown operator keeps every
   * row; an item that raises keeps none.
   */
  predicate FilterHolds(f: NamedFilter, c: Car)
    ensures Raises(f) ==> !FilterHolds(f, c)
    ensures f.op.Some? && f.value.Some? && ParseLastOp(f.op.value).None? ==> FilterHolds(f, c)
  {
    if f.op.None? || f.value.None? then false
    else
      match ParseLastOp(f.op.value)
      case None => true
      case Some(op) =>
        match ColumnNamed(f.name)
        case None => false
        case Some(col) => LastHolds(op, Attr(c, col), f.value.value)
  }

  /**
   * The item raises: KeyError when `operator` or `value` is missing (both
   * are read for every item), AttributeError when a known operator names
   * no column.
   */
  predicate Raises(f: NamedFilter) {
    f.op.None? || f.value.None? || (ParseLastOp(f.op.value).Some? && ColumnNamed(f.name).None?)
  }

  datatype LastPred = LastPred(col: Column, op: LastOp, value: Value)

  predicate AllLastHold(ps: seq<LastPred>, c: Car) {
    forall i :: 0 <= i < |ps| ==> LastHolds(ps[i].op, Attr(c, ps[i].col), ps[i].value)
  }

  /** Every item of the dict keeps the row. */
  predicate AllFiltersHold(fs: seq<NamedFilter>, c: Car) {
    forall i :: 0 <= i < |fs| ==> FilterHolds(fs[i], c)
  }

  /** Some item raises. */
  predicate AnyRaises(fs: seq<NamedFilter>) {
    exists i :: 0 <= i < |fs| && Raises(fs[i])
  }

  /** The filters the if/elif chain turns into query conditions. */
  function ResolveLast(fs: seq<NamedFilter>): (r: Result<seq<LastPred>, QueryError>)
    ensures r.Err? <==> AnyRaises(fs)
    ensures r.Ok? ==> forall c :: AllLastHold(r.value, c) <==> AllFiltersHold(fs, c)
  {
    if fs == [] then Ok([])
    else
      var f := fs[0];
      var rest := ResolveLast(fs[1..]);
      FiltersCons(fs);
      if f.op.None? then Err(MissingFilterKey("operator"))
      else if f.value.None? then Err(MissingFilterKey("value"))
      else
        match ParseLastOp(f.op.value)
        case None => rest
        case Some(op) =>
          match ColumnNamed(f.name)
          case None => Err(NoSuchField(f.name))
          case Some(col) =>
            match rest
            case Err(e) => Err(e)
            case Ok(ps) =>
              var p := LastPred(col, op, f.value.value);
              LastPredsCons(p, ps);
              Ok([p] + ps)
  }

  lemma FiltersCons(fs: seq<NamedFilter>)
    requires |fs| > 0
    ensures forall c :: AllFiltersHold(fs, c) <==> FilterHolds(fs[0], c) && AllFiltersHold(fs[1..], c)
    ensures AnyRaises(fs) <==> Raises(fs[0]) || AnyRaises(fs[1..])
  {
    assert forall i :: 1 <= i < |fs| ==> fs[i] == fs[1..][i - 1];
    forall c ensures AllFiltersHold(fs, c) <== FilterHolds(fs[0], c) && AllFiltersHold(fs[1..], c) {
      if FilterHolds(fs[0], c) && AllFiltersHold(fs[1..], c) {
        forall i | 0 <= i < |fs| ensures FilterHolds(fs[i], c) {
          if i > 0 { assert fs[i] == fs[1..][i - 1]; }
        }
      }
    }
    if AnyRaises(fs) && !Raises(fs[0]) {
      var i :| 0 <= i < |fs| && Raises(fs[i]);
      assert Raises(fs[1..][i - 1]);
    }
  }

  lemma LastPredsCons(p: LastPred, ps: seq<LastPred>)
    ensures forall c :: AllLastHold([p] + ps, c) <==> LastHolds(p.op, Attr(c, p.col), p.value) && AllLastHold(ps, c)
  {
    var qs := [p] + ps;
    assert qs[0] == p;
    assert forall i :: 0 <= i < |ps| ==> qs[i + 1] == ps[i];
    forall c | LastHolds(p.op, Attr(c, p.col), p.value) && AllLastHold(ps, c) ensures AllLastHold(qs, c) {
      forall i | 0 <= i < |qs| ensures LastHolds(qs[i].op, Attr(c, qs[i].col), qs[i].value) {
        if i > 0 { assert qs[i] == ps[i - 1]; }
      }
    }
  }

  /** The matching row with the greatest id (ORDER BY id DESC, first). */
  function LastMatch(rows: seq<Car>, ps: seq<LastPred>): (r: Option<Car>)
    ensures r.Some? ==> r.value in rows && AllLastHold(ps, r.value)
    ensures r.Some? ==> forall c :: c in rows && AllLastHold(ps, c) ==> c.id <= r.value.id
    ensures r.None? ==> forall c :: c in rows ==> !AllLastHold(ps, c)
  {
    if rows == [] then None
    else
      var rest := LastMatch(rows[1..], ps);
      assert forall c :: c in rows ==> c == rows[0] || c in rows[1..];
      if !AllLastHold(ps, rows[0]) then rest
      else if rest.Some? && rest.value.id > rows[0].id then rest
      else Some(rows[0])
  }

  /** `get_last_by_filters`. */
  function GetLastByFilters(rows: seq<Car>, fs: seq<NamedFilter>): (r: Result<Option<Car>, QueryError>)
    ensures r.Err? <==> AnyRaises(fs)
    ensures r.Ok? && r.value.Some? ==>
              && r.value.value in rows
              && AllFiltersHold(fs, r.value.value)
              && forall c :: c in rows && AllFiltersHold(fs, c) ==> c.id <= r.value.value.id
    ensures r.Ok? && r.value.None? ==> forall c :: c in rows ==> !AllFiltersHold(fs, c)
  {
    match ResolveLast(fs)
    case Err(e) => Err(e)
    case Ok(ps) => Ok(LastMatch(rows, ps))
  }

  /** An item whose operator is outside the chain changes nothing. */
  lemma UnknownLastOperatorIgnored(rows: seq<Car>, f: NamedFilter, fs: seq<NamedFilter>)
    requires f.op.Some? && f.value.Some? && ParseLastOp(f.op.value).None?
    ensures GetLastByFilters(rows, [f] + fs) == GetLastByFilters(rows, fs)
  {
    assert ([f] + fs)[1..] == fs;
  }

  /** Whereas get_multi_filters rejects any operator outside its map. */
  lemma UnknownOperatorRejected(rows: seq<Car>, f: FilterSpec)
    requires f.field.Some? && f.value.Some? && ColumnNamed(f.field.value).Some? && ParseOp(OperatorOf(f)).None?
    ensures GetMultiFilters(rows, [f]) == Err(UnknownOperator(OperatorOf(f)))
  {
    FirstBadFilterReported(rows, [f], 0);
  }

  /**
   * `in` or `notin` with a single value raises as the filter is built, so
   * no later filter, however wrong, is looked at.
   */
  lemma SingleValueInRejected(rows: seq<Car>, f: FilterSpec, rest: seq<FilterSpec>)
    requires f.field.Some? && f.value.Some? && f.value.value.One? && ColumnNamed(f.field.value).Some?
    requires OperatorOf(f) == "in" || OperatorOf(f) == "notin"
    ensures GetMultiFilters(rows, [f] + rest) == Err(BadArgument)
  {
    assert ([f] + rest)[0] == f;
    FirstBadFilterReported(rows, [f] + rest, 0);
  }

  /** `like` in get_last_by_filters is substring containment for a literal value. */
  lemma LastLikeIsContainment(field: Value, v: string)
    requires NoWildcards(v)
    ensures LastHolds(LastLike, field, StrV(v)) <==> field.StrV? && Contains(field.s, v)
  {
    if field.StrV? {
      LikeSubstring(field.s, v);
    }
  }
}
