/**
 * The write operations of the generic CRUD engine (crud/base.py, class
 * CRUDBase): `create`, `create_multi`, `update`, `update_multi` and
 * `remove`, as methods on a `Table` that holds the rows of the Car table
 * and the next value of its id sequence. A commit is modelled as an
 * instantaneous update of `rows`; a commit the store rejects leaves `rows`
 * as it was.
 */
module CrudTable {
  import opened Text
  import opened Records
  import opened Queries

  /** The CarCreate schema: the fields a create payload carries. */
  datatype CarIn = CarIn(model: string, year: int)

  /** Failures of a write. */
  datatype WriteError =
    | StoreRejected         // the commit violates the primary key (duplicate, NULL or non-integer id)
    | MissingKey(key: string)  // KeyError: obj_data[filtro]
    | NoSuchColumn(name: string)  // filter_by on a name that is not a column
    | UnconsumedColumns     // values(**obj_data) with a key that is not a column
    | RefreshFailed(id: int)  // refresh, or a later load, of an object whose primary key no row has any more

  /** What `create_multi` returns instead of the rows. */
  const CreateMultiMessage: map<string, string> := map["msg" := "Chamados inseridos com sucesso"]

  /** The row a create payload becomes under the id the sequence hands out. */
  function NewRow(x: CarIn, id: int): Car {
    Car(id, StrV(x.model), IntV(x.year))
  }

  /** The rows a bulk insert adds, with consecutive ids from `first`. */
  function NewRows(xs: seq<CarIn>, first: int): (r: seq<Car>)
    ensures |r| == |xs|
    ensures forall k :: 0 <= k < |xs| ==> r[k] == NewRow(xs[k], first + k)
  {
    seq(|xs|, k requires 0 <= k < |xs| => NewRow(xs[k], first + k))
  }

  /** None of the `n` ids from `first` on is in use. */
  predicate IdsFree(rows: seq<Car>, first: int, n: nat) {
    forall id :: first <= id < first + n ==> Get(rows, id).None?
  }

  /** Appending rows with fresh, pairwise distinct ids keeps ids unique. */
  lemma AppendFreshKeepsUnique(rows: seq<Car>, xs: seq<CarIn>, first: int)
    requires UniqueIds(rows) && IdsFree(rows, first, |xs|)
    ensures UniqueIds(rows + NewRows(xs, first))
  {
    var added := NewRows(xs, first);
    var all := rows + added;
    forall i, j | 0 <= i < j < |all| ensures all[i].id != all[j].id {
      if j >= |rows| {
        if i < |rows| {
          assert all[j].id == first + (j - |rows|);
          assert Get(rows, all[j].id).None?;
          assert all[i] in rows;
        }
      }
    }
  }

  /** A created row can be read back by its id, and nothing else is disturbed. */
  lemma CreateThenGet(rows: seq<Car>, c: Car, id: int)
    requires UniqueIds(rows) && Get(rows, c.id).None?
    ensures UniqueIds(rows + [c])
    ensures Get(rows + [c], id) == if id == c.id then Some(c) else Get(rows, id)
  {
    var all := rows + [c];
    forall i, j | 0 <= i < j < |all| ensures all[i].id != all[j].id {
      if j == |rows| {
        assert all[i] in rows;
      }
    }
    GetAppend(rows, c, id);
  }

  lemma {:induction false} GetAppend(rows: seq<Car>, c: Car, id: int)
    requires Get(rows, c.id).None?
    ensures Get(rows + [c], id) == if id == c.id then Some(c) else Get(rows, id)
  {
    if rows != [] {
      assert (rows + [c])[1..] == rows[1..] + [c];
      if rows[0].id != id {
        assert Get(rows[1..], c.id).None? by {
          assert forall x :: x in rows[1..] ==> x in rows;
        }
        GetAppend(rows[1..], c, id);
      }
    } else {
      assert rows + [c] == [c];
    }
  }

  // ---------------------------------------------------------------------
  // update: setattr on the columns that are keys of the payload
  // ---------------------------------------------------------------------

  /** A row object after attribute assignment and before commit. */
  datatype Draft = Draft(id: Value, model: Value, year: Value)

  function DraftOf(c: Car): Draft {
    Draft(IntV(c.id), c.model, c.year)
  }

  function DraftAttr(d: Draft, col: Column): Value {
    match col
    case Id => d.id
    case Model => d.model
    case Year => d.year
  }

  function SetAttr(d: Draft, col: Column, v: Value): Draft {
    match col
    case Id => d.(id := v)
    case Model => d.(model := v)
    case Year => d.(year := v)
  }

  /** Each column named in the payload takes the payload's value; keys that name no column are ignored. */
  function Assign(c: Car, patch: map<string, Value>): (d: Draft)
    ensures forall col :: DraftAttr(d, col) == if ColumnName(col) in patch then patch[ColumnName(col)] else Attr(c, col)
  {
    Draft(
      if "id" in patch then patch["id"] else IntV(c.id),
      if "model" in patch then patch["model"] else c.model,
      if "year" in patch then patch["year"] else c.year)
  }

  /** Payload keys that name no column make no difference. */
  lemma AssignIgnoresExtraKeys(c: Car, patch: map<string, Value>, k: string)
    requires ColumnNamed(k).None?
    ensures Assign(c, patch) == Assign(c, patch - {k})
  {
    assert ColumnName(Id) == "id" && ColumnName(Model) == "model" && ColumnName(Year) == "year";
  }

  /** An update payload that sets only `year` changes only the year. */
  lemma PartialUpdateExample()
    ensures Assign(Car(1, StrV("X"), IntV(2020)), map["year" := IntV(2021)]) == Draft(IntV(1), StrV("X"), IntV(2021))
  {
  }

  /** Rows with the row whose id is `id` replaced by `c`. */
  function ReplaceRow(rows: seq<Car>, id: int, c: Car): (r: seq<Car>)
    ensures |r| == |rows|
    ensures forall k :: 0 <= k < |rows| ==> r[k] == if rows[k].id == id then c else rows[k]
  {
    seq(|rows|, k requires 0 <= k < |rows| => if rows[k].id == id then c else rows[k])
  }

  /**
   * The commit of an updated row: the id must be an integer and may not be
   * taken by another row.
   */
  function CommitUpdate(rows: seq<Car>, id: int, d: Draft): (r: Result<Car, WriteError>)
    ensures r.Ok? <==> d.id.IntV? && (d.id.i == id || Get(rows, d.id.i).None?)
    ensures r.Ok? ==> DraftOf(r.value) == d
  {
    if d.id.IntV? && (d.id.i == id || Get(rows, d.id.i).None?) then Ok(Car(d.id.i, d.model, d.year))
    else Err(StoreRejected)
  }

  /** A committed update keeps the primary key unique. */
  lemma CommitUpdateKeepsUnique(rows: seq<Car>, id: int, d: Draft)
    requires UniqueIds(rows) && CommitUpdate(rows, id, d).Ok?
    ensures UniqueIds(ReplaceRow(rows, id, CommitUpdate(rows, id, d).value))
  {
    var c := CommitUpdate(rows, id, d).value;
    var r := ReplaceRow(rows, id, c);
    forall i, j | 0 <= i < j < |r| ensures r[i].id != r[j].id {
      if rows[i].id == id && rows[j].id != id {
        assert rows[j] in rows;
      } else if rows[j].id == id && rows[i].id != id {
        assert rows[i] in rows;
      }
    }
  }

  // ---------------------------------------------------------------------
  // update_multi: UPDATE ... SET <all payload fields> WHERE key == value
  // ---------------------------------------------------------------------

  /** The first row whose `col` equals `v` (`filter_by(...).first()`). */
  function FirstWhere(rows: seq<Car>, col: Column, v: Value): (r: Option<Car>)
    ensures r.Some? ==> r.value in rows && Compare(Eq, Attr(r.value, col), v)
    ensures r.None? <==> forall c :: c in rows ==> !Compare(Eq, Attr(c, col), v)
  {
    if rows == [] then None
    else if Compare(Eq, Attr(rows[0], col), v) then Some(rows[0])
    else FirstWhere(rows[1..], col, v)
  }

  /**
   * A row as it stands before commit: assigned the payload when its `col`
   * equals `v`, as loaded otherwise. Without an `id` in the payload the row
   * keeps its primary key.
   */
  function Patched(c: Car, col: Column, v: Value, obj: map<string, Value>): (d: Draft)
    ensures "id" !in obj ==> d.id == IntV(c.id)
  {
    if Compare(Eq, Attr(c, col), v) then Assign(c, obj) else DraftOf(c)
  }

  /**
   * Every row whose `col` equals `v` receives the payload. The store takes
   * the drafts exactly when every primary key is an integer and no two are
   * equal; in particular, always when the payload leaves `id` alone.
   */
  function UpdateWhere(rows: seq<Car>, col: Column, v: Value, obj: map<string, Value>): (r: Option<seq<Car>>)
    ensures r.Some? <==>
              && (forall k :: 0 <= k < |rows| ==> Patched(rows[k], col, v, obj).id.IntV?)
              && (forall i, j :: 0 <= i < j < |rows| ==> Patched(rows[i], col, v, obj).id != Patched(rows[j], col, v, obj).id)
    ensures UniqueIds(rows) && "id" !in obj ==> r.Some?
    ensures r.Some? ==> |r.value| == |rows|
    ensures r.Some? ==> forall k :: 0 <= k < |rows| ==>
              DraftOf(r.value[k]) == if Compare(Eq, Attr(rows[k], col), v) then Assign(rows[k], obj) else DraftOf(rows[k])
    ensures r.Some? ==> UniqueIds(r.value)
  {
    var ds := seq(|rows|, k requires 0 <= k < |rows| => Patched(rows[k], col, v, obj));
    assert forall k :: 0 <= k < |rows| ==> ds[k] == Patched(rows[k], col, v, obj);
    if (forall k :: 0 <= k < |ds| ==> ds[k].id.IntV?)
       && (forall i, j :: 0 <= i < j < |ds| ==> ds[i].id != ds[j].id)
    then
      var cars := seq(|ds|, k requires 0 <= k < |ds| => Car(ds[k].id.i, ds[k].model, ds[k].year));
      assert forall k :: 0 <= k < |ds| ==> DraftOf(cars[k]) == ds[k];
      Some(cars)
    else None
  }

  /**
   * One iteration of the update_multi loop, up to its commit: the new rows
   * and the identity (the primary key when loaded) of the object the first
   * match was loaded into, `None` when no row matches.
   */
  function UpdateOne(rows: seq<Car>, obj: map<string, Value>, key: string): (r: Result<(seq<Car>, Option<int>), WriteError>)
    ensures key !in obj ==> r == Err(MissingKey(key))
    ensures r.Ok? ==> key in obj && ColumnNamed(key).Some?
    ensures r.Ok? ==> (r.value.1.Some? <==> FirstWhere(rows, ColumnNamed(key).value, obj[key]).Some?)
    ensures r.Ok? && r.value.1.Some? ==> r.value.1.value == FirstWhere(rows, ColumnNamed(key).value, obj[key]).value.id
    ensures r.Ok? && r.value.1.None? ==> r.value.0 == rows
  {
    if key !in obj then Err(MissingKey(key))
    else
      match ColumnNamed(key)
      case None => Err(NoSuchColumn(key))
      case Some(col) =>
        var v := obj[key];
        match FirstWhere(rows, col, v)
        case None => Ok((rows, None))
        case Some(_) =>
          if exists k :: k in obj && ColumnNamed(k).None? then Err(UnconsumedColumns)
          else
            match UpdateWhere(rows, col, v, obj)
            case None => Err(StoreRejected)
            case Some(rows') => Ok((rows', Some(FirstWhere(rows, col, v).value.id)))
  }

  /** An input whose key value matches no row changes nothing and raises nothing. */
  lemma UnmatchedInputSkipped(rows: seq<Car>, obj: map<string, Value>, key: string)
    requires key in obj && ColumnNamed(key).Some?
    requires forall c :: c in rows ==> !Compare(Eq, Attr(c, ColumnNamed(key).value), obj[key])
    ensures UpdateOne(rows, obj, key) == Ok((rows, None))
  {
  }

  /** An input without the key field raises KeyError. */
  lemma MissingKeyRaises(rows: seq<Car>, obj: map<string, Value>, key: string)
    requires key !in obj
    ensures UpdateOne(rows, obj, key) == Err(MissingKey(key))
  {
  }

  /** A key field that names no column raises (`getattr` on the model class). */
  lemma UnknownKeyColumnRaises(rows: seq<Car>, obj: map<string, Value>, key: string)
    requires key in obj && ColumnNamed(key).None?
    ensures UpdateOne(rows, obj, key) == Err(NoSuchColumn(key))
  {
  }

  /** When a row matches, a payload field that names no column raises before the commit. */
  lemma UnknownFieldRaises(rows: seq<Car>, obj: map<string, Value>, key: string, f: string)
    requires key in obj && ColumnNamed(key).Some? && FirstWhere(rows, ColumnNamed(key).value, obj[key]).Some?
    requires f in obj && ColumnNamed(f).None?
    ensures UpdateOne(rows, obj, key) == Err(UnconsumedColumns)
  {
  }

  /**
   * On a table with unique ids, an input whose fields all name columns and
   * leave `id` alone never raises.
   */
  lemma ColumnPayloadSucceeds(rows: seq<Car>, obj: map<string, Value>, key: string)
    requires UniqueIds(rows) && key in obj && "id" !in obj && (forall f :: f in obj ==> ColumnNamed(f).Some?)
    ensures UpdateOne(rows, obj, key).Ok?
  {
  }

  /**
   * Full-value update: every row whose key matches receives every payload
   * field, every other row is unchanged, and the ids stay unique.
   */
  lemma MatchedRowsReceivePayload(rows: seq<Car>, obj: map<string, Value>, key: string, k: nat, col: Column)
    requires UpdateOne(rows, obj, key).Ok? && k < |rows|
    ensures var rows' := UpdateOne(rows, obj, key).value.0;
            && |rows'| == |rows| && (rows' != rows ==> UniqueIds(rows'))
            && ((Compare(Eq, Attr(rows[k], ColumnNamed(key).value), obj[key]) && ColumnName(col) in obj)
                ==> Attr(rows'[k], col) == obj[ColumnName(col)])
            && (!Compare(Eq, Attr(rows[k], ColumnNamed(key).value), obj[key]) ==> rows'[k] == rows[k])
  {
    var keyCol := ColumnNamed(key).value;
    var v := obj[key];
    if FirstWhere(rows, keyCol, v).Some? {
      var rows' := UpdateWhere(rows, keyCol, v, obj).value;
      assert DraftOf(rows'[k]) == if Compare(Eq, Attr(rows[k], keyCol), v) then Assign(rows[k], obj) else DraftOf(rows[k]);
      assert DraftAttr(DraftOf(rows'[k]), col) == Attr(rows'[k], col);
    } else {
      assert rows[k] in rows;
    }
  }

  /**
   * An input on a table with unique ids, whose fields all name columns and
   * leave `id` alone, commits: a row whose key matches takes every payload
   * field, and the object loaded for the first match is listed.
   */
  lemma MatchedInputCommits(rows: seq<Car>, obj: map<string, Value>, key: string, k: nat, col: Column)
    requires UniqueIds(rows) && key in obj && "id" !in obj && (forall f :: f in obj ==> ColumnNamed(f).Some?)
    requires k < |rows| && Compare(Eq, Attr(rows[k], ColumnNamed(key).value), obj[key]) && ColumnName(col) in obj
    ensures UpdateOne(rows, obj, key).Ok?
    ensures UpdateOne(rows, obj, key).value.1.Some?
    ensures Attr(UpdateOne(rows, obj, key).value.0[k], col) == obj[ColumnName(col)]
  {
    assert rows[k] in rows;
    ColumnPayloadSucceeds(rows, obj, key);
    MatchedRowsReceivePayload(rows, obj, key, k, col);
  }

  /** The object an input appends to the answer, if any, by its identity. */
  function Listed(found: Option<int>): seq<int> {
    if found.Some? then [found.value] else []
  }

  /** `db.refresh(db_obj)` after the commit: the object's primary key must still name a row. */
  predicate RefreshFails(rows: seq<Car>, found: Option<int>) {
    found.Some? && Get(rows, found.value).None?
  }

  /**
   * The state of update_multi after some inputs: rows, the identities of the
   * objects appended so far, and the exception, if any.
   */
  datatype Batch = Batch(rows: seq<Car>, updated: seq<int>, failure: Option<WriteError>)

  /**
   * The update_multi loop: inputs are handled in order and each commits on
   * its own; the first failing input stops the loop, and the commits before
   * it stay. A refresh that fails comes after its own commit, which stays
   * too. Every matched input appends one object.
   */
  function RunUpdates(rows: seq<Car>, objs: seq<map<string, Value>>, key: string): (b: Batch)
    ensures |b.updated| <= |objs|
    decreases |objs|
  {
    if objs == [] then Batch(rows, [], None)
    else
      match UpdateOne(rows, objs[0], key)
      case Err(e) => Batch(rows, [], Some(e))
      case Ok((rows', found)) =>
        if RefreshFails(rows', found) then Batch(rows', [], Some(RefreshFailed(found.value)))
        else
          var b := RunUpdates(rows', objs[1..], key);
          Batch(b.rows, Listed(found) + b.updated, b.failure)
  }

  /** An unmatched input can be dropped from the batch without changing its outcome. */
  lemma UnmatchedInputDropped(rows: seq<Car>, obj: map<string, Value>, rest: seq<map<string, Value>>, key: string)
    requires key in obj && ColumnNamed(key).Some?
    requires forall c :: c in rows ==> !Compare(Eq, Attr(c, ColumnNamed(key).value), obj[key])
    ensures RunUpdates(rows, [obj] + rest, key) == RunUpdates(rows, rest, key)
  {
    UnmatchedInputSkipped(rows, obj, key);
    assert ([obj] + rest)[1..] == rest;
  }

  /** One committed input keeps the primary key unique. */
  lemma UpdateOneKeepsUnique(rows: seq<Car>, obj: map<string, Value>, key: string)
    requires UniqueIds(rows) && UpdateOne(rows, obj, key).Ok?
    ensures UniqueIds(UpdateOne(rows, obj, key).value.0)
  {
  }

  /** update_multi keeps the primary key unique, whether or not it stops early. */
  lemma {:induction false} RunUpdatesKeepsUnique(rows: seq<Car>, objs: seq<map<string, Value>>, key: string)
    requires UniqueIds(rows)
    ensures UniqueIds(RunUpdates(rows, objs, key).rows)
    decreases |objs|
  {
    if objs != [] {
      match UpdateOne(rows, objs[0], key)
      case Err(_) =>
      case Ok((rows', found)) =>
        UpdateOneKeepsUnique(rows, objs[0], key);
        if !RefreshFails(rows', found) {
          RunUpdatesKeepsUnique(rows', objs[1..], key);
        }
    }
  }

  /** A batch outcome with the objects `acc` appended before it. */
  function After(acc: seq<int>, b: Batch): Batch {
    Batch(b.rows, acc + b.updated, b.failure)
  }

  /**
   * Loading the appended objects: each commit expired them, so each is read
   * again, by its identity, from the final rows; an object whose row is gone
   * raises.
   */
  function ReadBack(rows: seq<Car>, ids: seq<int>): (r: Result<seq<Car>, WriteError>)
    ensures r.Ok? <==> forall k :: 0 <= k < |ids| ==> Get(rows, ids[k]).Some?
    ensures r.Ok? ==> |r.value| == |ids| && forall k :: 0 <= k < |ids| ==> Get(rows, ids[k]) == Some(r.value[k])
  {
    if ids == [] then Ok([])
    else
      assert forall k :: 1 <= k < |ids| ==> ids[k] == ids[1..][k - 1];
      match Get(rows, ids[0])
      case None => Err(RefreshFailed(ids[0]))
      case Some(c) =>
        match ReadBack(rows, ids[1..])
        case Err(e) => Err(e)
        case Ok(cs) => Ok([c] + cs)
  }

  /**
   * What update_multi answers: the appended objects in a one-element list,
   * each showing the final state of its row (the same row matched twice
   * shows up twice, both times as it finally is), or the exception.
   */
  function Answer(b: Batch): (r: Result<seq<seq<Car>>, WriteError>)
    ensures r.Ok? <==> b.failure.None? && forall k :: 0 <= k < |b.updated| ==> Get(b.rows, b.updated[k]).Some?
    ensures r.Ok? ==> |r.value| == 1 && |r.value[0]| == |b.updated|
                      && forall k :: 0 <= k < |b.updated| ==> Get(b.rows, b.updated[k]) == Some(r.value[0][k])
    ensures b.failure.Some? ==> r == Err(b.failure.value)
  {
    match b.failure
    case Some(e) => Err(e)
    case None =>
      match ReadBack(b.rows, b.updated)
      case Err(e) => Err(e)
      case Ok(cs) => Ok([cs])
  }

  /** A failing input ends the batch with the rows as they were before it. */
  lemma RunUpdatesStops(rows: seq<Car>, objs: seq<map<string, Value>>, i: nat, key: string, acc: seq<int>)
    requires i < |objs| && UpdateOne(rows, objs[i], key).Err?
    ensures After(acc, RunUpdates(rows, objs[i..], key)) == Batch(rows, acc, Some(UpdateOne(rows, objs[i], key).error))
  {
    assert objs[i..][0] == objs[i];
    assert acc + [] == acc;
  }

  /** A refresh that fails ends the batch with the rows as its own commit left them. */
  lemma RunUpdatesRefreshFails(rows: seq<Car>, objs: seq<map<string, Value>>, i: nat, key: string, acc: seq<int>)
    requires i < |objs| && UpdateOne(rows, objs[i], key).Ok?
    requires RefreshFails(UpdateOne(rows, objs[i], key).value.0, UpdateOne(rows, objs[i], key).value.1)
    ensures After(acc, RunUpdates(rows, objs[i..], key))
            == Batch(UpdateOne(rows, objs[i], key).value.0, acc, Some(RefreshFailed(UpdateOne(rows, objs[i], key).value.1.value)))
  {
    assert objs[i..][0] == objs[i];
    assert acc + [] == acc;
  }

  /** One step of the update_multi loop, seen from the whole batch. */
  lemma RunUpdatesStep(rows: seq<Car>, objs: seq<map<string, Value>>, i: nat, key: string, acc: seq<int>)
    requires i < |objs| && UpdateOne(rows, objs[i], key).Ok?
    requires !RefreshFails(UpdateOne(rows, objs[i], key).value.0, UpdateOne(rows, objs[i], key).value.1)
    ensures After(acc, RunUpdates(rows, objs[i..], key))
            == After(acc + Listed(UpdateOne(rows, objs[i], key).value.1),
                     RunUpdates(UpdateOne(rows, objs[i], key).value.0, objs[i + 1..], key))
  {
    assert objs[i..][0] == objs[i] && objs[i..][1..] == objs[i + 1..];
  }

  /**
   * The three ways one input of update_multi can go, seen from the whole
   * batch: it raises before its commit, its refresh raises after it, or it
   * commits and the loop goes on from the new rows, which keep the primary
   * key unique.
   */
  lemma RunUpdatesAdvance(rows: seq<Car>, objs: seq<map<string, Value>>, i: nat, key: string, acc: seq<int>)
    requires i < |objs| && UniqueIds(rows)
    ensures var step := UpdateOne(rows, objs[i], key);
            var b := After(acc, RunUpdates(rows, objs[i..], key));
            && (step.Err? ==> b == Batch(rows, acc, Some(step.error)))
            && (step.Ok? ==> UniqueIds(step.value.0))
            && (step.Ok? && RefreshFails(step.value.0, step.value.1) ==>
                  b == Batch(step.value.0, acc, Some(RefreshFailed(step.value.1.value))))
            && (step.Ok? && !RefreshFails(step.value.0, step.value.1) ==>
                  b == After(acc + Listed(step.value.1), RunUpdates(step.value.0, objs[i + 1..], key)))
  {
    var step := UpdateOne(rows, objs[i], key);
    if step.Err? {
      RunUpdatesStops(rows, objs, i, key, acc);
    } else {
      UpdateOneKeepsUnique(rows, objs[i], key);
      if RefreshFails(step.value.0, step.value.1) {
        RunUpdatesRefreshFails(rows, objs, i, key, acc);
      } else {
        RunUpdatesStep(rows, objs, i, key, acc);
      }
    }
  }

  /** Two tables whose rows carry the same ids position by position. */
  predicate SameIds(a: seq<Car>, b: seq<Car>) {
    |a| == |b| && forall k :: 0 <= k < |a| ==> a[k].id == b[k].id
  }

  lemma SameIdsGet(a: seq<Car>, b: seq<Car>, id: int)
    requires SameIds(a, b)
    ensures Get(a, id).Some? <==> Get(b, id).Some?
  {
    if Get(a, id).Some? {
      var k :| 0 <= k < |a| && a[k] == Get(a, id).value;
      assert b[k] in b;
    }
    if Get(b, id).Some? {
      var k :| 0 <= k < |b| && b[k] == Get(b, id).value;
      assert a[k] in a;
    }
  }

  /** A payload without `id` leaves every row's primary key where it was. */
  lemma UpdateOneKeepsIds(rows: seq<Car>, obj: map<string, Value>, key: string)
    requires "id" !in obj && UpdateOne(rows, obj, key).Ok?
    ensures SameIds(rows, UpdateOne(rows, obj, key).value.0)
  {
    var rows' := UpdateOne(rows, obj, key).value.0;
    if UpdateOne(rows, obj, key).value.1.Some? {
      var col, v := ColumnNamed(key).value, obj[key];
      forall k | 0 <= k < |rows| ensures rows'[k].id == rows[k].id {
        assert DraftOf(rows'[k]).id == DraftAttr(DraftOf(rows'[k]), Id);
        assert DraftAttr(Assign(rows[k], obj), Id) == IntV(rows[k].id);
      }
    }
  }

  /**
   * When no payload sets `id`, no refresh fails, the primary keys stay
   * where they were, and every appended object can be loaded from the
   * final rows: the answer fails only on an exception raised before it.
   */
  lemma {:induction false} ListedObjectsLoad(rows: seq<Car>, objs: seq<map<string, Value>>, key: string)
    requires forall k :: 0 <= k < |objs| ==> "id" !in objs[k]
    ensures SameIds(rows, RunUpdates(rows, objs, key).rows)
    ensures RunUpdates(rows, objs, key).failure.Some? ==> !RunUpdates(rows, objs, key).failure.value.RefreshFailed?
    ensures Answer(RunUpdates(rows, objs, key)).Ok? <==> RunUpdates(rows, objs, key).failure.None?
    decreases |objs|
  {
    var b := RunUpdates(rows, objs, key);
    if objs != [] {
      match UpdateOne(rows, objs[0], key)
      case Err(_) =>
      case Ok((rows', found)) =>
        UpdateOneSettles(rows, objs[0], key);
        var rest := RunUpdates(rows', objs[1..], key);
        ListedObjectsLoad(rows', objs[1..], key);
        assert b == Batch(rest.rows, Listed(found) + rest.updated, rest.failure);
        if found.Some? {
          SameIdsGet(rows', rest.rows, found.value);
        }
        if rest.failure.None? {
          ListedLoad(rest.rows, found, rest.updated);
        }
    }
  }

  /** One input whose payload has no `id` keeps the keys in place, so its refresh finds its row. */
  lemma UpdateOneSettles(rows: seq<Car>, obj: map<string, Value>, key: string)
    requires "id" !in obj && UpdateOne(rows, obj, key).Ok?
    ensures var (rows', found) := UpdateOne(rows, obj, key).value;
            SameIds(rows, rows') && !RefreshFails(rows', found)
  {
    var (rows', found) := UpdateOne(rows, obj, key).value;
    UpdateOneKeepsIds(rows, obj, key);
    if found.Some? {
      assert Get(rows, found.value).Some?;
      SameIdsGet(rows, rows', found.value);
    }
  }

  /** Putting an object that loads in front of objects that load gives objects that load. */
  lemma ListedLoad(rows: seq<Car>, found: Option<int>, ids: seq<int>)
    requires found.Some? ==> Get(rows, found.value).Some?
    requires forall k :: 0 <= k < |ids| ==> Get(rows, ids[k]).Some?
    ensures forall k :: 0 <= k < |Listed(found) + ids| ==> Get(rows, (Listed(found) + ids)[k]).Some?
  {
    forall k | 0 <= k < |Listed(found) + ids| ensures Get(rows, (Listed(found) + ids)[k]).Some? {
      if found.None? || k > 0 {
        assert (Listed(found) + ids)[k] == ids[k - |Listed(found)|];
      }
    }
  }

  /**
   * Aliasing: the same row matched by two inputs is appended twice as one
   * object, and both entries show the row after the second update.
   */
  lemma SameRowListedTwice()
    ensures Answer(RunUpdates([Car(1, StrV("A"), IntV(2000))],
                              [map["model" := StrV("A"), "year" := IntV(2001)], map["model" := StrV("A"), "year" := IntV(2002)]],
                              "model"))
            == Ok([[Car(1, StrV("A"), IntV(2002)), Car(1, StrV("A"), IntV(2002))]])
  {
    var o1 := map["model" := StrV("A"), "year" := IntV(2001)];
    var o2 := map["model" := StrV("A"), "year" := IntV(2002)];
    var r0 := [Car(1, StrV("A"), IntV(2000))];
    var r1 := [Car(1, StrV("A"), IntV(2001))];
    var r2 := [Car(1, StrV("A"), IntV(2002))];
    OneRowUpdate(Car(1, StrV("A"), IntV(2000)), o1);
    OneRowUpdate(Car(1, StrV("A"), IntV(2001)), o2);
    assert [o1, o2][1..] == [o2] && [o2][1..] == [];
    assert RunUpdates(r1, [o2], "model") == Batch(r2, [1], None);
    assert RunUpdates(r0, [o1, o2], "model") == Batch(r2, [1, 1], None);
    assert ReadBack(r2, [1, 1]).value == [Car(1, StrV("A"), IntV(2002)), Car(1, StrV("A"), IntV(2002))];
  }

  /**
   * A payload that changes the matched row's `id` commits, then the refresh
   * looks the object up by its old key and raises.
   */
  lemma IdChangeRefreshFails()
    ensures RunUpdates([Car(1, StrV("A"), IntV(2000))], [map["model" := StrV("A"), "id" := IntV(9)]], "model")
            == Batch([Car(9, StrV("A"), IntV(2000))], [], Some(RefreshFailed(1)))
  {
    var o := map["model" := StrV("A"), "id" := IntV(9)];
    var c := Car(1, StrV("A"), IntV(2000));
    assert !(exists k :: k in o && ColumnNamed(k).None?);
    assert FirstWhere([c], Model, StrV("A")) == Some(c);
    assert Assign(c, o) == Draft(IntV(9), StrV("A"), IntV(2000));
    UpdateWhereOne(c, Model, StrV("A"), o);
    assert UpdateOne([c], o, "model") == Ok(([Car(9, StrV("A"), IntV(2000))], Some(1)));
    assert Get([Car(9, StrV("A"), IntV(2000))], 1).None?;
  }

  /** An update of a one-row table by its `model`, with a payload of model and year. */
  lemma OneRowUpdate(c: Car, o: map<string, Value>)
    requires o.Keys == {"model", "year"} && o["model"] == c.model && !c.model.NullV?
    ensures UpdateOne([c], o, "model") == Ok(([Car(c.id, c.model, o["year"])], Some(c.id)))
  {
    assert !(exists k :: k in o && ColumnNamed(k).None?);
    assert FirstWhere([c], Model, c.model) == Some(c);
    assert Assign(c, o) == Draft(IntV(c.id), c.model, o["year"]);
    UpdateWhereOne(c, Model, c.model, o);
  }

  /** UPDATE of a one-row table whose row matches. */
  lemma UpdateWhereOne(c: Car, col: Column, v: Value, obj: map<string, Value>)
    requires Compare(Eq, Attr(c, col), v) && Assign(c, obj).id.IntV?
    ensures var d := Assign(c, obj); UpdateWhere([c], col, v, obj) == Some([Car(d.id.i, d.model, d.year)])
  {
    var rows := [c];
    var ds := seq(|rows|, k requires 0 <= k < |rows| => Patched(rows[k], col, v, obj));
    assert ds == [Assign(c, obj)];
    var cars := seq(|ds|, k requires 0 <= k < |ds| => Car(ds[k].id.i, ds[k].model, ds[k].year));
    assert cars == [Car(ds[0].id.i, ds[0].model, ds[0].year)];
  }

  // ---------------------------------------------------------------------
  // remove
  // ---------------------------------------------------------------------

  /** The rows left after deleting the row(s) with primary key `id`. */
  function Without(rows: seq<Car>, id: int): (r: seq<Car>)
    ensures forall c :: c in r <==> c in rows && c.id != id
    ensures multiset(r) <= multiset(rows)
  {
    if rows == [] then []
    else
      assert rows == [rows[0]] + rows[1..];
      (if rows[0].id == id then [] else [rows[0]]) + Without(rows[1..], id)
  }

  /** Deleting one id removes exactly one row of a table with unique ids. */
  lemma {:induction false} WithoutRemovesOne(rows: seq<Car>, id: int)
    requires UniqueIds(rows) && Get(rows, id).Some?
    ensures |Without(rows, id)| == |rows| - 1
    ensures UniqueIds(Without(rows, id))
  {
    if rows[0].id == id {
      assert forall c :: c in rows[1..] ==> c.id != id by {
        forall c | c in rows[1..] ensures c.id != id {
          var k :| 0 <= k < |rows[1..]| && rows[1..][k] == c;
          assert rows[k + 1] == c;
        }
      }
      WithoutNoOp(rows[1..], id);
    } else {
      WithoutRemovesOne(rows[1..], id);
    }
    WithoutKeepsUnique(rows, id);
  }

  lemma {:induction false} WithoutNoOp(rows: seq<Car>, id: int)
    requires forall c :: c in rows ==> c.id != id
    ensures Without(rows, id) == rows
  {
    if rows != [] {
      assert rows[0] in rows;
      assert forall c :: c in rows[1..] ==> c in rows;
      WithoutNoOp(rows[1..], id);
      WithoutCons(rows, id);
      assert rows == [rows[0]] + rows[1..];
    }
  }

  lemma WithoutCons(rows: seq<Car>, id: int)
    requires rows != []
    ensures Without(rows, id) == (if rows[0].id == id then [] else [rows[0]]) + Without(rows[1..], id)
  {
  }

  lemma {:induction false} WithoutKeepsUnique(rows: seq<Car>, id: int)
    requires UniqueIds(rows)
    ensures UniqueIds(Without(rows, id))
  {
    if rows != [] {
      WithoutKeepsUnique(rows[1..], id);
      var rest := Without(rows[1..], id);
      var r := Without(rows, id);
      if rows[0].id != id {
        assert r == [rows[0]] + rest;
        forall j | 0 < j < |r| ensures r[0].id != r[j].id {
          assert r[j] in rest;
          assert r[j] in rows[1..];
          var k :| 0 <= k < |rows[1..]| && rows[1..][k] == r[j];
          assert rows[k + 1] == r[j];
        }
      }
    }
  }

  /** After remove, the id is gone and every other row reads back as before. */
  lemma RemoveThenGet(rows: seq<Car>, id: int, other: int)
    requires UniqueIds(rows)
    ensures Get(Without(rows, id), id).None?
    ensures other != id ==> Get(Without(rows, id), other) == Get(rows, other)
  {
    if other != id {
      WithoutKeepsUnique(rows, id);
      match Get(rows, other)
      case None =>
      case Some(c) =>
        assert c in Without(rows, id);
        GetUnique(Without(rows, id), c);
    }
  }

  // ---------------------------------------------------------------------
  // The table
  // ---------------------------------------------------------------------

  class Table {
    /** The persisted rows, in store order. */
    var rows: seq<Car>
    /** The next value the id sequence hands out. */
    var nextId: int

    ghost predicate Valid()
      reads this
    {
      UniqueIds(rows)
    }

    constructor ()
      ensures Valid() && rows == [] && nextId == 1
    {
      rows := [];
      nextId := 1;
    }

    /**
     * `create`: the payload becomes a row with the next id of the sequence;
     * the insert fails if that id is already taken.
     */
    method Create(x: CarIn) returns (r: Result<Car, WriteError>)
      requires Valid()
      modifies this
      ensures Valid()
      ensures nextId == old(nextId) + 1
      ensures r == if Get(old(rows), old(nextId)).Some? then Err(StoreRejected) else Ok(NewRow(x, old(nextId)))
      ensures rows == if r.Ok? then old(rows) + [r.value] else old(rows)
    {
      var id := nextId;
      nextId := nextId + 1;
      if Get(rows, id).Some? {
        r := Err(StoreRejected);
      } else {
        var c := NewRow(x, id);
        CreateThenGet(rows, c, id);
        rows := rows + [c];
        r := Ok(c);
      }
    }

    /**
     * `create_multi`: all payloads are inserted in one commit, or none is;
     * the caller gets the fixed `{'msg': ...}` dictionary, not the rows.
     */
    method CreateMulti(xs: seq<CarIn>) returns (r: Result<map<string, string>, WriteError>)
      requires Valid()
      modifies this
      ensures Valid()
      ensures nextId == old(nextId) + |xs|
      ensures r == if IdsFree(old(rows), old(nextId), |xs|) then Ok(CreateMultiMessage) else Err(StoreRejected)
      ensures rows == if r.Ok? then old(rows) + NewRows(xs, old(nextId)) else old(rows)
    {
      var first := nextId;
      var objs: seq<Car> := [];
      var free := true;
      var i := 0;
      while i < |xs|
        invariant 0 <= i <= |xs|
        invariant objs == NewRows(xs[..i], first)
        invariant free == IdsFree(rows, first, i)
      {
        objs := objs + [NewRow(xs[i], first + i)];
        free := free && Get(rows, first + i).None?;
        i := i + 1;
      }
      assert xs[..|xs|] == xs;
      nextId := first + |xs|;
      if free {
        AppendFreshKeepsUnique(rows, xs, first);
        rows := rows + objs;
        r := Ok(CreateMultiMessage);
      } else {
        r := Err(StoreRejected);
      }
    }

    /**
     * `update`: assigns, column by column, the payload value of every
     * column that is a key of the payload, then commits; it answers with
     * the encoded record.
     */
    method Update(id: int, patch: map<string, Value>) returns (r: Result<Car, WriteError>)
      requires Valid() && Get(rows, id).Some?
      modifies this
      ensures Valid() && nextId == old(nextId)
      ensures r == CommitUpdate(old(rows), id, Assign(Get(old(rows), id).value, patch))
      ensures rows == if r.Ok? then ReplaceRow(old(rows), id, r.value) else old(rows)
    {
      var row := Get(rows, id).value;
      var fields := [Id, Model, Year];
      var d := DraftOf(row);
      var i := 0;
      while i < |fields|
        invariant 0 <= i <= |fields|
        invariant forall k :: 0 <= k < |fields| ==>
          DraftAttr(d, fields[k]) == if k < i && ColumnName(fields[k]) in patch then patch[ColumnName(fields[k])] else Attr(row, fields[k])
      {
        var name := ColumnName(fields[i]);
        if name in patch {
          d := SetAttr(d, fields[i], patch[name]);
        }
        i := i + 1;
      }
      assert d == Assign(row, patch) by {
        assert fields[0] == Id && fields[1] == Model && fields[2] == Year;
        assert DraftAttr(d, Id) == DraftAttr(Assign(row, patch), Id);
        assert DraftAttr(d, Model) == DraftAttr(Assign(row, patch), Model);
        assert DraftAttr(d, Year) == DraftAttr(Assign(row, patch), Year);
      }
      r := CommitUpdate(rows, id, d);
      if r.Ok? {
        CommitUpdateKeepsUnique(rows, id, d);
        rows := ReplaceRow(rows, id, r.value);
      }
    }

    /**
     * `update_multi`: for each input in turn, looks the key value up, and
     * when some row has it, writes the whole payload to every such row,
     * commits and refreshes the object the first match was loaded into. The
     * answer wraps those objects in a one-element list, each read in the
     * final state of its row; an exception leaves the commits before it in
     * place.
     */
    method UpdateMulti(objs: seq<map<string, Value>>, key: string) returns (r: Result<seq<seq<Car>>, WriteError>)
      requires Valid()
      modifies this
      ensures Valid() && nextId == old(nextId)
      ensures rows == RunUpdates(old(rows), objs, key).rows
      ensures r == Answer(RunUpdates(old(rows), objs, key))
    {
      var updated: seq<int> := [];
      var i := 0;
      while i < |objs|
        invariant 0 <= i <= |objs|
        invariant Valid() && nextId == old(nextId)
        invariant RunUpdates(old(rows), objs, key) == After(updated, RunUpdates(rows, objs[i..], key))
      {
        RunUpdatesAdvance(rows, objs, i, key, updated);
        var step := UpdateOne(rows, objs[i], key);
        if step.Err? {
          r := Err(step.error);
          return;
        }
        var (rows', found) := step.value;
        if RefreshFails(rows', found) {
          rows := rows';
          r := Err(RefreshFailed(found.value));
          return;
        }
        rows := rows';
        updated := updated + Listed(found);
        i := i + 1;
      }
      assert objs[i..] == [];
      assert updated + [] == updated;
      r := Answer(Batch(rows, updated, None));
    }

    /**
     * `remove`: deletes the row with primary key `id` and returns it. The
     * caller has checked that the row exists (the get-then-delete guard of
     * the endpoint).
     */
    method Remove(id: int) returns (r: Car)
      requires Valid() && Get(rows, id).Some?
      modifies this
      ensures Valid() && nextId == old(nextId)
      ensures r == Get(old(rows), id).value
      ensures rows == Without(old(rows), id)
    {
      r := Get(rows, id).value;
      WithoutKeepsUnique(rows, id);
      rows := Without(rows, id);
    }
  }
}
