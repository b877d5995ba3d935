/** Database tables with auto-increment primary keys, as the ORM sees them. */
module Tables {

  /** A primary key. Keys are handed out from 1 upwards and never reused. */
  type Id = int

  /** The rows of a table by key, and the key the next insert will receive. */
  datatype Table<T> = Table(rows: map<Id, T>, nextId: Id) {

    /** Every key was handed out earlier: it lies in [1, nextId). */
    predicate Valid() {
      && 1 <= nextId
      && forall id :: id in rows ==> 1 <= id < nextId
    }
  }

  type Tbl<T> = t: Table<T> | t.Valid() witness Table(map[], 1)

  /** `Model::create`: insert a row under the next auto-increment key. */
  function Insert<T>(t: Tbl<T>, v: T): (r: (Tbl<T>, Id))
    ensures r.1 == t.nextId
    ensures r.1 !in t.rows && r.1 != 0
    ensures r.0.rows == t.rows[r.1 := v]
  {
    (Table(t.rows[t.nextId := v], t.nextId + 1), t.nextId)
  }

  /** `$model->save()` on a row that exists. */
  function Save<T>(t: Tbl<T>, id: Id, v: T): (r: Tbl<T>)
    requires id in t.rows
    ensures r.rows == t.rows[id := v]
    ensures r.rows.Keys == t.rows.Keys
  {
    Table(t.rows[id := v], t.nextId)
  }

  /** `$model->delete()`. */
  function Remove<T>(t: Tbl<T>, id: Id): (r: Tbl<T>)
    ensures r.rows == t.rows - {id}
  {
    Table(t.rows - {id}, t.nextId)
  }
}
