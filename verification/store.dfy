/** The `books` table as an in-memory store: the rows in insertion order plus
    the id the next insert receives. With no deletes, SQLite's rowid for an
    `INTEGER PRIMARY KEY` is one more than the largest id so far, which a
    counter starting at 1 reproduces. */
module Store {
  import opened Wrappers
  import opened Text
  import opened Genres
  import opened Books

  datatype Store = Store(rows: seq<Row>, nextId: nat)

  /** The freshly created, empty table. */
  const Empty: Store := Store([], 1)

  function Ids(rows: seq<Row>): set<nat> {
    set i | 0 <= i < |rows| :: rows[i].id
  }

  predicate UniqueIds(rows: seq<Row>) {
    forall i, j :: 0 <= i < j < |rows| ==> rows[i].id != rows[j].id
  }

  /** The primary-key invariant: ids are positive, distinct and below the
      next id to hand out. */
  predicate Valid(st: Store) {
    && 0 < st.nextId
    && UniqueIds(st.rows)
    && forall i :: 0 <= i < |st.rows| ==> 0 < st.rows[i].id < st.nextId
  }

  /** A committed table: valid, and every row has had its photo set. */
  predicate Committed(st: Store) {
    && Valid(st)
    && forall i :: 0 <= i < |st.rows| ==> st.rows[i].photo.Some?
  }

  lemma EmptyCommitted()
    ensures Committed(Empty)
  {
  }

  /** Inserting a row (`db.add` + `flush`): the store picks an id no existing
      row has, and the new row's photo is still null. Returns the store and
      the id. */
  function Insert(st: Store, name: String, author: String, genre: Genre, price: real): (r: (Store, nat))
    requires Valid(st)
    ensures Valid(r.0)
    ensures 0 < r.1 && r.1 !in Ids(st.rows)
    ensures r.0.rows == st.rows + [Row(r.1, name, author, genre, None, price)]
    ensures st.nextId <= r.0.nextId
  {
    (Store(st.rows + [Row(st.nextId, name, author, genre, None, price)], st.nextId + 1), st.nextId)
  }

  /** Setting the photo of the row with a given id in a list of rows. */
  function SetPhotoRows(rows: seq<Row>, id: nat, path: String): (r: seq<Row>)
    ensures |r| == |rows|
    ensures forall i :: 0 <= i < |rows| ==> r[i].(photo := rows[i].photo) == rows[i]
    ensures forall i :: 0 <= i < |rows| && rows[i].id != id ==> r[i] == rows[i]
    ensures forall i :: 0 <= i < |rows| && rows[i].id == id ==> r[i].photo == Some(path)
    decreases |rows|
  {
    if rows == [] then []
    else
      var head := if rows[0].id == id then rows[0].(photo := Some(path)) else rows[0];
      [head] + SetPhotoRows(rows[1..], id, path)
  }

  /** Assigning `photo` on a row object (written out at commit): only that
      row's photo changes. */
  function SetPhoto(st: Store, id: nat, path: String): (r: Store)
    requires Valid(st)
    ensures Valid(r)
    ensures r.nextId == st.nextId && |r.rows| == |st.rows|
    ensures forall i :: 0 <= i < |st.rows| && st.rows[i].id != id ==> r.rows[i] == st.rows[i]
    ensures forall i :: 0 <= i < |st.rows| && st.rows[i].id == id ==>
              r.rows[i] == st.rows[i].(photo := Some(path))
  {
    Store(SetPhotoRows(st.rows, id, path), st.nextId)
  }

  /** Dropping a prefix keeps the ids distinct. */
  lemma UniqueIdsSuffix(rows: seq<Row>, n: nat)
    requires UniqueIds(rows) && n <= |rows|
    ensures UniqueIds(rows[n..])
  {
    forall i, j | 0 <= i < j < |rows| - n
      ensures rows[n..][i].id != rows[n..][j].id
    {
      assert rows[n..][i] == rows[n + i] && rows[n..][j] == rows[n + j];
    }
  }

  /** Every row appended after a valid prefix has an id that no row of the
      prefix has. */
  lemma FreshAfterPrefix(st: Store, n: nat)
    requires Valid(st) && n <= |st.rows|
    ensures forall k :: n <= k < |st.rows| ==> st.rows[k].id !in Ids(st.rows[..n])
  {
  }
}
