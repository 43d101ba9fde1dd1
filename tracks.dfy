/**
 * One row of the `tracks` table (id, path, filename, artist, album, duration) and
 * the table-level facts the schema guarantees: `path` is UNIQUE and `id` is the
 * INTEGER PRIMARY KEY, assigned by SQLite when a row is inserted without one.
 */
module Tracks {

  datatype Track = Track(id: int, path: string, filename: string, artist: string, album: string, duration: real)

  /** Some row of `rows` is stored under `path` (the `SELECT id FROM tracks WHERE path = ?` probe). */
  predicate HasPath(rows: seq<Track>, path: string) {
    exists i :: 0 <= i < |rows| && rows[i].path == path
  }

  ghost predicate PathsUnique(rows: seq<Track>) {
    forall i, j :: 0 <= i < j < |rows| ==> rows[i].path != rows[j].path
  }

  ghost predicate IdsUnique(rows: seq<Track>) {
    forall i, j :: 0 <= i < j < |rows| ==> rows[i].id != rows[j].id
  }

  /** What the schema guarantees of every state of the table. */
  ghost predicate TableValid(rows: seq<Track>) {
    PathsUnique(rows) && IdsUnique(rows) && forall i :: 0 <= i < |rows| ==> rows[i].id >= 1
  }

  /** The largest id in the table, 0 for an empty table. */
  function MaxId(rows: seq<Track>): (m: int)
    ensures m >= 0
    ensures forall i :: 0 <= i < |rows| ==> rows[i].id <= m
    ensures m == 0 || exists i :: 0 <= i < |rows| && rows[i].id == m
  {
    if rows == [] then 0
    else
      var m := MaxId(rows[..|rows| - 1]);
      var last := rows[|rows| - 1].id;
      if last > m then last else m
  }

  /**
   * The id SQLite gives a row inserted without one: one more than the largest
   * id in the table, or 1 when the table is empty.
   */
  function NextId(rows: seq<Track>): (id: int)
    ensures id >= 1
    ensures forall i :: 0 <= i < |rows| ==> rows[i].id < id
  {
    MaxId(rows) + 1
  }

  /** Appending a row under a fresh path with the next id keeps the table valid. */
  lemma InsertKeepsValid(rows: seq<Track>, t: Track)
    requires TableValid(rows)
    requires !HasPath(rows, t.path) && t.id == NextId(rows)
    ensures TableValid(rows + [t])
  {
    var rows' := rows + [t];
    forall i, j | 0 <= i < j < |rows'| ensures rows'[i].path != rows'[j].path && rows'[i].id != rows'[j].id {
      if j == |rows| {
        assert rows'[i] == rows[i];
      }
    }
  }
}
