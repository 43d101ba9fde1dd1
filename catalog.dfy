/** Facts that tie ingestion and queries together. */
module Catalog {
  import opened Wrappers
  import opened Tracks
  import opened Scanner
  import opened Query

  /** A search for a term no row contains finds nothing. */
  lemma {:induction false} MatchingNone(rows: seq<Track>, term: string)
    requires forall k :: 0 <= k < |rows| ==> !Matches(rows[k], term)
    ensures Matching(rows, term) == []
  {
    var m := Matching(rows, term);
    MatchingSpec(rows, term);
    forall t ensures multiset(m)[t] == 0 {
      if t in rows {
        var k :| 0 <= k < |rows| && rows[k] == t;
      }
    }
    assert multiset(m) == multiset{};
    assert |m| == |multiset(m)|;
  }

  /**
   * A file stored by a scan (its metadata lists no 'length' value) is found
   * again by a search for a term in its name: when no earlier row matches the
   * term, a default query returns exactly the new row, with the fields read
   * from the file.
   */
  lemma {:induction false} ScanThenSearch(rows: seq<Track>, e: WalkEntry, extract: Extractor, term: string)
    requires IsSupported(e.name) && !HasPath(rows, EntryPath(e))
    requires ExtractFields(extract(EntryPath(e))).lengthTag.None?
    requires term != [] && Like(e.name, term)
    requires forall k :: 0 <= k < |rows| ==> !Matches(rows[k], term)
    ensures GetTracks(Scanned(rows, [e], extract).rows, search := Some(term))
         == [NewRow(rows, EntryPath(e), e.name, ExtractFields(extract(EntryPath(e))))]
  {
    var x := NewRow(rows, EntryPath(e), e.name, ExtractFields(extract(EntryPath(e))));
    var after := rows + [x];
    ScanOneNew(rows, e, extract);
    MatchingNone(rows, term);
    assert after[..|after| - 1] == rows;
    assert Matching(after, term) == [x];
    assert SortBy(Filename, Asc, [x]) == [x];
  }
}
