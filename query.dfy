/**
 * Catalog queries (`get_tracks`): an optional search filter, an ORDER BY clause
 * that is emitted only for an allow-listed column, and LIMIT/OFFSET paging, all
 * with SQLite's meaning. The query is a pure function of the table.
 */
module Query {
  import opened Wrappers
  import opened Text
  import opened Tracks

  datatype Column = Id | Filename | Artist | Album | Duration
  datatype Direction = Asc | Desc

  const ValidColumns: seq<string> := ["id", "filename", "artist", "album", "duration"]

  function ColumnName(c: Column): string {
    match c
    case Id => "id"
    case Filename => "filename"
    case Artist => "artist"
    case Album => "album"
    case Duration => "duration"
  }

  /**
   * The column an `order_by` text names. Only the exact names of the allow-list
   * are accepted; any other text, whatever it holds, yields no column.
   */
  function ParseColumn(orderBy: string): (c: Option<Column>)
    ensures c.Some? <==> orderBy in ValidColumns
    ensures c.Some? ==> ColumnName(c.value) == orderBy
  {
    if orderBy == "id" then Some(Id)
    else if orderBy == "filename" then Some(Filename)
    else if orderBy == "artist" then Some(Artist)
    else if orderBy == "album" then Some(Album)
    else if orderBy == "duration" then Some(Duration)
    else None
  }

  lemma ParseColumnName(c: Column)
    ensures ParseColumn(ColumnName(c)) == Some(c)
  {
  }

  /** `LIKE '%term%'`: `term` occurs in `field` when both are lower-cased in ASCII. */
  predicate Like(field: string, term: string) {
    Contains(Lower(field), Lower(term))
  }

  /** The WHERE clause of a search: the term occurs in the filename, the artist or the album. */
  predicate Matches(t: Track, term: string) {
    Like(t.filename, term) || Like(t.artist, term) || Like(t.album, term)
  }

  /** The rows of `rows` that match `term`, in table order. */
  function Matching(rows: seq<Track>, term: string): seq<Track>
    decreases |rows|
  {
    if rows == [] then []
    else
      var last := rows[|rows| - 1];
      Matching(rows[..|rows| - 1], term) + (if Matches(last, term) then [last] else [])
  }

  /** The search is applied only for a present, non-empty term (Python's truthiness). */
  function Filtered(rows: seq<Track>, search: Option<string>): seq<Track> {
    if search.Some? && search.value != [] then Matching(rows, search.value) else rows
  }

  /** `Matching` keeps exactly the matching rows, each as often as it occurs in the table. */
  lemma {:induction false} MatchingSpec(rows: seq<Track>, term: string)
    ensures forall t :: multiset(Matching(rows, term))[t] == if Matches(t, term) then multiset(rows)[t] else 0
    decreases |rows|
  {
    if rows != [] {
      var init := rows[..|rows| - 1];
      MatchingSpec(init, term);
      assert rows == init + [rows[|rows| - 1]];
    }
  }

  lemma MatchingMembers(rows: seq<Track>, term: string)
    ensures forall t :: t in Matching(rows, term) <==> t in rows && Matches(t, term)
  {
    MatchingSpec(rows, term);
    forall t ensures t in Matching(rows, term) <==> t in rows && Matches(t, term) {
      assert t in Matching(rows, term) <==> multiset(Matching(rows, term))[t] > 0;
      assert t in rows <==> multiset(rows)[t] > 0;
    }
  }

  /** ORDER BY `c` in direction `d`: `a` may precede `b`. */
  predicate Before(c: Column, d: Direction, a: Track, b: Track) {
    var (x, y) := if d == Asc then (a, b) else (b, a);
    match c
    case Id => x.id <= y.id
    case Filename => LexLeq(x.filename, y.filename)
    case Artist => LexLeq(x.artist, y.artist)
    case Album => LexLeq(x.album, y.album)
    case Duration => x.duration <= y.duration
  }

  lemma BeforeTotal(c: Column, d: Direction, a: Track, b: Track)
    ensures Before(c, d, a, b) || Before(c, d, b, a)
  {
    match c
    case Filename => LexLeqTotal(a.filename, b.filename);
    case Artist => LexLeqTotal(a.artist, b.artist);
    case Album => LexLeqTotal(a.album, b.album);
    case _ =>
  }

  lemma BeforeTransitive(c: Column, d: Direction, a: Track, b: Track, e: Track)
    requires Before(c, d, a, b) && Before(c, d, b, e)
    ensures Before(c, d, a, e)
  {
    match (c, d)
    case (Filename, Asc) => LexLeqTransitive(a.filename, b.filename, e.filename);
    case (Filename, Desc) => LexLeqTransitive(e.filename, b.filename, a.filename);
    case (Artist, Asc) => LexLeqTransitive(a.artist, b.artist, e.artist);
    case (Artist, Desc) => LexLeqTransitive(e.artist, b.artist, a.artist);
    case (Album, Asc) => LexLeqTransitive(a.album, b.album, e.album);
    case (Album, Desc) => LexLeqTransitive(e.album, b.album, a.album);
    case _ =>
  }

  ghost predicate Sorted(c: Column, d: Direction, s: seq<Track>) {
    forall i, j :: 0 <= i < j < |s| ==> Before(c, d, s[i], s[j])
  }

  /** Places `x` in front of the first row it may precede. */
  function Insert(c: Column, d: Direction, x: Track, s: seq<Track>): seq<Track>
    decreases |s|
  {
    if s == [] || Before(c, d, x, s[0]) then [x] + s
    else [s[0]] + Insert(c, d, x, s[1..])
  }

  function SortBy(c: Column, d: Direction, s: seq<Track>): seq<Track>
    decreases |s|
  {
    if s == [] then [] else Insert(c, d, s[0], SortBy(c, d, s[1..]))
  }

  lemma {:induction false} InsertPermutes(c: Column, d: Direction, x: Track, s: seq<Track>)
    ensures multiset(Insert(c, d, x, s)) == multiset(s) + multiset{x}
    decreases |s|
  {
    if s != [] && !Before(c, d, x, s[0]) {
      InsertPermutes(c, d, x, s[1..]);
      assert s == [s[0]] + s[1..];
    }
  }

  /** A row that may precede every row of a sorted sequence can be put in front of it. */
  lemma SortedCons(c: Column, d: Direction, x: Track, s: seq<Track>)
    requires Sorted(c, d, s)
    requires forall k :: 0 <= k < |s| ==> Before(c, d, x, s[k])
    ensures Sorted(c, d, [x] + s)
  {
    var r := [x] + s;
    forall i, j | 0 <= i < j < |r| ensures Before(c, d, r[i], r[j]) {
      if i == 0 {
        assert r[j] == s[j - 1];
      } else {
        assert r[i] == s[i - 1] && r[j] == s[j - 1];
      }
    }
  }

  lemma {:induction false} InsertSorted(c: Column, d: Direction, x: Track, s: seq<Track>)
    requires Sorted(c, d, s)
    ensures Sorted(c, d, Insert(c, d, x, s))
    decreases |s|
  {
    if s == [] || Before(c, d, x, s[0]) {
      forall k | 0 <= k < |s| ensures Before(c, d, x, s[k]) {
        if k > 0 {
          BeforeTransitive(c, d, x, s[0], s[k]);
        }
      }
      SortedCons(c, d, x, s);
    } else {
      var rest := Insert(c, d, x, s[1..]);
      InsertSorted(c, d, x, s[1..]);
      InsertPermutes(c, d, x, s[1..]);
      BeforeTotal(c, d, x, s[0]);
      forall k | 0 <= k < |rest| ensures Before(c, d, s[0], rest[k]) {
        var y := rest[k];
        assert y in multiset(rest);
        if y != x {
          assert y in multiset(s[1..]);
          var m :| 0 <= m < |s[1..]| && s[1..][m] == y;
          assert s[m + 1] == y;
        }
      }
      SortedCons(c, d, s[0], rest);
    }
  }

  /** Ordering by a column returns the same rows, sorted by that column in the requested direction. */
  lemma {:induction false} SortBySpec(c: Column, d: Direction, s: seq<Track>)
    ensures multiset(SortBy(c, d, s)) == multiset(s)
    ensures Sorted(c, d, SortBy(c, d, s))
    decreases |s|
  {
    if s != [] {
      SortBySpec(c, d, s[1..]);
      InsertPermutes(c, d, s[0], SortBy(c, d, s[1..]));
      InsertSorted(c, d, s[0], SortBy(c, d, s[1..]));
      assert s == [s[0]] + s[1..];
    }
  }

  /** The rows in query order: sorted when `orderBy` names an allow-listed column, as stored otherwise. */
  function Ordered(rows: seq<Track>, orderBy: string, sort: Direction): seq<Track> {
    match ParseColumn(orderBy)
    case Some(c) => SortBy(c, sort, rows)
    case None => rows
  }

  /** Where OFFSET starts reading: a negative offset counts as 0. */
  function PageStart(n: nat, offset: int): (start: nat)
    ensures start <= n
  {
    if offset <= 0 then 0 else if offset < n then offset else n
  }

  /**
   * `LIMIT limit OFFSET offset`: at most `limit` rows (no bound when `limit` is
   * negative), starting at the offset.
   */
  function Page(s: seq<Track>, limit: int, offset: int): (r: seq<Track>)
    ensures limit >= 0 ==> |r| <= limit
    ensures PageStart(|s|, offset) + |r| <= |s|
    ensures r == s[PageStart(|s|, offset)..PageStart(|s|, offset) + |r|]
    ensures |r| == |s| - PageStart(|s|, offset) || |r| == limit
  {
    var rest := s[PageStart(|s|, offset)..];
    if 0 <= limit < |rest| then rest[..limit] else rest
  }

  /** `get_tracks` with its default arguments. */
  function GetTracks(rows: seq<Track>, limit: int := 50, offset: int := 0, search: Option<string> := None,
                     orderBy: string := "filename", sort: Direction := Asc): seq<Track>
  {
    Page(Ordered(Filtered(rows, search), orderBy, sort), limit, offset)
  }

  /** The filtered and ordered rows hold the same rows as the filter alone. */
  lemma OrderedSameRows(rows: seq<Track>, orderBy: string, sort: Direction)
    ensures multiset(Ordered(rows, orderBy, sort)) == multiset(rows)
  {
    if ParseColumn(orderBy).Some? {
      SortBySpec(ParseColumn(orderBy).value, sort, rows);
    }
  }

  /**
   * At most `limit` rows are returned, and each one is a row of the table; with
   * a non-empty search term each returned row contains the term in its
   * filename, artist or album.
   */
  lemma GetTracksSound(rows: seq<Track>, limit: int, offset: int, search: Option<string>, orderBy: string, sort: Direction)
    ensures limit >= 0 ==> |GetTracks(rows, limit, offset, search, orderBy, sort)| <= limit
    ensures forall t :: t in GetTracks(rows, limit, offset, search, orderBy, sort) ==>
      t in rows && (search.Some? && search.value != [] ==> Matches(t, search.value))
  {
    var filtered := Filtered(rows, search);
    var ordered := Ordered(filtered, orderBy, sort);
    var r := GetTracks(rows, limit, offset, search, orderBy, sort);
    OrderedSameRows(filtered, orderBy, sort);
    if search.Some? && search.value != [] {
      MatchingMembers(rows, search.value);
    }
    forall t | t in r ensures t in filtered {
      var start := PageStart(|ordered|, offset);
      var k :| 0 <= k < |r| && r[k] == t;
      assert t == ordered[start + k];
      assert t in multiset(ordered);
    }
  }

  /**
   * When the page starts at the first row and the limit leaves room for every
   * match (or is negative), the query returns every row that matches the
   * search, each as often as the table holds it, and no other.
   */
  lemma GetTracksComplete(rows: seq<Track>, limit: int, offset: int, search: Option<string>, orderBy: string, sort: Direction)
    requires offset <= 0 && (limit < 0 || |Filtered(rows, search)| <= limit)
    ensures forall t :: multiset(GetTracks(rows, limit, offset, search, orderBy, sort))[t] ==
                        if search.None? || search.value == [] || Matches(t, search.value) then multiset(rows)[t] else 0
  {
    var filtered := Filtered(rows, search);
    OrderedSameRows(filtered, orderBy, sort);
    var ordered := Ordered(filtered, orderBy, sort);
    assert |ordered| == |filtered| by {
      assert |ordered| == |multiset(ordered)| && |filtered| == |multiset(filtered)|;
    }
    assert GetTracks(rows, limit, offset, search, orderBy, sort) == ordered[0..|ordered|];
    assert ordered[0..|ordered|] == ordered;
    if search.Some? && search.value != [] {
      MatchingSpec(rows, search.value);
    }
  }

  /**
   * An `order_by` outside the allow-list is ignored: the direction makes no
   * difference and the rows come in table order, filtered and paged.
   */
  lemma GetTracksUnlistedColumn(rows: seq<Track>, limit: int, offset: int, search: Option<string>, orderBy: string, sort: Direction)
    requires orderBy !in ValidColumns
    ensures GetTracks(rows, limit, offset, search, orderBy, sort) == Page(Filtered(rows, search), limit, offset)
    ensures GetTracks(rows, limit, offset, search, orderBy, Asc) == GetTracks(rows, limit, offset, search, orderBy, Desc)
  {
  }

  /**
   * An allow-listed `order_by` yields a page of the filtered rows sorted by that
   * column in the requested direction.
   */
  lemma GetTracksSorted(rows: seq<Track>, limit: int, offset: int, search: Option<string>, orderBy: string, sort: Direction)
    requires orderBy in ValidColumns
    ensures Sorted(ParseColumn(orderBy).value, sort, GetTracks(rows, limit, offset, search, orderBy, sort))
  {
    var c := ParseColumn(orderBy).value;
    var ordered := SortBy(c, sort, Filtered(rows, search));
    SortBySpec(c, sort, Filtered(rows, search));
    assert GetTracks(rows, limit, offset, search, orderBy, sort) == Page(ordered, limit, offset);
    var r := Page(ordered, limit, offset);
    var start := PageStart(|ordered|, offset);
    SortedSlice(c, sort, ordered, start, start + |r|);
  }

  /** Every stretch of a sorted sequence is sorted. */
  lemma SortedSlice(c: Column, d: Direction, s: seq<Track>, lo: int, hi: int)
    requires Sorted(c, d, s) && 0 <= lo <= hi <= |s|
    ensures Sorted(c, d, s[lo..hi])
  {
    forall i, j | 0 <= i < j < hi - lo ensures Before(c, d, s[lo..hi][i], s[lo..hi][j]) {
      assert s[lo..hi][i] == s[lo + i] && s[lo..hi][j] == s[lo + j];
    }
  }
}
