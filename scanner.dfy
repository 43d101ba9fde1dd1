/**
 * Library ingestion (`scan_music_library`): every file of the directory walk
 * whose lower-cased name ends in a supported extension is looked up by its full
 * path; a path already stored is skipped, any other gets a new row whose
 * artist and album come from the metadata reader, or the defaults when reading
 * fails. The duration is the list the reader lists under 'length', or 0 when
 * there is none; a list cannot be stored, and the insert that rejects it ends
 * the whole scan.
 *
 * `Scanned` is the specification of the whole scan; the loop that performs it
 * is `Player.ShellMusicPlayer.ScanMusicLibrary`.
 */
module Scanner {
  import opened Wrappers
  import opened Text
  import opened Tracks

  /** One file reported by the directory walk: the directory it lives in and its name. */
  datatype WalkEntry = WalkEntry(root: string, name: string)

  const SupportedFormats: seq<string> := [".mp3", ".wav", ".flac", ".ogg", ".m4a"]

  const UnknownArtist: string := "Unknown Artist"
  const UnknownAlbum: string := "Unknown Album"

  /**
   * What the metadata reader (mutagen in easy mode) returns for a readable
   * file: its tag lists by key. The reader itself is a parameter of the scan;
   * it answers `None` when it raises or recognises no audio format.
   */
  datatype Metadata = Metadata(tags: map<string, seq<string>>)

  type Extractor = string -> Option<Metadata>

  /**
   * What the metadata step leaves for the insert: the artist, the album, and
   * the list found under the 'length' key, if any. Without such a list the
   * duration is the number 0; with one, the duration is that list itself.
   */
  datatype Fields = Fields(artist: string, album: string, lengthTag: Option<seq<string>>)

  const DefaultFields: Fields := Fields(UnknownArtist, UnknownAlbum, None)

  predicate IsSupported(name: string) {
    exists k :: 0 <= k < |SupportedFormats| && EndsWith(Lower(name), SupportedFormats[k])
  }

  /** POSIX path joining: an absolute `name` replaces `root`; a separator is added only when missing. */
  function JoinPath(root: string, name: string): (p: string)
    ensures EndsWith(p, name)
    ensures name != [] && name[0] != '/' ==> p[..|p| - |name|] == (if root == [] || root[|root| - 1] == '/' then root else root + "/")
  {
    if name != [] && name[0] == '/' then name
    else if root == [] || root[|root| - 1] == '/' then root + name
    else root + "/" + name
  }

  function EntryPath(e: WalkEntry): string {
    JoinPath(e.root, e.name)
  }

  /**
   * The first value listed under `key`, or `default` when the key is absent;
   * `None` when the key is present with an empty list (indexing it raises).
   */
  function FirstTag(m: Metadata, key: string, default: string): (r: Option<string>)
    ensures r.None? <==> key in m.tags && m.tags[key] == []
    ensures r.Some? ==> r.value == (if key in m.tags then m.tags[key][0] else default)
  {
    if key !in m.tags then Some(default)
    else if m.tags[key] == [] then None
    else Some(m.tags[key][0])
  }

  /**
   * The fields read for a file: the reader's values when the artist and album
   * lookups succeed, and the defaults (with no 'length' list) when the reader
   * failed or a lookup raised.
   */
  function ExtractFields(md: Option<Metadata>): (f: Fields)
    ensures md.None? ==> f == DefaultFields
    ensures md.Some? && (FirstTag(md.value, "artist", UnknownArtist).None? || FirstTag(md.value, "album", UnknownAlbum).None?) ==> f == DefaultFields
    ensures md.Some? && FirstTag(md.value, "artist", UnknownArtist).Some? && FirstTag(md.value, "album", UnknownAlbum).Some? ==>
      && f.artist == (if "artist" in md.value.tags then md.value.tags["artist"][0] else UnknownArtist)
      && f.album == (if "album" in md.value.tags then md.value.tags["album"][0] else UnknownAlbum)
      && f.lengthTag == (if "length" in md.value.tags then Some(md.value.tags["length"]) else None)
  {
    match md
    case None => DefaultFields
    case Some(m) =>
      match (FirstTag(m, "artist", UnknownArtist), FirstTag(m, "album", UnknownAlbum))
      case (Some(artist), Some(album)) =>
        Fields(artist, album, if "length" in m.tags then Some(m.tags["length"]) else None)
      case _ => DefaultFields
  }

  /**
   * The row a scan inserts for a new file. Only a file without a 'length' list
   * gets one, so its duration is always 0.
   */
  function NewRow(rows: seq<Track>, path: string, name: string, f: Fields): Track {
    Track(NextId(rows), path, name, f.artist, f.album, 0.0)
  }

  /**
   * A scan in progress: the table so far and, once an insert has been
   * rejected, the path of that file. The insert binds the duration outside the
   * exception handler, so a 'length' list ends the whole scan there.
   */
  datatype Scan = Scan(rows: seq<Track>, failedAt: Option<string>)

  /** One iteration of the scan over one walk entry. */
  function ScanStep(s: Scan, e: WalkEntry, extract: Extractor): Scan {
    if s.failedAt.Some? || !IsSupported(e.name) then s
    else
      var path := EntryPath(e);
      if HasPath(s.rows, path) then s
      else
        var f := ExtractFields(extract(path));
        if f.lengthTag.Some? then Scan(s.rows, Some(path))
        else Scan(s.rows + [NewRow(s.rows, path, e.name, f)], None)
  }

  /** The scan of the walk entries in order, starting from the table `rows`. */
  function Scanned(rows: seq<Track>, walk: seq<WalkEntry>, extract: Extractor): Scan
    decreases |walk|
  {
    if walk == [] then Scan(rows, None)
    else ScanStep(Scanned(rows, walk[..|walk| - 1], extract), walk[|walk| - 1], extract)
  }

  /** The rows present before a scan are still there, unchanged and in the same places. */
  lemma {:induction false} ScannedExtends(rows: seq<Track>, walk: seq<WalkEntry>, extract: Extractor)
    ensures |Scanned(rows, walk, extract).rows| >= |rows|
    ensures Scanned(rows, walk, extract).rows[..|rows|] == rows
    decreases |walk|
  {
    if walk != [] {
      var before := Scanned(rows, walk[..|walk| - 1], extract).rows;
      ScannedExtends(rows, walk[..|walk| - 1], extract);
      assert Scanned(rows, walk, extract).rows[..|before|] == before;
    }
  }

  /** A scan inserts at most one row per walk entry. */
  lemma {:induction false} ScannedGrowth(rows: seq<Track>, walk: seq<WalkEntry>, extract: Extractor)
    ensures |rows| <= |Scanned(rows, walk, extract).rows| <= |rows| + |walk|
    decreases |walk|
  {
    if walk != [] {
      ScannedGrowth(rows, walk[..|walk| - 1], extract);
    }
  }

  /** The table invariant (unique paths, unique positive ids) survives a scan. */
  lemma {:induction false} ScannedKeepsValid(rows: seq<Track>, walk: seq<WalkEntry>, extract: Extractor)
    requires TableValid(rows)
    ensures TableValid(Scanned(rows, walk, extract).rows)
    decreases |walk|
  {
    if walk != [] {
      var before := Scanned(rows, walk[..|walk| - 1], extract);
      ScannedKeepsValid(rows, walk[..|walk| - 1], extract);
      var e := walk[|walk| - 1];
      var path := EntryPath(e);
      if before.failedAt.None? && IsSupported(e.name) && !HasPath(before.rows, path) {
        InsertKeepsValid(before.rows, NewRow(before.rows, path, e.name, ExtractFields(extract(path))));
      }
    }
  }

  /** A step of the scan keeps every stored path. */
  lemma StepKeepsPath(s: Scan, e: WalkEntry, extract: Extractor, path: string)
    requires HasPath(s.rows, path)
    ensures HasPath(ScanStep(s, e, extract).rows, path)
  {
    var i :| 0 <= i < |s.rows| && s.rows[i].path == path;
    assert ScanStep(s, e, extract).rows[i] == s.rows[i];
  }

  /** A step taken after a rejected insert changes nothing. */
  lemma StepFailureStays(s: Scan, e: WalkEntry, extract: Extractor)
    ensures s.failedAt.Some? ==> ScanStep(s, e, extract) == s
  {
  }

  /** A step that rejects no insert leaves a supported file stored under its full path. */
  lemma StepStores(s: Scan, e: WalkEntry, extract: Extractor)
    requires IsSupported(e.name) && ScanStep(s, e, extract).failedAt.None?
    ensures HasPath(ScanStep(s, e, extract).rows, EntryPath(e))
  {
    if HasPath(s.rows, EntryPath(e)) {
      StepKeepsPath(s, e, extract, EntryPath(e));
    } else {
      assert ScanStep(s, e, extract).rows[|s.rows|].path == EntryPath(e);
    }
  }

  /** A path stored before a scan is stored after it. */
  lemma ScannedKeepsPath(rows: seq<Track>, walk: seq<WalkEntry>, extract: Extractor, path: string)
    requires HasPath(rows, path)
    ensures HasPath(Scanned(rows, walk, extract).rows, path)
  {
    ScannedExtends(rows, walk, extract);
    var i :| 0 <= i < |rows| && rows[i].path == path;
    assert Scanned(rows, walk, extract).rows[i] == rows[i];
  }

  /** Once an insert has been rejected, the rest of the walk changes nothing. */
  lemma {:induction false} ScannedAfterFailure(rows: seq<Track>, walk: seq<WalkEntry>, rest: seq<WalkEntry>, extract: Extractor)
    requires Scanned(rows, walk, extract).failedAt.Some?
    ensures Scanned(rows, walk + rest, extract) == Scanned(rows, walk, extract)
    decreases |rest|
  {
    if rest == [] {
      assert walk + rest == walk;
    } else {
      var init := rest[..|rest| - 1];
      ScannedAfterFailure(rows, walk, init, extract);
      assert (walk + rest)[..|walk + rest| - 1] == walk + init;
    }
  }

  /** A scan whose first `k` entries end in a rejected insert ends there. */
  lemma ScannedStopsAt(rows: seq<Track>, walk: seq<WalkEntry>, k: nat, extract: Extractor)
    requires k <= |walk| && Scanned(rows, walk[..k], extract).failedAt.Some?
    ensures Scanned(rows, walk, extract) == Scanned(rows, walk[..k], extract)
  {
    ScannedAfterFailure(rows, walk[..k], walk[k..], extract);
    assert walk[..k] + walk[k..] == walk;
  }

  /** A scan that ends without a rejected insert has stored the supported file at position `k`. */
  lemma {:induction false} ScannedCoversOne(rows: seq<Track>, walk: seq<WalkEntry>, extract: Extractor, k: int)
    requires 0 <= k < |walk| && IsSupported(walk[k].name)
    requires Scanned(rows, walk, extract).failedAt.None?
    ensures HasPath(Scanned(rows, walk, extract).rows, EntryPath(walk[k]))
    decreases |walk|
  {
    var prefix := walk[..|walk| - 1];
    var before := Scanned(rows, prefix, extract);
    var e := walk[|walk| - 1];
    assert Scanned(rows, walk, extract) == ScanStep(before, e, extract);
    StepFailureStays(before, e, extract);
    if k < |walk| - 1 {
      assert prefix[k] == walk[k];
      ScannedCoversOne(rows, prefix, extract, k);
      StepKeepsPath(before, e, extract, EntryPath(walk[k]));
    } else {
      StepStores(before, e, extract);
    }
  }

  /**
   * A scan that ends without a rejected insert has stored every supported file
   * of the walk under its full path.
   */
  lemma ScannedCovers(rows: seq<Track>, walk: seq<WalkEntry>, extract: Extractor)
    ensures Scanned(rows, walk, extract).failedAt.None? ==>
      forall k :: 0 <= k < |walk| && IsSupported(walk[k].name) ==> HasPath(Scanned(rows, walk, extract).rows, EntryPath(walk[k]))
  {
    if Scanned(rows, walk, extract).failedAt.None? {
      forall k | 0 <= k < |walk| && IsSupported(walk[k].name)
        ensures HasPath(Scanned(rows, walk, extract).rows, EntryPath(walk[k]))
      {
        ScannedCoversOne(rows, walk, extract, k);
      }
    }
  }

  /**
   * A scan rejects an insert only for a supported file of the walk that was
   * not stored and whose metadata lists a 'length' value; that file is then
   * still not stored.
   */
  lemma {:induction false} ScannedFailure(rows: seq<Track>, walk: seq<WalkEntry>, extract: Extractor)
    ensures Scanned(rows, walk, extract).failedAt.Some? ==>
      var path := Scanned(rows, walk, extract).failedAt.value;
      && !HasPath(Scanned(rows, walk, extract).rows, path)
      && ExtractFields(extract(path)).lengthTag.Some?
      && exists k :: 0 <= k < |walk| && IsSupported(walk[k].name) && EntryPath(walk[k]) == path
    decreases |walk|
  {
    var after := Scanned(rows, walk, extract);
    if walk != [] && after.failedAt.Some? {
      var prefix := walk[..|walk| - 1];
      ScannedFailure(rows, prefix, extract);
      if Scanned(rows, prefix, extract).failedAt.Some? {
        var k :| 0 <= k < |prefix| && IsSupported(prefix[k].name) && EntryPath(prefix[k]) == after.failedAt.value;
        assert prefix[k] == walk[k];
      } else {
        assert EntryPath(walk[|walk| - 1]) == after.failedAt.value;
      }
    }
  }

  /** A scan over files that are all stored already (or unsupported) changes nothing. */
  lemma {:induction false} ScannedNothingNew(rows: seq<Track>, walk: seq<WalkEntry>, extract: Extractor)
    requires forall k :: 0 <= k < |walk| && IsSupported(walk[k].name) ==> HasPath(rows, EntryPath(walk[k]))
    ensures Scanned(rows, walk, extract) == Scan(rows, None)
    decreases |walk|
  {
    if walk != [] {
      var prefix := walk[..|walk| - 1];
      forall k | 0 <= k < |prefix| && IsSupported(prefix[k].name) ensures HasPath(rows, EntryPath(prefix[k])) {
        assert prefix[k] == walk[k];
      }
      ScannedNothingNew(rows, prefix, extract);
    }
  }

  /**
   * Scanning the walk again over a table `stored` that holds the first scan's
   * rows (and no more, if that scan was cut short) adds nothing and ends the
   * same way.
   */
  lemma {:induction false} Rescan(rows: seq<Track>, walk: seq<WalkEntry>, extract: Extractor, stored: seq<Track>)
    requires |Scanned(rows, walk, extract).rows| <= |stored|
    requires stored[..|Scanned(rows, walk, extract).rows|] == Scanned(rows, walk, extract).rows
    requires Scanned(rows, walk, extract).failedAt.Some? ==> stored == Scanned(rows, walk, extract).rows
    ensures Scanned(stored, walk, extract) == Scan(stored, Scanned(rows, walk, extract).failedAt)
    decreases |walk|
  {
    if walk != [] {
      var prefix := walk[..|walk| - 1];
      var e := walk[|walk| - 1];
      var before := Scanned(rows, prefix, extract);
      var after := Scanned(rows, walk, extract);
      var path := EntryPath(e);
      assert |before.rows| <= |after.rows| && after.rows[..|before.rows|] == before.rows;
      assert stored[..|before.rows|] == before.rows;
      Rescan(rows, prefix, extract, stored);
      if before.failedAt.None? && IsSupported(e.name) {
        if HasPath(before.rows, path) {
          var i :| 0 <= i < |before.rows| && before.rows[i].path == path;
          assert stored[i] == before.rows[i];
        } else if ExtractFields(extract(path)).lengthTag.None? {
          assert stored[|before.rows|] == after.rows[|before.rows|];
        }
      }
    }
  }

  /** Scanning the same walk twice changes nothing the second time, and ends the same way. */
  lemma ScanIdempotent(rows: seq<Track>, walk: seq<WalkEntry>, extract: Extractor)
    ensures Scanned(Scanned(rows, walk, extract).rows, walk, extract) == Scanned(rows, walk, extract)
  {
    var s := Scanned(rows, walk, extract);
    assert s.rows[..|s.rows|] == s.rows;
    Rescan(rows, walk, extract, s.rows);
  }

  /**
   * Every row a scan adds comes from a supported file of the walk: it is stored
   * under that file's full path, which was not stored before the scan, with the
   * file's name, the artist and album read from its metadata (the defaults when
   * the reader failed), and duration 0, since its metadata lists no 'length'
   * value.
   */
  lemma {:induction false} ScannedNewRows(rows: seq<Track>, walk: seq<WalkEntry>, extract: Extractor)
    ensures forall j :: |rows| <= j < |Scanned(rows, walk, extract).rows| ==>
      var t := Scanned(rows, walk, extract).rows[j];
      var f := ExtractFields(extract(t.path));
      && !HasPath(rows, t.path)
      && t.artist == f.artist && t.album == f.album && f.lengthTag.None? && t.duration == 0.0
      && exists k :: 0 <= k < |walk| && IsSupported(walk[k].name) && t.path == EntryPath(walk[k]) && t.filename == walk[k].name
    decreases |walk|
  {
    if walk != [] {
      var prefix := walk[..|walk| - 1];
      var before := Scanned(rows, prefix, extract).rows;
      var after := Scanned(rows, walk, extract).rows;
      var e := walk[|walk| - 1];
      ScannedNewRows(rows, prefix, extract);
      ScannedExtends(rows, prefix, extract);
      forall j | |rows| <= j < |after|
        ensures !HasPath(rows, after[j].path)
        ensures after[j].artist == ExtractFields(extract(after[j].path)).artist
        ensures after[j].album == ExtractFields(extract(after[j].path)).album
        ensures ExtractFields(extract(after[j].path)).lengthTag.None? && after[j].duration == 0.0
        ensures exists k :: 0 <= k < |walk| && IsSupported(walk[k].name) && after[j].path == EntryPath(walk[k]) && after[j].filename == walk[k].name
      {
        if j < |before| {
          assert after[j] == before[j];
          var k :| 0 <= k < |prefix| && IsSupported(prefix[k].name) && before[j].path == EntryPath(prefix[k]) && before[j].filename == prefix[k].name;
          assert prefix[k] == walk[k];
        } else {
          assert after[j].path == EntryPath(e) && !HasPath(before, EntryPath(e));
          if HasPath(rows, after[j].path) {
            ScannedKeepsPath(rows, prefix, extract, after[j].path);
            assert false;
          }
          assert walk[|walk| - 1] == e;
        }
      }
    }
  }

  /** Scanning one more entry is one more step of the scan. */
  lemma ScannedSnoc(rows: seq<Track>, walk: seq<WalkEntry>, e: WalkEntry, extract: Extractor)
    ensures Scanned(rows, walk + [e], extract) == ScanStep(Scanned(rows, walk, extract), e, extract)
  {
    assert (walk + [e])[..|walk|] == walk;
  }

  /** Scanning two entries is two steps of the scan. */
  lemma ScannedPair(rows: seq<Track>, a: WalkEntry, b: WalkEntry, extract: Extractor)
    ensures Scanned(rows, [a, b], extract) == ScanStep(ScanStep(Scan(rows, None), a, extract), b, extract)
  {
    ScannedSnoc(rows, [], a, extract);
    ScannedSnoc(rows, [a], b, extract);
    assert [] + [a] == [a] && [a] + [b] == [a, b];
  }

  /** A supported file under a new path, with no 'length' list, gets a new row. */
  lemma StepNew(s: Scan, e: WalkEntry, extract: Extractor)
    requires s.failedAt.None? && IsSupported(e.name) && !HasPath(s.rows, EntryPath(e))
    requires ExtractFields(extract(EntryPath(e))).lengthTag.None?
    ensures ScanStep(s, e, extract) == Scan(s.rows + [NewRow(s.rows, EntryPath(e), e.name, ExtractFields(extract(EntryPath(e))))], None)
  {
  }

  /** A supported file under a new path whose metadata lists a 'length' value ends the scan unstored. */
  lemma StepRejected(s: Scan, e: WalkEntry, extract: Extractor)
    requires s.failedAt.None? && IsSupported(e.name) && !HasPath(s.rows, EntryPath(e))
    requires ExtractFields(extract(EntryPath(e))).lengthTag.Some?
    ensures ScanStep(s, e, extract) == Scan(s.rows, Some(EntryPath(e)))
  {
  }

  /** Metadata holding one artist and one album, and no 'length', yields exactly those. */
  lemma ReadableFields(m: Metadata, artist: string, album: string)
    requires m == Metadata(map["artist" := [artist], "album" := [album]])
    ensures ExtractFields(Some(m)) == Fields(artist, album, None)
  {
    assert FirstTag(m, "artist", UnknownArtist) == Some(artist);
    assert FirstTag(m, "album", UnknownAlbum) == Some(album);
    assert "length" !in m.tags;
  }

  /** Scanning one supported file whose path is new, with no 'length' list, appends exactly its row. */
  lemma ScanOneNew(rows: seq<Track>, e: WalkEntry, extract: Extractor)
    requires IsSupported(e.name) && !HasPath(rows, EntryPath(e))
    requires ExtractFields(extract(EntryPath(e))).lengthTag.None?
    ensures Scanned(rows, [e], extract) == Scan(rows + [NewRow(rows, EntryPath(e), e.name, ExtractFields(extract(EntryPath(e))))], None)
  {
    ScannedSnoc(rows, [], e, extract);
    assert [] + [e] == [e];
  }

  /** After one row with id 1, the next row gets id 2. */
  lemma NextIdAfterFirst(t: Track)
    requires t.id == 1
    ensures NextId([t]) == 2
  {
    assert [t][..0] == [];
  }

  /** The first file of the two-file example: readable, so stored with its tags and id 1. */
  lemma ReadableFirst(a: WalkEntry, extract: Extractor, artist: string, album: string)
    requires IsSupported(a.name)
    requires extract(EntryPath(a)) == Some(Metadata(map["artist" := [artist], "album" := [album]]))
    ensures ScanStep(Scan([], None), a, extract) == Scan([Track(1, EntryPath(a), a.name, artist, album, 0.0)], None)
  {
    var f := ExtractFields(extract(EntryPath(a)));
    assert f == Fields(artist, album, None) by {
      ReadableFields(extract(EntryPath(a)).value, artist, album);
    }
    assert !HasPath([], EntryPath(a));
    StepNew(Scan([], None), a, extract);
    assert NewRow([], EntryPath(a), a.name, f) == Track(1, EntryPath(a), a.name, artist, album, 0.0);
  }

  /** The second file of the two-file example: unreadable, so stored with the defaults and id 2. */
  lemma UnreadableSecond(ta: Track, b: WalkEntry, extract: Extractor)
    requires ta.id == 1 && IsSupported(b.name) && EntryPath(b) != ta.path
    requires extract(EntryPath(b)) == None
    ensures ScanStep(Scan([ta], None), b, extract)
         == Scan([ta, Track(2, EntryPath(b), b.name, UnknownArtist, UnknownAlbum, 0.0)], None)
  {
    NextIdAfterFirst(ta);
    StepNew(Scan([ta], None), b, extract);
    assert [ta] + [Track(2, EntryPath(b), b.name, UnknownArtist, UnknownAlbum, 0.0)]
        == [ta, Track(2, EntryPath(b), b.name, UnknownArtist, UnknownAlbum, 0.0)];
  }

  /**
   * Scanning an empty library over two supported files, one whose metadata
   * reads and one whose reader fails, stores both: the first with its tags and
   * id 1, the second with the defaults and id 2, both with duration 0.
   */
  lemma ScanReadableAndUnreadable(a: WalkEntry, b: WalkEntry, extract: Extractor, artist: string, album: string)
    requires IsSupported(a.name) && IsSupported(b.name) && EntryPath(a) != EntryPath(b)
    requires extract(EntryPath(a)) == Some(Metadata(map["artist" := [artist], "album" := [album]]))
    requires extract(EntryPath(b)) == None
    ensures Scanned([], [a, b], extract)
         == Scan([Track(1, EntryPath(a), a.name, artist, album, 0.0),
                  Track(2, EntryPath(b), b.name, UnknownArtist, UnknownAlbum, 0.0)], None)
  {
    ScannedPair([], a, b, extract);
    ReadableFirst(a, extract, artist, album);
    UnreadableSecond(Track(1, EntryPath(a), a.name, artist, album, 0.0), b, extract);
  }

  /**
   * A supported new file whose metadata lists a 'length' value ends the scan:
   * it is not stored and the files after it are not looked at.
   */
  lemma ScanStopsAtLengthTag(rows: seq<Track>, a: WalkEntry, b: WalkEntry, extract: Extractor)
    requires IsSupported(a.name) && !HasPath(rows, EntryPath(a))
    requires extract(EntryPath(a)).Some? && "length" in extract(EntryPath(a)).value.tags
    requires FirstTag(extract(EntryPath(a)).value, "artist", UnknownArtist).Some?
    requires FirstTag(extract(EntryPath(a)).value, "album", UnknownAlbum).Some?
    ensures Scanned(rows, [a, b], extract) == Scan(rows, Some(EntryPath(a)))
  {
    ScannedPair(rows, a, b, extract);
    StepRejected(Scan(rows, None), a, extract);
  }
}
