# MTSP music player: catalog and playback session

A Dafny model of the core of MTSP (Multimedia Terminal Soundtrack Player), a
terminal music library manager. The model covers four parts of its
`ShellMusicPlayer` class:

- **Library scan** (`scan_music_library`). It walks the music directory and keeps
  the files whose lower-cased name ends in `.mp3`, `.wav`, `.flac`, `.ogg` or
  `.m4a`. It skips any full path already stored in the `tracks` table. Every
  other file gets a new row. The row's artist and album come from the metadata
  reader, or are 'Unknown Artist' and 'Unknown Album' when reading fails. This
  holds unless its metadata lists a 'length' value (see below). The
  duration is whatever the reader lists under the 'length' tag key, or 0 when
  there is no such key. A listed value is a list of texts, which the INSERT
  cannot bind. That error is raised outside the exception handler, so it ends
  the whole scan. Every row a scan stores therefore has duration 0. A scan
  that runs to the end returns the number of rows it added.
- **Catalog query** (`get_tracks`). It takes an optional search term, matched
  like SQLite's `LIKE '%term%'` against filename, artist or album. It orders by
  a column only when the column is on the allow-list, in the requested
  direction. Then it pages with LIMIT and OFFSET.
- **Playback session** (`play`, `pause`, `resume`, `stop`, `next_track`,
  `previous_track`, `shuffle_playlist`). These methods update the current
  playlist, its cursor, the `is_playing` and `is_paused` flags and the handle of
  the external `mpv` process.
- **Display truncation** (`display_tracks`). A field longer than its column is
  cut to `width - 3` characters followed by `...`.

Files:

- `wrappers.dfy`: `Option`.
- `text.dfy`: ASCII lower-casing, suffix and substring tests, and lexicographic
  order.
- `tracks.dfy`: the table row, the schema's uniqueness guarantees, and rowid
  assignment.
- `scanner.dfy`: the scan as a specification function `Scanned`, with its
  lemmas. Its parts:
  - `IsSupported` is the suffix test (mtsp-music-player.py:72, 77).
  - `ScanStep` is one file of the walk (mtsp-music-player.py:77-101).
  - `Scanned` is the whole walk (mtsp-music-player.py:75-101). Its state `Scan`
    records the path of a rejected insert, after which nothing changes.
- `query.dfy`: `get_tracks` (mtsp-music-player.py:106-125) as the pure
  function `GetTracks`, with its lemmas. Its parts:
  - `Matching` and `Filtered` are the WHERE clause (mtsp-music-player.py:111-114).
  - `Ordered` is the optional ORDER BY (mtsp-music-player.py:116-119).
  - `Page` is LIMIT and OFFSET (mtsp-music-player.py:121-122).
- `catalog.dfy`: a lemma that connects scanning and searching.
- `display.dfy`: truncation.
- `player.dfy`: the class `ShellMusicPlayer`. It has the table and the session
  state as fields. `ScanMusicLibrary` runs the scan loop over the table field
  and is proved against `Scanned`. `ScanFile` is the body of that loop for one
  file. `SessionScenario` walks through the empty-playlist no-ops, the
  wrap-around over three tracks, and pause, resume and stop. The session
  methods are proved to keep `Valid()`:
  - the handle is present exactly while `isPlaying` holds;
  - `isPaused` holds only while there is a handle;
  - the cursor is inside a non-empty playlist, and 0 when the playlist is empty.

The world outside the program enters as parameters:

- The directory walk is a list of `(root, name)` entries.
- The metadata reader (mutagen) is a function from a path to `Option<Metadata>`.
  `None` means the reader raised or did not recognise the file.
- Whether `mpv` could be started is a `spawned: bool` argument.
- The numbers drawn by `random.shuffle` come from a function `randomBelow`. One
  shuffle draws once for each bound `i + 1`, so one function covers every
  sequence of draws.

SQLite behaviour that the model reproduces:

- A new row's id is one more than the largest id in the table, or 1 when the
  table is empty.
- `LIKE` folds case for ASCII letters only.
- TEXT columns are ordered by code point, with a shorter prefix first.
- A negative LIMIT means no limit. A negative OFFSET counts as 0.

Behaviour worth noting:

- `play` returns early, without stopping anything, when there is nothing to
  play.
- An `order_by` outside the allow-list is silently ignored.
- `pause` does not check whether playback is already paused.

## Model

| member | source | states |
|---|---|---|
| `Text.ContainsIff` | mtsp-music-player.py:112-113 | the substring test used for `LIKE '%term%'` holds exactly when some position of the field starts a copy of the term |
| `Text.LexLeqTotal` | mtsp-music-player.py:119 | any two texts are comparable in the ORDER BY order of TEXT columns |
| `Text.LexLeqTransitive` | mtsp-music-player.py:119 | the ORDER BY order on TEXT columns is transitive |
| `Tracks.MaxId` | mtsp-music-player.py:44 | the largest id is at least every row's id, and is either 0 or the id of some row |
| `Tracks.NextId` | mtsp-music-player.py:97-100 | the id a new row receives is positive and larger than every stored id |
| `Tracks.InsertKeepsValid` | mtsp-music-player.py:43-50 | inserting a row under a path not yet stored, with the next id, keeps paths unique and ids unique and positive |
| `Scanner.JoinPath` | mtsp-music-player.py:78 | the full path ends with the file name; for a relative name it is the root followed by the name, with a `/` between them unless the root is empty or already ends in `/` |
| `Scanner.FirstTag` | mtsp-music-player.py:88-89 | a tag lookup gives the first listed value, or the default when the key is absent, and fails exactly when the key is present with an empty list |
| `Scanner.ExtractFields` | mtsp-music-player.py:86-94 | a failed read, or a failed lookup, gives the default artist and album and no 'length' list (duration 0). Otherwise the artist and album are the first listed values, or the defaults when absent, and the 'length' list is the one listed under that key, if any. |
| `Scanner.ReadableFields` | mtsp-music-player.py:87-90 | metadata with one artist, one album and no 'length' key yields exactly those, with duration 0 |
| `Scanner.StepNew` | mtsp-music-player.py:77-101 | a supported file under a new path, with no 'length' list, appends exactly its row |
| `Scanner.StepRejected` | mtsp-music-player.py:90-100 | a supported file under a new path whose metadata lists a 'length' value is not stored, and the scan ends with that path |
| `Scanner.StepKeepsPath` | mtsp-music-player.py:80-83 | one step of the scan keeps every stored path |
| `Scanner.StepFailureStays` | mtsp-music-player.py:96-100 | after a rejected insert, a further file changes nothing |
| `Scanner.StepStores` | mtsp-music-player.py:77-101 | a step that rejects no insert leaves a supported file stored under its full path |
| `Scanner.ScanOneNew` | mtsp-music-player.py:75-101 | scanning one supported file under a new path, with no 'length' list, appends exactly its row |
| `Scanner.ScannedSnoc` | mtsp-music-player.py:75-76 | scanning one more walk entry is one more step after the scan of the earlier entries |
| `Scanner.ScannedPair` | mtsp-music-player.py:75-76 | scanning two walk entries is two steps, in walk order |
| `Scanner.ScannedAfterFailure` | mtsp-music-player.py:96-100 | once an insert is rejected, the rest of the walk changes nothing |
| `Scanner.ScannedStopsAt` | mtsp-music-player.py:96-100 | a scan whose first files end in a rejected insert ends in exactly that state |
| `Scanner.ScannedFailure` | mtsp-music-player.py:90-100 | a scan ends with a rejected insert only at a supported file of the walk that is not stored and whose metadata lists a 'length' value |
| `Scanner.ScannedExtends` | mtsp-music-player.py:80-83 | the rows stored before a scan are still there, unchanged and in the same places |
| `Scanner.ScannedGrowth` | mtsp-music-player.py:96-101 | a scan adds between zero rows and one row per walk entry |
| `Scanner.ScannedKeepsValid` | mtsp-music-player.py:80-100 | a scan keeps paths unique and ids unique and positive |
| `Scanner.ScannedKeepsPath` | mtsp-music-player.py:80-83 | a path stored before a scan is still stored after it |
| `Scanner.ScannedCoversOne` | mtsp-music-player.py:75-100 | after a scan with no rejected insert, the supported file at any one position of the walk is stored under its full path |
| `Scanner.ScannedCovers` | mtsp-music-player.py:75-100 | after a scan with no rejected insert, every supported file of the walk is stored under its full path |
| `Scanner.ScannedNothingNew` | mtsp-music-player.py:80-83 | a scan over files that are all stored already, or unsupported, leaves the table unchanged |
| `Scanner.Rescan` | mtsp-music-player.py:75-101 | scanning the walk again over the first scan's rows adds nothing and ends the same way, with or without a rejected insert |
| `Scanner.ScanIdempotent` | mtsp-music-player.py:80-104 | scanning the same walk a second time adds no row, changes none, and ends the same way |
| `Scanner.ScannedNewRows` | mtsp-music-player.py:72-100 | every added row comes from a supported file of the walk. It is stored under that file's full path (not stored before) and with its name. Its artist and album are read from its metadata, or are the defaults when reading failed. That metadata lists no 'length' value, and the duration is 0. |
| `Scanner.NextIdAfterFirst` | mtsp-music-player.py:97-100 | after a single row with id 1 the next row gets id 2 |
| `Scanner.ReadableFirst` | mtsp-music-player.py:77-101 | a readable first file of an empty library is stored with its tags and id 1 |
| `Scanner.UnreadableSecond` | mtsp-music-player.py:77-101 | an unreadable file after one row with id 1 is stored with the defaults and id 2 |
| `Scanner.ScanReadableAndUnreadable` | mtsp-music-player.py:75-101 | an empty library scanned over a readable and an unreadable supported file stores both: ids 1 and 2, the first with its tags, the second with 'Unknown Artist' and 'Unknown Album', both with duration 0 |
| `Scanner.ScanStopsAtLengthTag` | mtsp-music-player.py:86-100 | a supported new file whose metadata lists a 'length' value ends the scan: it is not stored, and the next file is not looked at |
| `Query.ParseColumn` | mtsp-music-player.py:117-118 | an ORDER BY column is recognised exactly when the text is one of id, filename, artist, album, duration, and the recognised column has that name |
| `Query.ParseColumnName` | mtsp-music-player.py:117-118 | each allow-listed column is recognised by its own name |
| `Query.MatchingSpec` | mtsp-music-player.py:111-114 | the search keeps exactly the rows whose filename, artist or album contains the term (ASCII case-insensitively), each as often as the table holds it |
| `Query.MatchingMembers` | mtsp-music-player.py:111-114 | a row is in the search result exactly when it is in the table and matches the term |
| `Query.BeforeTotal` | mtsp-music-player.py:119 | under any column and direction, of two rows one may precede the other |
| `Query.BeforeTransitive` | mtsp-music-player.py:119 | the ORDER BY relation is transitive for every column and direction |
| `Query.InsertPermutes` | mtsp-music-player.py:119 | inserting a row into a sorted sequence adds exactly that row |
| `Query.SortedCons` | mtsp-music-player.py:119 | a row that may precede every row of a sorted sequence can be put in front of it |
| `Query.InsertSorted` | mtsp-music-player.py:119 | inserting a row into a sorted sequence keeps it sorted |
| `Query.SortBySpec` | mtsp-music-player.py:119 | ordering by a column returns the same rows, sorted by that column in the requested direction |
| `Query.SortedSlice` | mtsp-music-player.py:121 | every page of a sorted sequence is sorted |
| `Query.OrderedSameRows` | mtsp-music-player.py:116-119 | the ORDER BY step, applied or ignored, keeps the same rows |
| `Query.PageStart` | mtsp-music-player.py:121-122 | OFFSET starts within the rows |
| `Query.Page` | mtsp-music-player.py:121-122 | a page is the run of rows that starts at the offset (a negative offset counts as 0); it holds at most `limit` rows when the limit is non-negative and runs to the end otherwise |
| `Query.GetTracksSound` | mtsp-music-player.py:106-125 | at most `limit` rows come back, each is a row of the table, and with a non-empty search term each contains the term in its filename, artist or album |
| `Query.GetTracksComplete` | mtsp-music-player.py:111-125 | with a non-positive offset and a limit that leaves room for every match (or a negative one), the query returns every matching row of the table, each as often as it is stored, and no other |
| `Query.GetTracksUnlistedColumn` | mtsp-music-player.py:117-119 | an `order_by` outside the allow-list is ignored: the rows come in table order, and the sort direction makes no difference |
| `Query.GetTracksSorted` | mtsp-music-player.py:117-119 | an allow-listed `order_by` yields rows sorted by that column in the requested direction |
| `Catalog.MatchingNone` | mtsp-music-player.py:111-114 | a search for a term that no row contains returns nothing |
| `Catalog.ScanThenSearch` | mtsp-music-player.py:96-125 | a file added by a scan (its metadata lists no 'length' value) is returned, alone and with the fields read from it, by a default query that searches for a term in its name, when no earlier row matches that term |
| `Display.Truncate` | mtsp-music-player.py:156-158 | a field of at most `width` characters is shown unchanged; a longer one becomes its first `width - 3` characters followed by "...", exactly `width` long |
| `Display.TrackCells` | mtsp-music-player.py:129-158 | the filename, artist and album cells fit their 30-, 20- and 20-character columns, and each equals its field exactly when the field fits |
| `Player.MpvCommand` | mtsp-music-player.py:184-188 | the player is started as `mpv` on the track's full path |
| `Player.NextIndex` | mtsp-music-player.py:228 | `next` moves the cursor one forward within the playlist, from the last track to the first |
| `Player.PreviousIndex` | mtsp-music-player.py:236 | `prev` moves the cursor one back within the playlist, from the first track to the last |
| `Player.NextPreviousInverse` | mtsp-music-player.py:223-237 | `prev` undoes `next` and `next` undoes `prev` |
| `Player.ShellMusicPlayer.constructor` | mtsp-music-player.py:31-38 | a new player holds the stored table, an empty playlist, cursor 0, and nothing playing |
| `Player.ShellMusicPlayer.ScanFile` | mtsp-music-player.py:77-101 | handling the next file leaves the table and the rejected path (if any) equal to `Scanned` over the walk up to that file, and adds one row or none |
| `Player.ShellMusicPlayer.ScanMusicLibrary` | mtsp-music-player.py:70-104 | the loop leaves the table equal to `Scanned` of the old table and the walk, and keeps the table's guarantees. It reports the number of rows added exactly when no insert was rejected, and otherwise the rejected path. |
| `Player.ShellMusicPlayer.Stop` | mtsp-music-player.py:209-221 | afterwards there is no handle and both flags are clear; with no handle beforehand nothing changes |
| `Player.ShellMusicPlayer.Play` | mtsp-music-player.py:167-193 | non-empty `tracks` replace the playlist and reset the cursor. With nothing to play it reports so and changes no state. Otherwise it is unpaused, and it holds an mpv handle on the current track exactly when the start succeeded, and reports that track or the error. |
| `Player.ShellMusicPlayer.Pause` | mtsp-music-player.py:195-200 | pauses whenever a handle exists, paused already or not; otherwise nothing changes |
| `Player.ShellMusicPlayer.Resume` | mtsp-music-player.py:202-207 | a paused session plays again; any other session is left as it is |
| `Player.ShellMusicPlayer.NextTrack` | mtsp-music-player.py:223-229 | on an empty playlist nothing changes; otherwise the cursor moves forward with wrap-around and the new current track is played |
| `Player.ShellMusicPlayer.PreviousTrack` | mtsp-music-player.py:231-237 | on an empty playlist nothing changes; otherwise the cursor moves back with wrap-around and the new current track is played |
| `Player.ShellMusicPlayer.ShufflePlaylist` | mtsp-music-player.py:239-243 | the playlist is reordered in place into a permutation of itself; its length and the cursor are kept, and the session invariant holds |

## Left out

- The interactive shell and the command-line entry point (`interactive_shell`,
  `main`) are console input and dispatch. They call the core with these fixed
  arguments: `list` uses limit 20 and defaults to `'filename'` and `'ASC'`;
  `play` with no argument uses limit 10; `play N` uses limit 1 and offset N-1.
- Process control is not modelled. This covers the signals that pause and
  resume `mpv`, `terminate` and the unbounded `wait` in `stop`, and the
  exceptions these may raise. A handle is only present or absent. Nothing
  detects that `mpv` ended on its own.
- The SQLite connection, the schema creation and the commit are not modelled.
  When a scan ends with a rejected insert, the rows it added before are still
  uncommitted. They are visible to later queries on the same connection, and a
  later commit makes them permanent. The model keeps them in the table.
- Player.ShellMusicPlayer.ScanMusicLibrary: the only scan error modelled is
  the rejected duration list. Other database errors from the lookup (line 81)
  or the INSERT (lines 97-100) are not modelled.
  The unused `playlists` and `playlist_tracks` tables have no operations. The
  table is a sequence, and rows inserted during a scan are visible to the rest
  of the scan at once, as they are on the same connection.
- Query.GetTracks: the sort direction is an `Asc`/`Desc` value. The source
  pastes the `sort` text into the statement unchecked. A text other than ASC
  or DESC may fail (`ASC;`, `--`), or may run as extra ORDER BY terms
  (`DESC,id`, `ASC,artist`). The model covers only `Asc` and `Desc`.
- Query.Like: `%` and `_` inside the search term keep their wildcard meaning in
  SQLite. The model treats them as ordinary characters.
- Query.GetTracks: SQLite does not fix the order of rows without ORDER BY, or of
  rows that tie on the ORDER BY column. The model uses table order and a
  fixed insertion sort. For ORDER BY results only sortedness and "same rows"
  are proved. `GetTracksUnlistedColumn` states the model's table order, which
  SQLite does not promise.
- Text values are never NULL in the model. Integer rowids are unbounded. When
  the largest rowid is reached, SQLite picks a random free id; that case is
  not modelled.
- Scanner.IsSupported lower-cases ASCII letters only. Python's `str.lower`
  also folds non-ASCII letters. No non-ASCII character lowers to a string that
  contains a character of the five suffixes, so the test decides the same way.
- Metadata extraction (mutagen) and the directory walk (`os.walk`) are
  parameters. Their own behaviour, including walk order, is not modelled.
- A tag's values are texts. The reader might also answer with other value
  types, and those are not modelled. Durations are exact reals, not IEEE floats. The `.2f` formatting of
  durations and every printed message are not modelled. The message `play`
  prints is its returned `PlayOutcome`.
- Player.ShellMusicPlayer.Play: `play(tracks)` stores the caller's list object,
  so a later shuffle also reorders the caller's list. The model stores a
  sequence value, so this aliasing is not captured. A `tracks` of `None` and
  an empty list act the same way in the source, and both are the empty
  sequence here.
- Player.ShellMusicPlayer.ShufflePlaylist: the random generator is a
  parameter. The contract states the permutation property only, not the
  distribution of outcomes.
