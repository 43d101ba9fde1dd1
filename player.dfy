/**
 * The `ShellMusicPlayer` object: the `tracks` table it scans into, and the
 * playback session (current playlist, cursor, playing/paused flags and the
 * handle of the external mpv process). Whether mpv could be started is a
 * parameter of the operations that start it, and the random numbers drawn by
 * the shuffle are a parameter of the shuffle.
 */
module Player {
  import opened Wrappers
  import opened Tracks
  import opened Scanner

  /** A running mpv process, known by the command line it was started with. */
  datatype Process = Process(argv: seq<string>)

  /** The mpv command line for one track: its full path, no video, no terminal output. */
  function MpvCommand(path: string): (argv: seq<string>)
    ensures |argv| == 4 && argv[0] == "mpv" && argv[1] == path
  {
    ["mpv", path, "--no-video", "--terminal=no"]
  }

  /** What `play` reports. */
  datatype PlayOutcome = NoTracksToPlay | NowPlaying(track: Track) | PlayError

  datatype Status = Stopped | Playing | Paused

  /** What a scan ends with: the count it returns, or the insert error it raises. */
  datatype ScanReport = TracksAdded(count: nat) | InsertRejected(path: string)

  /** The cursor after `next`: one step forward, the last track wrapping to the first. */
  function NextIndex(i: int, n: int): (j: int)
    requires 0 <= i < n
    ensures 0 <= j < n
    ensures j == if i == n - 1 then 0 else i + 1
  {
    (i + 1) % n
  }

  /** The cursor after `prev`: one step back, the first track wrapping to the last. */
  function PreviousIndex(i: int, n: int): (j: int)
    requires 0 <= i < n
    ensures 0 <= j < n
    ensures j == if i == 0 then n - 1 else i - 1
  {
    (i - 1) % n
  }

  /** `prev` undoes `next` and `next` undoes `prev`. */
  lemma NextPreviousInverse(i: int, n: int)
    requires 0 <= i < n
    ensures PreviousIndex(NextIndex(i, n), n) == i
    ensures NextIndex(PreviousIndex(i, n), n) == i
  {
  }

  class ShellMusicPlayer {
    /** The `tracks` table. */
    var library: seq<Track>

    var currentPlaylist: seq<Track>
    var currentTrackIndex: int
    var isPlaying: bool
    var isPaused: bool
    var playerProcess: Option<Process>

    /**
     * The table keeps its schema guarantees; a process handle exists exactly
     * while `isPlaying` holds, and `isPaused` only with a handle; the cursor is
     * a position of a non-empty playlist and 0 otherwise.
     */
    ghost predicate Valid()
      reads this
    {
      && TableValid(library)
      && (playerProcess.Some? <==> isPlaying)
      && (isPaused ==> playerProcess.Some?)
      && 0 <= currentTrackIndex
      && (if currentPlaylist == [] then currentTrackIndex == 0 else currentTrackIndex < |currentPlaylist|)
    }

    function Status(): Status
      reads this
    {
      if playerProcess.None? then Stopped else if isPaused then Paused else Playing
    }

    /** State right after `play` tried to start the current track. */
    ghost predicate StartedCurrent(spawned: bool)
      reads this
    {
      && 0 <= currentTrackIndex < |currentPlaylist|
      && !isPaused
      && isPlaying == spawned
      && playerProcess == (if spawned then Some(Process(MpvCommand(currentPlaylist[currentTrackIndex].path))) else None)
    }

    /** Opens the player over a table that already holds `stored`, with nothing playing. */
    constructor (stored: seq<Track>)
      requires TableValid(stored)
      ensures Valid() && Status() == Stopped
      ensures library == stored && currentPlaylist == [] && currentTrackIndex == 0
      ensures !isPlaying && !isPaused && playerProcess == None
    {
      library := stored;
      currentPlaylist := [];
      currentTrackIndex := 0;
      isPlaying := false;
      isPaused := false;
      playerProcess := None;
    }

    /**
     * Handles the next file of the walk, after the files `done` scanned from
     * the table `start`: an unsupported or already stored file is skipped; any
     * other is inserted, unless its metadata lists a 'length' value, whose
     * insert is rejected and leaves the table as it was.
     */
    method ScanFile(entry: WalkEntry, extract: Extractor, ghost start: seq<Track>, ghost done: seq<WalkEntry>)
      returns (added: bool, rejected: Option<string>)
      requires Scanned(start, done, extract) == Scan(library, None)
      modifies this`library
      ensures Scanned(start, done + [entry], extract) == Scan(library, rejected)
      ensures |library| == |old(library)| + (if added then 1 else 0)
    {
      ScannedSnoc(start, done, entry, extract);
      added, rejected := false, None;
      if IsSupported(entry.name) {
        var fullPath := JoinPath(entry.root, entry.name);
        if !HasPath(library, fullPath) {
          var fields := ExtractFields(extract(fullPath));
          if fields.lengthTag.Some? {
            rejected := Some(fullPath);
          } else {
            library := library + [Track(NextId(library), fullPath, entry.name, fields.artist, fields.album, 0.0)];
            added := true;
          }
        }
      }
    }

    /**
     * Scans the walk into the table. It reports the number of rows added, or
     * the path whose insert was rejected when a file's metadata lists a
     * 'length' value; the rows added before that stay in the table.
     * `extract` reads a file's metadata.
     */
    method ScanMusicLibrary(walk: seq<WalkEntry>, extract: Extractor) returns (report: ScanReport)
      requires Valid()
      modifies this`library
      ensures Valid()
      ensures library == Scanned(old(library), walk, extract).rows
      ensures report.TracksAdded? <==> Scanned(old(library), walk, extract).failedAt.None?
      ensures report.TracksAdded? ==> report.count == |library| - |old(library)|
      ensures report.InsertRejected? ==> Some(report.path) == Scanned(old(library), walk, extract).failedAt
    {
      ghost var start := library;
      var tracksAdded: nat := 0;
      var rejected: Option<string> := None;
      var k := 0;
      assert walk[..0] == [];
      while k < |walk| && rejected.None?
        invariant 0 <= k <= |walk|
        invariant Scanned(start, walk[..k], extract) == Scan(library, rejected)
        invariant tracksAdded == |library| - |start|
      {
        var added;
        added, rejected := ScanFile(walk[k], extract, start, walk[..k]);
        assert walk[..k] + [walk[k]] == walk[..k + 1];
        if added {
          tracksAdded := tracksAdded + 1;
        }
        k := k + 1;
      }
      if rejected.Some? {
        ScannedStopsAt(start, walk, k, extract);
        report := InsertRejected(rejected.value);
      } else {
        assert walk[..k] == walk;
        report := TracksAdded(tracksAdded);
      }
      ScannedKeepsValid(start, walk, extract);
    }

    /** Ends playback, if any: the handle is dropped and both flags are cleared. */
    method Stop()
      requires Valid()
      modifies this`playerProcess, this`isPlaying, this`isPaused
      ensures Valid() && Status() == Stopped
      ensures playerProcess == None && !isPlaying && !isPaused
      ensures old(playerProcess).None? ==> unchanged(this)
    {
      if playerProcess.Some? {
        playerProcess := None;
        isPlaying := false;
        isPaused := false;
      }
    }

    /**
     * Starts playback. A non-empty `tracks` (an empty one stands for the
     * absent argument as well) replaces the playlist and resets the cursor.
     * With nothing to play it reports so and changes nothing; otherwise it
     * stops whatever plays and starts mpv on the current track, which succeeds
     * exactly when `spawned` holds.
     */
    method Play(tracks: seq<Track>, spawned: bool) returns (outcome: PlayOutcome)
      requires Valid()
      modifies this`currentPlaylist, this`currentTrackIndex, this`playerProcess, this`isPlaying, this`isPaused
      ensures Valid()
      ensures tracks != [] ==> currentPlaylist == tracks && currentTrackIndex == 0
      ensures tracks == [] ==> currentPlaylist == old(currentPlaylist) && currentTrackIndex == old(currentTrackIndex)
      ensures currentPlaylist == [] ==> outcome == NoTracksToPlay && unchanged(this)
      ensures currentPlaylist != [] ==> StartedCurrent(spawned)
      ensures currentPlaylist != [] ==>
        outcome == if spawned then NowPlaying(currentPlaylist[currentTrackIndex]) else PlayError
    {
      if tracks != [] {
        currentPlaylist := tracks;
        currentTrackIndex := 0;
      }
      if currentPlaylist == [] {
        return NoTracksToPlay;
      }
      Stop();
      var current := currentPlaylist[currentTrackIndex];
      if spawned {
        playerProcess := Some(Process(MpvCommand(current.path)));
        isPlaying := true;
        outcome := NowPlaying(current);
      } else {
        outcome := PlayError;
      }
    }

    /** Suspends mpv whenever a handle exists, whether or not it is paused already. */
    method Pause()
      requires Valid()
      modifies this`isPaused
      ensures Valid()
      ensures isPaused == (old(isPaused) || playerProcess.Some?)
      ensures playerProcess.Some? ==> Status() == Paused
    {
      if playerProcess.Some? {
        isPaused := true;
      }
    }

    /** Continues a paused mpv; does nothing unless there is a handle and it is paused. */
    method Resume()
      requires Valid()
      modifies this`isPaused
      ensures Valid()
      ensures isPaused == (old(isPaused) && playerProcess.None?)
      ensures old(Status()) == Paused ==> Status() == Playing
      ensures old(Status()) != Paused ==> isPaused == old(isPaused)
    {
      if playerProcess.Some? && isPaused {
        isPaused := false;
      }
    }

    /** Moves the cursor one track forward, wrapping around, and plays it; nothing happens on an empty playlist. */
    method NextTrack(spawned: bool)
      requires Valid()
      modifies this`currentPlaylist, this`currentTrackIndex, this`playerProcess, this`isPlaying, this`isPaused
      ensures Valid()
      ensures currentPlaylist == old(currentPlaylist)
      ensures old(currentPlaylist) == [] ==> unchanged(this)
      ensures old(currentPlaylist) != [] ==>
        currentTrackIndex == NextIndex(old(currentTrackIndex), |currentPlaylist|) && StartedCurrent(spawned)
    {
      if currentPlaylist == [] {
        return;
      }
      currentTrackIndex := NextIndex(currentTrackIndex, |currentPlaylist|);
      var _ := Play([], spawned);
    }

    /** Moves the cursor one track back, wrapping around, and plays it; nothing happens on an empty playlist. */
    method PreviousTrack(spawned: bool)
      requires Valid()
      modifies this`currentPlaylist, this`currentTrackIndex, this`playerProcess, this`isPlaying, this`isPaused
      ensures Valid()
      ensures currentPlaylist == old(currentPlaylist)
      ensures old(currentPlaylist) == [] ==> unchanged(this)
      ensures old(currentPlaylist) != [] ==>
        currentTrackIndex == PreviousIndex(old(currentTrackIndex), |currentPlaylist|) && StartedCurrent(spawned)
    {
      if currentPlaylist == [] {
        return;
      }
      currentTrackIndex := PreviousIndex(currentTrackIndex, |currentPlaylist|);
      var _ := Play([], spawned);
    }

    /**
     * Shuffles the playlist in place the way `random.shuffle` does: positions
     * are visited from the last down to the second, and each is swapped with a
     * position drawn at or below it. `randomBelow(n)` is the number the
     * generator draws for the bound `n`. The cursor keeps its position.
     */
    method ShufflePlaylist(randomBelow: nat -> nat)
      requires Valid()
      modifies this`currentPlaylist
      ensures Valid()
      ensures |currentPlaylist| == |old(currentPlaylist)|
      ensures multiset(currentPlaylist) == multiset(old(currentPlaylist))
    {
      if currentPlaylist == [] {
        return;
      }
      var i := |currentPlaylist| - 1;
      while i > 0
        invariant 0 <= i < |currentPlaylist|
        invariant |currentPlaylist| == |old(currentPlaylist)|
        invariant multiset(currentPlaylist) == multiset(old(currentPlaylist))
      {
        var j := randomBelow(i + 1) % (i + 1);
        var a, b := currentPlaylist[i], currentPlaylist[j];
        currentPlaylist := currentPlaylist[i := b][j := a];
        i := i - 1;
      }
    }
  }

  /**
   * A session over a fresh player: commands before any playlist exists change
   * nothing, a three-track playlist wraps around in both directions, and
   * pause/resume/stop move between the three statuses.
   */
  method SessionScenario(a: Track, b: Track, c: Track)
  {
    var player := new ShellMusicPlayer([]);
    player.NextTrack(true);
    player.PreviousTrack(true);
    var outcome := player.Play([], true);
    assert outcome == NoTracksToPlay && player.Status() == Stopped;

    outcome := player.Play([a, b, c], true);
    assert outcome == NowPlaying(a) && player.Status() == Playing;
    player.PreviousTrack(true);
    assert player.currentTrackIndex == 2 && player.playerProcess == Some(Process(MpvCommand(c.path)));
    player.NextTrack(false);
    assert player.currentTrackIndex == 0 && player.Status() == Stopped;

    outcome := player.Play([], true);
    player.Pause();
    assert player.Status() == Paused;
    player.Resume();
    assert player.Status() == Playing;
    player.Stop();
    assert player.Status() == Stopped && player.currentPlaylist == [a, b, c];
  }
}
