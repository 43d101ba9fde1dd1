/** The fixed-width table in which tracks are listed. */
module Display {
  import opened Tracks

  const FilenameWidth: nat := 30
  const ArtistWidth: nat := 20
  const AlbumWidth: nat := 20

  /**
   * A field that fits its column is shown as it is; a longer one is cut to
   * `width - 3` characters followed by "...", which fills the column exactly.
   */
  function Truncate(field: string, width: nat): (r: string)
    requires width >= 3
    ensures |r| <= width
    ensures r == field <==> |field| <= width
    ensures |field| > width ==> |r| == width && r[..width - 3] == field[..width - 3] && r[width - 3..] == "..."
  {
    if |field| > width then field[..width - 3] + "..." else field
  }

  datatype Cells = Cells(filename: string, artist: string, album: string)

  /** The filename, artist and album cells of a listed track, each within its column. */
  function TrackCells(t: Track): (c: Cells)
    ensures |c.filename| <= FilenameWidth && |c.artist| <= ArtistWidth && |c.album| <= AlbumWidth
    ensures (c.filename == t.filename <==> |t.filename| <= FilenameWidth)
         && (c.artist == t.artist <==> |t.artist| <= ArtistWidth)
         && (c.album == t.album <==> |t.album| <= AlbumWidth)
  {
    Cells(Truncate(t.filename, FilenameWidth), Truncate(t.artist, ArtistWidth), Truncate(t.album, AlbumWidth))
  }
}
