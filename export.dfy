/**
 * The per-tile export of `upload` in app.py: one KML file per buffered polygon,
 * written into a fresh directory under its positional name, then every file
 * copied into a flat ZIP archive that is itself created in that directory. The
 * directory is a map from file name to file; a tile file holds its geometry
 * (KML encoding is not modelled) and the archive its entries (compression is not
 * modelled).
 */
module TileExport {
  import opened Wrappers
  import opened TileNames

  /** A file in the directory: a KML tile holding one geometry, or a ZIP archive. */
  datatype File<G> = Tile(geometry: G) | Zip(archive: Archive<G>)

  /** A ZIP archive: its file name and its entries (entry name, copied file), in order. */
  datatype Archive<G> = Archive(name: string, entries: seq<(string, File<G>)>)

  /** The directory of written tiles holds, under each tile's name, that tile's geometry. */
  ghost predicate Written<G>(prefix: string, buffered: seq<G>, dir: map<string, File<G>>)
  {
    && dir.Keys == (set idx | 0 <= idx < |buffered| :: TileName(prefix, idx))
    && forall idx :: 0 <= idx < |buffered| ==> dir[TileName(prefix, idx)] == Tile(buffered[idx])
  }

  /**
   * The loop `for idx, geometry in enumerate(buffered_gdf.geometry)`: writes each
   * geometry to `{prefix}_polygon_{idx}.kml` in a fresh (empty) directory and
   * appends that name to `kml_files`.
   */
  method WriteTiles<G>(prefix: string, buffered: seq<G>) returns (kmlFiles: seq<string>, dir: map<string, File<G>>)
    ensures kmlFiles == DownloadLinks(prefix, |buffered|)
    ensures Written(prefix, buffered, dir)
  {
    kmlFiles := [];
    dir := map[];
    for idx := 0 to |buffered|
      invariant kmlFiles == DownloadLinks(prefix, idx)
      invariant Written(prefix, buffered[..idx], dir)
    {
      var name := TileName(prefix, idx);
      forall i | 0 <= i < idx
        ensures TileName(prefix, i) != name
      {
        TileNamesDistinct(prefix, i, idx);
      }
      dir := dir[name := Tile(buffered[idx])];
      kmlFiles := kmlFiles + [name];
    }
    assert buffered[..|buffered|] == buffered;
  }

  /**
   * The loop over `kml_files` inside `zipfile.ZipFile(..., 'w')`: each file is added
   * under its bare name (a flat archive). A file that is not in the directory makes
   * `zipf.write` raise; the error carries the first such name.
   */
  method ZipTiles<G>(prefix: string, kmlFiles: seq<string>, dir: map<string, File<G>>)
    returns (r: Result<Archive<G>, string>)
    ensures r.Ok? <==> forall i :: 0 <= i < |kmlFiles| ==> kmlFiles[i] in dir
    ensures r.Ok? ==>
              && r.value.name == ArchiveName(prefix)
              && |r.value.entries| == |kmlFiles|
              && forall i :: 0 <= i < |kmlFiles| ==> r.value.entries[i] == (kmlFiles[i], dir[kmlFiles[i]])
    ensures r.Err? ==>
              exists i :: 0 <= i < |kmlFiles| && kmlFiles[i] == r.error && kmlFiles[i] !in dir
                          && forall j :: 0 <= j < i ==> kmlFiles[j] in dir
  {
    var entries: seq<(string, File<G>)> := [];
    for i := 0 to |kmlFiles|
      invariant |entries| == i
      invariant forall j :: 0 <= j < i ==> kmlFiles[j] in dir && entries[j] == (kmlFiles[j], dir[kmlFiles[j]])
    {
      var fileName := kmlFiles[i];
      if fileName !in dir {
        return Err(fileName);
      }
      entries := entries + [(fileName, dir[fileName])];
    }
    r := Ok(Archive(ArchiveName(prefix), entries));
  }

  /**
   * The directory after packaging: the tiles, each still holding its own geometry,
   * and next to them the archive under its own name.
   */
  ghost predicate Packaged<G>(prefix: string, buffered: seq<G>, dir: map<string, File<G>>, archive: Archive<G>)
  {
    && dir.Keys == (set idx | 0 <= idx < |buffered| :: TileName(prefix, idx)) + {ArchiveName(prefix)}
    && (forall idx :: 0 <= idx < |buffered| ==> dir[TileName(prefix, idx)] == Tile(buffered[idx]))
    && dir[ArchiveName(prefix)] == Zip(archive)
  }

  /** What the naming part of `upload` leaves behind for the caller. */
  datatype Exported<G> = Exported(links: seq<string>, kmlFiles: seq<string>, dir: map<string, File<G>>, archive: Archive<G>)

  /**
   * The naming and packaging steps of `upload` in order: download links, tile files,
   * archive. Every tile file is written before the archive is built, so zipping
   * cannot miss a file, and the archive, created in the same directory, overwrites
   * no tile. Tiles, links and archive entries are index-aligned: position idx holds
   * `{prefix}_polygon_{idx}.kml` and the archive entry carries buffered polygon idx.
   */
  method Export<G>(prefix: string, buffered: seq<G>) returns (x: Exported<G>)
    ensures && |x.links| == |x.kmlFiles| == |x.archive.entries| == |buffered|
            && x.archive.name == ArchiveName(prefix)
            && Packaged(prefix, buffered, x.dir, x.archive)
            && forall idx :: 0 <= idx < |buffered| ==>
                 && x.links[idx] == x.kmlFiles[idx] == TileName(prefix, idx)
                 && x.archive.entries[idx] == (TileName(prefix, idx), Tile(buffered[idx]))
  {
    var links := DownloadLinks(prefix, |buffered|);
    var kmlFiles, dir := WriteTiles(prefix, buffered);
    var zipped := ZipTiles(prefix, kmlFiles, dir);
    assert zipped.Ok?;
    forall idx | 0 <= idx < |buffered|
      ensures TileName(prefix, idx) != ArchiveName(prefix)
    {
      ArchiveIsNotATile(prefix, idx);
    }
    x := Exported(links, kmlFiles, dir[ArchiveName(prefix) := Zip(zipped.value)], zipped.value);
  }
}
