# Grid tiling and KML export, modelled in Dafny

The application takes an area of interest and tiles its bounding box with a
square grid. It then clips and buffers the tiles and exports each buffered tile as
its own KML file, plus one ZIP archive holding all of them. The browser side can
also turn drawn GeoJSON features into a KML document. This project models three
parts of that system and proves properties about them:

- **Grid generation** (`create_grid` in app.py), module `Grid` in `grid.dfy`.
  An extent `(minx, miny, maxx, maxy)` and a grid size `g` are given. Two nested
  loops step x, and inside it y, from the minimum corner by `g`. Each loop runs
  while the counter is strictly below the far edge, and every step emits one
  square. `CreateGrid` is written with these loops. It is proved to return the
  squares of a specification sequence, `Cells`. Lemmas about `Cells` prove:
  - the cell count, `ceil(width/g) * ceil(height/g)`, or zero for a degenerate extent;
  - the column-major order;
  - exactly which lattice cells are emitted;
  - how far the last row and column can overshoot the extent;
  - that the cells cover the extent;
  - that no two cells' interiors overlap.
- **Tile naming and packaging** (`upload` in app.py), modules `Decimal` and
  `TileNames` in `naming.dfy`, and module `TileExport` in `export.dfy`.
  - Download links and tile files are named `{prefix}_polygon_{idx}.kml`.
  - The archive is named `{prefix}_Grids_KML.zip`.
  - `str(idx)` is modelled by a decimal rendering with a proved inverse. So the
    index can be read back from a tile name, and tile names are pairwise distinct.
  - The tile directory is a map from file name to content.
  - `WriteTiles`, `ZipTiles` and `Export` follow the source's loops. They are
    proved to write exactly one file per buffered polygon, under its own name.
    The archive has one entry per tile, in order, each carrying that tile's polygon.
- **GeoJSON to KML** (`geojson2kml` in static/js/script.js), module `Kml` in
  `kml.dfy`, with modules `GeoJson` (`geojson.dfy`) and `Text` (`text.dfy`).
  - A specification function `Document` gives the exact output text, or the
    TypeError the JavaScript throws.
  - `GeoJsonToKml` builds the text as the source does: it appends a header, one
    Placemark per feature, then a footer. It is proved to return exactly `Document`.
  - Lemmas prove:
    - the document framing;
    - which inputs fail, and that the first failing feature decides the error;
    - the shape of each Placemark;
    - the tag choice for circles;
    - the "Unnamed" and empty defaults;
    - that polygon holes are dropped;
    - that the 64-vertex circle ring is closed;
    - that the coordinate text splits back into its numbers.

`wrappers.dfy` holds the `Option` and `Result` types.

`create_grid` uses one `grid_size` for both sides of every cell, and it checks
neither the size nor the extent. Its loops terminate exactly when the size is
positive or the extent has no width (`maxx <= minx`, where the outer test fails at
once and the result is empty for any size). `CreateGrid` requires exactly that.

## Model

| member | source | states |
|---|---|---|
| Grid.CreateGrid | app.py:13-29 | The nested `while x < maxx` / `while y < maxy` loops append, in order, exactly the squares `(x,y),(x+g,y),(x+g,y+g),(x,y+g)` of `Cells(e, g)` when `g > 0`; an extent with `maxx <= minx` gives no polygons for any size; the loops terminate on every input allowed |
| Grid.Square | app.py:22-24 | The ring has 4 vertices and starts at the cell's origin; its edges are axis-aligned and go +g in x, +g in y, -g in x, -g in y |
| Grid.Ceil | app.py:18-20 | `n` is the least integer not below `r`: this is how many times a loop stepping from 0 by 1 runs while its counter is below `r` |
| Grid.CoordIsProduct | app.py:25-26 | The counter after k steps of `+= g` from `lo` equals `lo + k*g` |
| Grid.CoordMono | app.py:25-26 | A later counter value is at least one step `g` above an earlier one |
| Grid.StepsExact | app.py:17-20 | Counter value k is still below the far edge exactly when `k < Steps(lo, hi, g)`, which is `ceil((hi-lo)/g)`, or 0 when `hi <= lo` |
| Grid.CellCount | app.py:17-26 | The number of emitted cells is `cols * rows`, which is `ceil((maxx-minx)/g) * ceil((maxy-miny)/g)` when the extent is non-degenerate; a zero or negative width or height gives no cells |
| Grid.CellIndex | app.py:17-26 | Column-major order: cell k is the cell in column `k / rows` and row `k % rows`, and both indices are in range |
| Grid.CellPosition | app.py:17-26 | Column i, row j is emitted at position `i * rows + j` |
| Grid.CellMembership | app.py:17-26 | A cell is emitted if and only if it is the lattice cell `(minx + i*g, miny + j*g)` for some i, j whose origin lies strictly below `(maxx, maxy)` |
| Grid.CellOrder | app.py:17-26 | If k < l, cell k's origin is lexicographically before cell l's: smaller x, or the same x and smaller y. So no cell is emitted twice |
| Grid.CellBounds | app.py:17-26 | Every cell has side g; its origin lies in `[minx, maxx) × [miny, maxy)`; its far corner lies below `(maxx + g, maxy + g)` |
| Grid.CoveringCell | app.py:17-26 | For a non-degenerate extent, every point of the closed extent lies in the closed square of some emitted cell |
| Grid.InteriorsDisjoint | app.py:17-26 | No point lies in the interiors of two distinct emitted cells |
| Grid.ExampleLattice | app.py:13-29 | The extent (0,0,250,250) with g = 100 gives the 3 × 3 lattice with origins in {0,100,200}², column by column |
| Decimal.NatToString | app.py:108 | `str(idx)` for idx ≥ 0 is a non-empty string of decimal digits with no leading zero |
| Decimal.ParseNatToString | app.py:108 | Reading back the digits of `str(n)` gives n |
| TileNames.TileName | app.py:108 | The name `f"{grid_prefix}_polygon_{idx}.kml"`: it starts with the prefix and `_polygon_`, then has only decimal digits (those of `str(idx)`), and ends with `.kml` |
| TileNames.ArchiveName | app.py:114 | The name `f"{grid_prefix}_Grids_KML.zip"`: the prefix followed by `_Grids_KML.zip` |
| TileNames.DownloadLinks | app.py:93-96 | The list comprehension over `range(len(buffered_gdf))`: n names, link idx being `TileName(prefix, idx)` |
| TileNames.ParseTileName | app.py:94 | Any index recovered from a name renders back to that same name |
| TileNames.TileNameRoundTrip | app.py:108 | The index of tile `{prefix}_polygon_{idx}.kml` can be recovered from its name |
| TileNames.TileNamesDistinct | app.py:106-111 | Two tile names with one prefix are equal if and only if their indices are equal, so no tile file overwrites another |
| TileNames.ArchiveIsNotATile | app.py:114-115 | The archive name `{prefix}_Grids_KML.zip` never equals a tile name in the same directory, so creating the archive overwrites no tile |
| TileNames.DownloadLinksIndexed | app.py:93-96 | There is one download link per buffered polygon; link idx names tile idx; no two links are equal |
| TileExport.WriteTiles | app.py:102-111 | `kml_files` is the list of tile names in index order; the fresh directory holds exactly those files, and file idx holds buffered polygon idx |
| TileExport.ZipTiles | app.py:113-117 | Zipping succeeds exactly when every listed file exists; the archive `{prefix}_Grids_KML.zip` then has one entry per file, named as listed, in list order, with that file's content; otherwise the error names the first missing file |
| TileExport.Export | app.py:93-117 | Links, tile files and archive entries are index-aligned with the buffered polygons; the archive is always complete; afterwards the directory holds exactly the tiles, unchanged, and the archive under its own name |
| Kml.GeoJsonToKml | static/js/script.js:253-321 | Appending the header, each feature's Placemark and the footer returns exactly `Document(features)`; the first TypeError aborts |
| Kml.AppendPlacemark | static/js/script.js:261-314 | One `forEach` callback extends `kml` by that feature's Placemark, or fails with the feature's TypeError |
| Kml.BuildCircleRing | static/js/script.js:276-288 | The circle loop pushes vertices 0..63 and then vertex 0 again |
| Kml.PointAndLineString | static/js/script.js:294-299 | A Point without a truthy radius is written as one `coordinates` element with its numbers joined by `,`; a LineString as one `coordinates` element with its positions joined by ` ` |
| Kml.CircleRingClosed | static/js/script.js:276-288 | The circle ring has 65 entries; entry k is vertex k; the last entry equals the first |
| Kml.DocumentFraming | static/js/script.js:255-318 | The conversion succeeds exactly when every Placemark does; the document is then header + Placemarks + footer; it starts with the XML declaration, `<kml xmlns="http://www.opengis.net/kml/2.2">` and `<Document>`, and ends with `</Document>\n</kml>`; no features gives header and footer only |
| Kml.PlacemarksError | static/js/script.js:261-314 | The Placemarks fail exactly when some feature fails, and the error is the one of the first failing feature |
| Kml.PlacemarksConcat | static/js/script.js:261-314 | The Placemarks of a concatenation of feature lists are the concatenation of their Placemarks |
| Kml.PlacemarkShape | static/js/script.js:262-313 | A Placemark fails exactly on null properties, null geometry, or a Polygon with no rings; otherwise it is the opening with name, description and geometry tag, a body, and the closing of the same tag |
| Kml.TagChoice | static/js/script.js:266-268 | The geometry tag is `Polygon` exactly for a circle (a Point with a truthy radius) or a Polygon; otherwise it is the geometry's own type |
| Kml.NameAndDescription | static/js/script.js:264-265 | A falsy name gives `Unnamed` and a falsy description gives the empty string; a non-empty string name, and any string description, are inserted verbatim |
| Kml.PolygonDropsHoles | static/js/script.js:300-307 | A Polygon is written with its exterior ring only, inside `outerBoundaryIs`/`LinearRing`; interior rings do not change the output |
| Kml.OtherTypesEmpty | static/js/script.js:266-313 | Any other geometry type gives an empty element: its tag is opened and closed with nothing between |
| Kml.CoordinatesRoundTrip | static/js/script.js:294-305 | Splitting a position's text at commas gives back the numbers' texts; splitting a LineString's or ring's text at spaces gives back each position's text (when numbers contain neither separator) |
| Text.SplitJoin | static/js/script.js:297-299 | `split(c)` inverts `join(c)` on a non-empty list whose items do not contain c |

## Left out

- Reading the uploaded KML, the empty-input check, reprojection to EPSG:32646 and `total_bounds` (app.py:47-61). These are geopandas/GDAL I/O; the extent is an input of `CreateGrid`.
- The intersection overlay and the buffer (app.py:67, 84-85). These are computational geometry in geopandas/shapely. Buffered polygons are an opaque type parameter `G`.
- Writing the GeoJSON layers and the KML encoding of each tile (app.py:70-90, 99, 110). A tile file holds the polygon itself, not KML bytes.
- ZIP compression and byte layout (app.py:115-117). The archive is modelled as its name and its ordered entry list.
- `url_for` (app.py:94). A link is modelled as its `kml_file` argument; the route URL is not modelled. The endpoint `download_grid` it names is not registered in app.py, which defines only `upload` (app.py:33-35). `TileExport.Export` presumes that `url_for` succeeds, as it does when the endpoint is registered elsewhere; otherwise it raises before any tile is written.
- Flask request parsing, the session and the temporary directory's random name. These are I/O and framework state.
- TileExport.WriteTiles: the prefix is assumed to be a plain file-name component with no path separator. The source takes it verbatim from the form (app.py:40) and joins it to the directory (app.py:109, 114, 117). An absolute prefix such as `/tmp/p` makes `os.path.join` drop the fresh directory, so the tiles and archive are written elsewhere, and zipfile strips the leading `/` from entry names. A prefix such as `a/b` makes the write at app.py:110 raise, because the sub-directory does not exist. The model keys a flat directory by the raw name and always succeeds.
- Grid.CreateGrid: coordinates are exact reals, so the floating-point drift of repeated `+= grid_size` is not modelled. `grid_size` is generalised from `int` to any real. A non-positive size with `minx < maxx`, on which the source loops forever, is excluded by `requires g > 0 || maxx <= minx`.
- Grid.CreateGrid: the shapely `Polygon` and `GeoDataFrame` wrapping with CRS EPSG:32646 is reduced to the list of vertex rings.
- Kml.GeoJsonToKml: JavaScript's number-to-string conversion and the circle vertex text are parameters (`Formatting`). The trigonometry of the circle approximation (`Math.cos`, `Math.sin`, the 111320 m/degree factor) is therefore not modelled, only which vertices appear and in what order.
- Kml.GeoJsonToKml: NaN and infinities, object and array values (they are reduced to their string form), and other malformed GeoJSON beyond null geometry, null properties and a ringless Polygon.
- Kml.GeoJsonToKml: the Blob, download link and DOM code that call `geojson2kml`, and the Leaflet map code.
