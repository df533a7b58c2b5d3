/**
 * Decimal rendering of a non-negative integer, as Python's `str(idx)` inside the
 * f-strings of app.py, together with its inverse.
 */
module Decimal {

  predicate IsDigit(c: char)
  {
    '0' <= c <= '9'
  }

  function Digit(d: nat): (c: char)
    requires d < 10
    ensures IsDigit(c)
  {
    ('0' as int + d) as char
  }

  function DigitValue(c: char): nat
  {
    if IsDigit(c) then (c as int - '0' as int) else 0
  }

  /** `str(n)` for n >= 0: its decimal digits, most significant first, no leading zero. */
  function NatToString(n: nat): (s: string)
    ensures |s| >= 1
    ensures forall k :: 0 <= k < |s| ==> IsDigit(s[k])
    ensures s[0] == '0' ==> n == 0
  {
    if n < 10 then [Digit(n)] else NatToString(n / 10) + [Digit(n % 10)]
  }

  /** The value of a string of decimal digits, most significant first. */
  function ParseDecimal(s: string): nat
  {
    if s == [] then 0 else ParseDecimal(s[..|s| - 1]) * 10 + DigitValue(s[|s| - 1])
  }

  /** Round trip: reading back the digits of `str(n)` gives n. */
  lemma {:induction false} ParseNatToString(n: nat)
    ensures ParseDecimal(NatToString(n)) == n
  {
    var s := NatToString(n);
    if n < 10 {
      assert s[..|s| - 1] == [];
    } else {
      ParseNatToString(n / 10);
      assert s[..|s| - 1] == NatToString(n / 10);
    }
  }
}

/**
 * The names that `upload` in app.py gives to the per-tile files, their download
 * links and their archive. Every name is built from the user's prefix and the
 * tile's position in the buffered collection.
 */
module TileNames {
  import opened Wrappers
  import opened Decimal

  const PolygonInfix: string := "_polygon_"
  const KmlSuffix: string := ".kml"
  const ArchiveSuffix: string := "_Grids_KML.zip"

  /**
   * f"{grid_prefix}_polygon_{idx}.kml": the prefix, the infix, the decimal digits
   * of idx and the KML extension.
   */
  function TileName(prefix: string, idx: nat): (name: string)
    ensures var digitsEnd := |name| - |KmlSuffix|;
            && |name| > |prefix| + |PolygonInfix| + |KmlSuffix|
            && name[..|prefix|] == prefix
            && name[|prefix|..|prefix| + |PolygonInfix|] == PolygonInfix
            && (forall k :: |prefix| + |PolygonInfix| <= k < digitsEnd ==> IsDigit(name[k]))
            && name[digitsEnd..] == KmlSuffix
  {
    prefix + PolygonInfix + NatToString(idx) + KmlSuffix
  }

  /** f"{grid_prefix}_Grids_KML.zip": the prefix followed by the archive suffix. */
  function ArchiveName(prefix: string): (name: string)
    ensures |name| == |prefix| + |ArchiveSuffix|
    ensures name[..|prefix|] == prefix && name[|prefix|..] == ArchiveSuffix
  {
    prefix + ArchiveSuffix
  }

  /**
   * The `kml_file` argument of each download link, one per buffered polygon
   * (the list comprehension over range(len(buffered_gdf))).
   */
  function DownloadLinks(prefix: string, n: nat): (links: seq<string>)
    ensures |links| == n
    ensures forall idx :: 0 <= idx < n ==> links[idx] == TileName(prefix, idx)
  {
    seq(n, idx requires 0 <= idx => TileName(prefix, idx))
  }

  /** Recovers the index from a tile name of the given prefix, if it is one. */
  function ParseTileName(prefix: string, name: string): (r: Option<nat>)
    ensures r.Some? ==> TileName(prefix, r.value) == name
  {
    var start := |prefix| + |PolygonInfix|;
    if |name| < start + |KmlSuffix| then None
    else
      var idx := ParseDecimal(name[start..|name| - |KmlSuffix|]);
      if TileName(prefix, idx) == name then Some(idx) else None
  }

  /** Round trip: the index of a tile can be read back from its name. */
  lemma TileNameRoundTrip(prefix: string, idx: nat)
    ensures ParseTileName(prefix, TileName(prefix, idx)) == Some(idx)
  {
    var name := TileName(prefix, idx);
    var start := |prefix| + |PolygonInfix|;
    assert name[start..|name| - |KmlSuffix|] == NatToString(idx);
    ParseNatToString(idx);
  }

  /** Tile names are pairwise distinct: no tile file overwrites another. */
  lemma TileNamesDistinct(prefix: string, i: nat, j: nat)
    ensures TileName(prefix, i) == TileName(prefix, j) <==> i == j
  {
    TileNameRoundTrip(prefix, i);
    TileNameRoundTrip(prefix, j);
  }

  /** The archive, written into the same directory, never carries a tile's name. */
  lemma ArchiveIsNotATile(prefix: string, idx: nat)
    ensures ArchiveName(prefix) != TileName(prefix, idx)
  {
    var a, t := ArchiveName(prefix), TileName(prefix, idx);
    if |a| == |t| {
      assert a[|a| - 1] == 'p' && t[|t| - 1] == 'l';
    }
  }

  /**
   * The download links: one per buffered polygon, link idx naming tile idx, and no
   * two links alike.
   */
  lemma DownloadLinksIndexed(prefix: string, n: nat)
    ensures |DownloadLinks(prefix, n)| == n
    ensures forall idx :: 0 <= idx < n ==>
              ParseTileName(prefix, DownloadLinks(prefix, n)[idx]) == Some(idx)
    ensures forall i, j :: 0 <= i < j < n ==> DownloadLinks(prefix, n)[i] != DownloadLinks(prefix, n)[j]
  {
    forall idx | 0 <= idx < n
      ensures ParseTileName(prefix, DownloadLinks(prefix, n)[idx]) == Some(idx)
    {
      TileNameRoundTrip(prefix, idx);
    }
    forall i, j | 0 <= i < j < n
      ensures DownloadLinks(prefix, n)[i] != DownloadLinks(prefix, n)[j]
    {
      TileNamesDistinct(prefix, i, j);
    }
  }
}
