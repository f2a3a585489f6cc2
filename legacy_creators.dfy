/**
 * The older copies in download_archives.py that differ from texlive/: `get_file_archive_name`,
 * which ignores its argument, and `create_maps`, whose gate on a list-valued `execute` is a
 * list membership test and whose `parse_string` knows no KanjiMap. The old `create_fmts`,
 * `write_contents_file` and `get_url_for_package` are the same code as their texlive/
 * counterparts and are modelled there.
 */
module LegacyCreators {
  import opened Text
  import opened Tlpdb
  import opened Sorting
  import opened FileCreator
  import Utils

  /** The old `get_file_archive_name(pacakge)`: the name is fixed apart from the date. */
  function LegacyArchiveName(package: string, version: string): string {
    "texlive-core-" + version + ".tar.xz"
  }

  /**
   * Every package gets the same old archive name, and for every package but texlive-core
   * it is not the name the argument asks for.
   */
  lemma LegacyArchiveNameIgnoresPackage(a: string, b: string, version: string)
    ensures LegacyArchiveName(a, version) == LegacyArchiveName(b, version)
    ensures LegacyArchiveName(a, version) == Utils.ArchiveName(a, version) <==> a == "texlive-core"
  {
    var fixed, asked := LegacyArchiveName(a, version), Utils.ArchiveName(a, version);
    if fixed == asked {
      assert |a| == 12;
      assert a == asked[..12] == fixed[..12] == "texlive-core";
    }
  }

  // ---------------------------------------------------------------------------
  // The old create_maps

  /** The old `parse_string`: MixedMap before Map; None for anything else. */
  function LegacyMapLine(e: string): Option<string> {
    if Contains(e, "addMixedMap") then MapSearch(e, "MixedMap")
    else if Contains(e, "addMap") then MapSearch(e, "Map")
    else None
  }

  /** `"addMap" in temp or "addMixedMap" in temp`: a substring test on a string, membership on a list. */
  predicate LegacyGate(v: Value) {
    match v
    case Single(s) => Contains(s, "addMap") || Contains(s, "addMixedMap")
    case Multi(items) => "addMap" in items || "addMixedMap" in items
  }

  /** Once the gate passes, every entry goes through `parse_string`; `+= None` raises TypeError. */
  function LegacyEntriesMaps(es: seq<string>): Result<string> {
    if es == [] then Ok("")
    else
      match LegacyEntriesMaps(es[..|es| - 1])
      case Err(err) => Err(err)
      case Ok(s) =>
        match LegacyMapLine(es[|es| - 1])
        case None => Err(TypeError)
        case Some(l) => Ok(s + l + "\n")
  }

  function LegacyPackageMaps(rec: Record): Result<string> {
    if "execute" in rec && LegacyGate(rec["execute"]) then LegacyEntriesMaps(Entries(rec["execute"]))
    else Ok("")
  }

  function LegacyMapsRaw(ps: Packages): Result<string> {
    if ps == [] then Ok("")
    else
      match LegacyMapsRaw(ps[..|ps| - 1])
      case Err(err) => Err(err)
      case Ok(s) =>
        match LegacyPackageMaps(ps[|ps| - 1].1)
        case Err(err) => Err(err)
        case Ok(t) => Ok(s + t)
  }

  /** The text the old `create_maps` writes, or the TypeError it raises. */
  function LegacyMapsText(ps: Packages): Result<string> {
    match LegacyMapsRaw(ps)
    case Err(err) => Err(err)
    case Ok(raw) => Ok(SortLines(raw))
  }

  lemma LegacyEntriesMapsStep(es: seq<string>, j: nat)
    requires j < |es|
    ensures LegacyEntriesMaps(es[..j + 1]) ==
      match LegacyEntriesMaps(es[..j])
      case Err(err) => Err(err)
      case Ok(s) =>
        match LegacyMapLine(es[j])
        case None => Err(TypeError)
        case Some(l) => Ok(s + l + "\n")
  {
    assert es[..j + 1][..j] == es[..j];
  }

  lemma {:induction false} LegacyEntriesMapsErrPersists(es: seq<string>, j: nat)
    requires j <= |es| && LegacyEntriesMaps(es[..j]).Err?
    ensures LegacyEntriesMaps(es) == LegacyEntriesMaps(es[..j])
    decreases |es| - j
  {
    if j < |es| {
      LegacyEntriesMapsStep(es, j);
      LegacyEntriesMapsErrPersists(es, j + 1);
    } else {
      assert es[..j] == es;
    }
  }

  /** The body of the old loop over packages. */
  method LegacyPackageMapLines(tempPkg: Record) returns (r: Result<string>)
    ensures r == LegacyPackageMaps(tempPkg)
  {
    if "execute" !in tempPkg {
      return Ok("");
    }
    var temp := tempPkg["execute"];
    var gate := match temp
      case Single(s) => Contains(s, "addMap") || Contains(s, "addMixedMap")
      case Multi(items) => "addMap" in items || "addMixedMap" in items;
    if !gate {
      return Ok("");
    }
    var es := Entries(temp);
    var finalFile := "";
    for j := 0 to |es|
      invariant LegacyEntriesMaps(es[..j]) == Ok(finalFile)
    {
      LegacyEntriesMapsStep(es, j);
      var line := LegacyMapLine(es[j]);
      if line.None? {
        LegacyEntriesMapsErrPersists(es, j + 1);
        return Err(TypeError);
      }
      finalFile := finalFile + line.value;
      finalFile := finalFile + "\n";
    }
    assert es[..|es|] == es;
    return Ok(finalFile);
  }

  lemma LegacyMapsRawStep(ps: Packages, p: nat)
    requires p < |ps|
    ensures LegacyMapsRaw(ps[..p + 1]) ==
      match LegacyMapsRaw(ps[..p])
      case Err(err) => Err(err)
      case Ok(s) =>
        match LegacyPackageMaps(ps[p].1)
        case Err(err) => Err(err)
        case Ok(t) => Ok(s + t)
  {
    assert ps[..p + 1][..p] == ps[..p];
  }

  lemma {:induction false} LegacyMapsRawErrPersists(ps: Packages, p: nat)
    requires p <= |ps| && LegacyMapsRaw(ps[..p]).Err?
    ensures LegacyMapsRaw(ps) == LegacyMapsRaw(ps[..p])
    decreases |ps| - p
  {
    if p < |ps| {
      LegacyMapsRawStep(ps, p);
      LegacyMapsRawErrPersists(ps, p + 1);
    } else {
      assert ps[..p] == ps;
    }
  }

  /** The imperative old `create_maps`, returning the text instead of writing it. */
  method LegacyCreateMaps(ps: Packages) returns (r: Result<string>)
    ensures r == LegacyMapsText(ps)
  {
    var finalFile := "";
    for p := 0 to |ps|
      invariant LegacyMapsRaw(ps[..p]) == Ok(finalFile)
    {
      LegacyMapsRawStep(ps, p);
      var lines := LegacyPackageMapLines(ps[p].1);
      if lines.Err? {
        LegacyMapsRawErrPersists(ps, p + 1);
        return Err(lines.error);
      }
      finalFile := finalFile + lines.value;
    }
    assert ps[..|ps|] == ps;
    var tempLines := Split(finalFile, '\n');
    tempLines := SortStrings(tempLines);
    finalFile := Join("\n", tempLines);
    return Ok(finalFile);
  }

  // ---------------------------------------------------------------------------
  // What the old gate does to lists

  /** Some entry has no map line in the old `parse_string`. */
  predicate SomeWithoutLine(es: seq<string>) {
    exists i :: 0 <= i < |es| && LegacyMapLine(es[i]).None?
  }

  /** Once past the gate, the entries fail exactly when one of them has no map line. */
  lemma {:induction false} LegacyEntriesMapsError(es: seq<string>)
    ensures LegacyEntriesMaps(es).Err? <==> SomeWithoutLine(es)
    ensures LegacyEntriesMaps(es).Err? ==> LegacyEntriesMaps(es).error == TypeError
  {
    if es != [] {
      LegacyEntriesMapsError(es[..|es| - 1]);
      NoLineSnoc(es);
    }
  }

  lemma NoLineSnoc(es: seq<string>)
    requires es != []
    ensures SomeWithoutLine(es) <==> SomeWithoutLine(es[..|es| - 1]) || LegacyMapLine(es[|es| - 1]).None?
  {
    var pre := es[..|es| - 1];
    if SomeWithoutLine(pre) {
      var i :| 0 <= i < |pre| && LegacyMapLine(pre[i]).None?;
      assert es[i] == pre[i];
    }
    if SomeWithoutLine(es) {
      var i :| 0 <= i < |es| && LegacyMapLine(es[i]).None?;
      if i < |pre| { assert pre[i] == es[i]; }
    }
  }

  /** The entries that open the old gate are the bare markers, and they have no map line. */
  lemma BareMarkersHaveNoLine()
    ensures LegacyMapLine("addMap").None?
    ensures LegacyMapLine("addMixedMap").None?
  {
    assert OccursAt("addMixedMap", "addMixedMap", 0);
    ContainsPrefix("addMap", "addMap");
  }

  /**
   * The old `create_maps` never writes a line for a package whose `execute` is a list: the
   * package is either skipped, because no entry is exactly a bare marker, or makes the whole
   * run fail with TypeError, because the bare marker that opened the gate has no map line.
   */
  lemma LegacyListNeverWritten(rec: Record)
    requires "execute" in rec && rec["execute"].Multi?
    ensures LegacyPackageMaps(rec) == Ok("") || LegacyPackageMaps(rec) == Err(TypeError)
    ensures LegacyPackageMaps(rec) == Err(TypeError) <==> LegacyGate(rec["execute"])
  {
    var items := rec["execute"].items;
    if LegacyGate(rec["execute"]) {
      BareMarkersHaveNoLine();
      var i :| 0 <= i < |items| && (items[i] == "addMap" || items[i] == "addMixedMap");
      LegacyEntriesMapsError(items);
    }
  }

  // ---------------------------------------------------------------------------
  // A package the old code drops and the new code keeps

  /** A package whose `execute` list holds one real map entry. */
  const OneMap: Record := map["execute" := Multi(["addMap a.map"])]

  lemma NotMixedMap()
    ensures !Contains("addMap a.map", "addMixedMap")
  {
    var e, p := "addMap a.map", "addMixedMap";
    forall i | 0 <= i <= |e| - |p| ensures !OccursAt(e, p, i) {
      if i == 0 {
        assert e[0..11][4] == 'a' && p[4] == 'i';
      } else {
        assert e[1..12][0] == 'd' && p[0] == 'a';
      }
    }
  }

  lemma MapLineOfEntry()
    ensures MapLine("addMap a.map") == Some("Map a.map")
  {
    var e := "addMap a.map";
    NotMixedMap();
    ContainsPrefix(e, "addMap");
    assert OccursAt(e, "addMap", 0);
    assert SearchFrom(e, "addMap", 0) == Some(0);
    LineEndAt(e, 7, |e|);
    assert e[3..12] == "Map a.map";
  }

  lemma OneMapPackage()
    ensures PackageMaps(OneMap) == Ok("Map a.map\n")
  {
    var e := "addMap a.map";
    MapLineOfEntry();
    ContainsPrefix(e, "addMap");
    assert [e][..0] == [];
    EntriesMapsStep([e], 0);
    assert [e][..1] == [e];
    assert IsMapEntry(e);
    assert EntriesMaps([e]) == Ok("" + "Map a.map" + "\n");
    assert Entries(OneMap["execute"]) == [e];
    assert "" + "Map a.map" + "\n" == "Map a.map\n";
  }

  lemma OneMapRaw()
    ensures MapsRaw([("pkg", OneMap)]) == Ok(Unlines(["Map a.map"]))
  {
    OneMapPackage();
    var ps := [("pkg", OneMap)];
    assert ps[..0] == [];
    MapsRawStep(ps, 0);
    assert ps[..1] == ps;
    assert Unlines(["Map a.map"]) == "Map a.map" + "\n" + "";
    assert Unlines(["Map a.map"]) == "" + "Map a.map\n";
  }

  lemma OneMapNew()
    ensures PackageMaps(OneMap) == Ok("Map a.map\n")
    ensures MapsText([("pkg", OneMap)]) == Ok("\n" + "Map a.map")
  {
    OneMapPackage();
    OneMapRaw();
    OneMapSorted();
  }

  lemma OneMapSorted()
    ensures SortLines(Unlines(["Map a.map"])) == "\n" + "Map a.map"
  {
    assert '\n' !in "Map a.map";
    SortOneLine("Map a.map");
  }

  /** A single line sorts after the empty piece that follows its line break. */
  lemma SortOneLine(l: string)
    requires '\n' !in l
    ensures SortLines(Unlines([l])) == "\n" + l
  {
    SortLinesOfLines([l]);
    assert SortStrings([l]) == [l] by {
      assert [l][1..] == [];
    }
    assert Join("\n", [l]) == l;
  }

  lemma OneMapOld()
    ensures LegacyPackageMaps(OneMap) == Ok("")
    ensures LegacyMapsText([("pkg", OneMap)]) == Ok("")
  {
    assert "addMap" !in ["addMap a.map"];
    assert "addMixedMap" !in ["addMap a.map"];
    var ps := [("pkg", OneMap)];
    assert ps[..0] == [];
    LegacyMapsRawStep(ps, 0);
    assert ps[..1] == ps;
    SortLinesEmpty();
  }

  /** The old gate drops a package with a real map entry in a list, which the new code writes out. */
  lemma LegacyDropsMapList()
    ensures LegacyMapsText([("pkg", OneMap)]) == Ok("")
    ensures MapsText([("pkg", OneMap)]) == Ok("\n" + "Map a.map")
  {
    OneMapOld();
    OneMapNew();
  }
}
