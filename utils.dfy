/**
 * The string builders of texlive/utils.py: the archive name, the URL of a package's
 * archive on a mirror, and the text of the CONTENTS manifest. The date the archive name
 * carries is a parameter instead of a clock read.
 */
module Utils {
  import opened Text
  import opened Tlpdb

  /** `get_file_archive_name(package)`, with `time.strftime("%Y%m%d")` passed in as `version`. */
  function ArchiveName(package: string, version: string): string {
    package + "-" + version + ".tar.xz"
  }

  /** The archive name starts with the package, a dash and the version, and ends in ".tar.xz". */
  lemma ArchiveNameShape(package: string, version: string)
    ensures var r := ArchiveName(package, version);
      && |r| == |package| + |version| + 8
      && r[..|package|] == package
      && r[|package|] == '-'
      && r[|package| + 1..|package| + 1 + |version|] == version
      && r[|r| - 7..] == ".tar.xz"
  {
  }

  /** For one version, different packages get different archive names. */
  lemma ArchiveNameInjective(a: string, b: string, version: string)
    requires ArchiveName(a, version) == ArchiveName(b, version)
    ensures a == b
  {
    var r := ArchiveName(a, version);
    assert |a| == |b|;
    assert a == r[..|a|];
    assert b == r[..|b|];
  }

  /** `get_url_for_package(pkgname, mirror_url)`; `mirror_url[-1]` raises IndexError on an empty mirror. */
  function UrlForPackage(pkgname: string, mirrorUrl: string): (r: Result<string>)
    ensures r.Err? <==> mirrorUrl == []
    ensures r.Err? ==> r.error == IndexError
  {
    if |mirrorUrl| == 0 then Err(IndexError)
    else if mirrorUrl[|mirrorUrl| - 1] == '/' then Ok(mirrorUrl + "archive/" + pkgname + ".tar.xz")
    else Ok(mirrorUrl + "/archive/" + pkgname + ".tar.xz")
  }

  /**
   * The URL is the mirror, then "archive/" behind a slash (the mirror's own trailing
   * slash when it has one), then the package and ".tar.xz".
   */
  lemma UrlForPackageShape(pkgname: string, mirrorUrl: string)
    requires |mirrorUrl| > 0
    ensures var r, tail := UrlForPackage(pkgname, mirrorUrl).value, "archive/" + pkgname + ".tar.xz";
      && |r| > |tail|
      && r[|r| - |tail|..] == tail
      && r[|r| - |tail| - 1] == '/'
      && r[..|mirrorUrl|] == mirrorUrl
      && (mirrorUrl[|mirrorUrl| - 1] == '/' <==> |r| == |mirrorUrl| + |tail|)
  {
    var r, tail := UrlForPackage(pkgname, mirrorUrl).value, "archive/" + pkgname + ".tar.xz";
    if mirrorUrl[|mirrorUrl| - 1] == '/' {
      assert r == mirrorUrl + tail;
    } else {
      assert r == (mirrorUrl + "/") + tail;
    }
  }

  /** A mirror without its trailing slash gives the same URL as with it. */
  lemma UrlForPackageSlash(pkgname: string, mirrorUrl: string)
    requires |mirrorUrl| > 0 && mirrorUrl[|mirrorUrl| - 1] != '/'
    ensures UrlForPackage(pkgname, mirrorUrl) == UrlForPackage(pkgname, mirrorUrl + "/")
  {
    var slashed := mirrorUrl + "/";
    assert slashed[|slashed| - 1] == '/';
    assert slashed + "archive/" + pkgname + ".tar.xz" == mirrorUrl + "/archive/" + pkgname + ".tar.xz";
  }

  /** On one mirror, different packages get different URLs. */
  lemma UrlForPackageInjective(a: string, b: string, mirrorUrl: string)
    requires |mirrorUrl| > 0
    requires UrlForPackage(a, mirrorUrl) == UrlForPackage(b, mirrorUrl)
    ensures a == b
  {
    var r := UrlForPackage(a, mirrorUrl).value;
    var base := if mirrorUrl[|mirrorUrl| - 1] == '/' then mirrorUrl + "archive/" else mirrorUrl + "/archive/";
    assert r == base + a + ".tar.xz" == base + b + ".tar.xz";
    assert |a| == |b|;
    assert a == r[|base|..|base| + |a|];
    assert b == r[|base|..|base| + |b|];
  }

  // ---------------------------------------------------------------------------
  // write_contents_file

  // The fixed lines of the manifest's header, written in pieces short enough for the
  // verifier to see that none holds a line break.
  const Intro: string := "# These are the CTAN " + "packages bundled " + "in this package."
  const RevisionNote: string := "# The svn revision " + "number (on the " + "TeXLive repository)"
  const ColumnNote: string := "# on which each " + "package is based " + "is given in the " + "2nd column."

  /** The header line naming the mirror the archives come from. */
  function DownloadLine(url: string): string {
    "# They were downloaded from " + url + "archive/"
  }

  /** The five lines of the manifest's header; the last one is blank. */
  function HeaderLines(url: string): seq<string> {
    [Intro, DownloadLine(url), RevisionNote, ColumnNote, ""]
  }

  /** The dedented template after `.format(url=mirror_url)`. */
  function ContentsHeader(url: string): string {
    Intro + "\n" + DownloadLine(url) + "\n" + RevisionNote + "\n" + ColumnNote + "\n" + "\n"
  }

  /** The line of one package, without its line break; `pkgs[pkg]['name']` is looked up first. */
  function ContentsLine(rec: Record): Result<string> {
    if "name" !in rec then Err(KeyError("name"))
    else if "revision" !in rec then Err(KeyError("revision"))
    else Ok(Str(rec["name"]) + " " + Str(rec["revision"]))
  }

  /** The text `write_contents_file` writes, or the KeyError it raises. */
  function ContentsText(url: string, ps: Packages): Result<string> {
    if ps == [] then Ok(ContentsHeader(url))
    else
      match ContentsText(url, ps[..|ps| - 1])
      case Err(err) => Err(err)
      case Ok(s) =>
        match ContentsLine(ps[|ps| - 1].1)
        case Err(err) => Err(err)
        case Ok(l) => Ok(s + l + "\n")
  }

  lemma ContentsTextStep(url: string, ps: Packages, p: nat)
    requires p < |ps|
    ensures ContentsText(url, ps[..p + 1]) ==
      match ContentsText(url, ps[..p])
      case Err(err) => Err(err)
      case Ok(s) =>
        match ContentsLine(ps[p].1)
        case Err(err) => Err(err)
        case Ok(l) => Ok(s + l + "\n")
  {
    assert ps[..p + 1][..p] == ps[..p];
  }

  lemma {:induction false} ContentsTextErrPersists(url: string, ps: Packages, p: nat)
    requires p <= |ps| && ContentsText(url, ps[..p]).Err?
    ensures ContentsText(url, ps) == ContentsText(url, ps[..p])
    decreases |ps| - p
  {
    if p < |ps| {
      ContentsTextStep(url, ps, p);
      ContentsTextErrPersists(url, ps, p + 1);
    } else {
      assert ps[..p] == ps;
    }
  }

  /** The imperative `write_contents_file`, returning the text instead of writing it. */
  method WriteContentsFile(mirrorUrl: string, ps: Packages) returns (r: Result<string>)
    ensures r == ContentsText(mirrorUrl, ps)
  {
    var template := ContentsHeader(mirrorUrl);
    for p := 0 to |ps|
      invariant ContentsText(mirrorUrl, ps[..p]) == Ok(template)
    {
      ContentsTextStep(mirrorUrl, ps, p);
      var rec := ps[p].1;
      if "name" !in rec {
        ContentsTextErrPersists(mirrorUrl, ps, p + 1);
        return Err(KeyError("name"));
      }
      if "revision" !in rec {
        ContentsTextErrPersists(mirrorUrl, ps, p + 1);
        return Err(KeyError("revision"));
      }
      var line := Str(rec["name"]) + " " + Str(rec["revision"]);
      template := template + line + "\n";
    }
    assert ps[..|ps|] == ps;
    return Ok(template);
  }

  predicate HasContentsFields(rec: Record) {
    "name" in rec && "revision" in rec
  }

  predicate AllHaveContentsFields(ps: Packages) {
    forall p :: 0 <= p < |ps| ==> HasContentsFields(ps[p].1)
  }

  /** `f"{name} {revision}"` of a package that has both. */
  function FieldsLine(rec: Record): string
    requires HasContentsFields(rec)
  {
    Str(rec["name"]) + " " + Str(rec["revision"])
  }

  /** The package lines, for packages that all have a name and a revision. */
  function ContentsLines(ps: Packages): seq<string>
    requires AllHaveContentsFields(ps)
  {
    seq(|ps|, p requires 0 <= p < |ps| => FieldsLine(ps[p].1))
  }

  lemma ContentsHeaderLines(url: string)
    ensures ContentsHeader(url) == Unlines(HeaderLines(url))
  {
    UnlinesFourAndBlank(Intro, DownloadLine(url), RevisionNote, ColumnNote);
  }

  lemma UnlinesFourAndBlank(a: string, b: string, c: string, d: string)
    ensures Unlines([a, b, c, d, ""]) == a + "\n" + b + "\n" + c + "\n" + d + "\n" + "\n"
  {
    var h := [a, b, c, d, ""];
    assert Unlines(h[4..]) == "\n" by { assert h[4..] == [""] && h[4..][1..] == []; }
    assert Unlines(h[3..]) == d + "\n" + "\n" by { assert h[3..][1..] == h[4..]; }
    assert Unlines(h[2..]) == c + "\n" + d + "\n" + "\n" by { assert h[2..][1..] == h[3..]; }
    assert Unlines(h[1..]) == b + "\n" + c + "\n" + d + "\n" + "\n" by { assert h[1..][1..] == h[2..]; }
  }

  /**
   * The manifest is written exactly when every package has a name and a revision: then it
   * is the five header lines followed by one `name revision` line per package, in order.
   */
  lemma {:induction false} ContentsTextLines(url: string, ps: Packages)
    ensures ContentsText(url, ps).Ok? <==> AllHaveContentsFields(ps)
    ensures ContentsText(url, ps).Ok? ==>
      ContentsText(url, ps).value == Unlines(HeaderLines(url) + ContentsLines(ps))
  {
    if ps == [] {
      ContentsHeaderLines(url);
      assert HeaderLines(url) + [] == HeaderLines(url);
    } else {
      var pre, rec := ps[..|ps| - 1], ps[|ps| - 1].1;
      ContentsTextLines(url, pre);
      AllHaveSnoc(ps);
      if AllHaveContentsFields(ps) {
        ContentsLinesSnoc(ps);
        UnlinesSnoc(HeaderLines(url), ContentsLines(pre), FieldsLine(rec));
      }
    }
  }

  lemma AllHaveSnoc(ps: Packages)
    requires ps != []
    ensures AllHaveContentsFields(ps) <==>
      AllHaveContentsFields(ps[..|ps| - 1]) && HasContentsFields(ps[|ps| - 1].1)
  {
    var pre := ps[..|ps| - 1];
    if AllHaveContentsFields(pre) && HasContentsFields(ps[|ps| - 1].1) {
      forall p | 0 <= p < |ps| ensures HasContentsFields(ps[p].1) {
        if p < |pre| { assert ps[p] == pre[p]; }
      }
    }
    if AllHaveContentsFields(ps) {
      forall p | 0 <= p < |pre| ensures HasContentsFields(pre[p].1) {
        assert ps[p] == pre[p];
      }
    }
  }

  lemma ContentsLinesSnoc(ps: Packages)
    requires ps != [] && AllHaveContentsFields(ps)
    ensures AllHaveContentsFields(ps[..|ps| - 1])
    ensures ContentsLines(ps) == ContentsLines(ps[..|ps| - 1]) + [FieldsLine(ps[|ps| - 1].1)]
  {
    AllHaveSnoc(ps);
  }

  lemma UnlinesSnoc(h: seq<string>, a: seq<string>, line: string)
    ensures Unlines(h + (a + [line])) == Unlines(h + a) + line + "\n"
  {
    assert h + (a + [line]) == (h + a) + [line];
    UnlinesAppend(h + a, [line]);
    assert Unlines([line]) == line + "\n" + "";
  }

  /** When it fails, the error names the first key missing from the first incomplete package. */
  lemma {:induction false} ContentsTextError(url: string, ps: Packages)
    requires ContentsText(url, ps).Err?
    ensures exists p ::
              && 0 <= p < |ps| && !HasContentsFields(ps[p].1) && AllHaveContentsFields(ps[..p])
              && ContentsText(url, ps).error == if "name" !in ps[p].1 then KeyError("name") else KeyError("revision")
  {
    var pre, rec := ps[..|ps| - 1], ps[|ps| - 1].1;
    if ContentsText(url, pre).Err? {
      ContentsTextError(url, pre);
      var p :| 0 <= p < |pre| && !HasContentsFields(pre[p].1) && AllHaveContentsFields(pre[..p])
        && ContentsText(url, pre).error == if "name" !in pre[p].1 then KeyError("name") else KeyError("revision");
      assert ps[p] == pre[p] && ps[..p] == pre[..p];
    } else {
      ContentsTextLines(url, pre);
      assert pre == ps[..|ps| - 1];
    }
  }

  /**
   * Splitting the manifest at line breaks gives the header lines, the package lines and a
   * final empty piece, when the URL and the names and revisions hold no line break.
   */
  lemma ContentsTextSplit(url: string, ps: Packages)
    requires AllHaveContentsFields(ps)
    requires '\n' !in url
    requires forall p :: 0 <= p < |ps| ==> '\n' !in Str(ps[p].1["name"]) && '\n' !in Str(ps[p].1["revision"])
    ensures ContentsText(url, ps).Ok?
    ensures Split(ContentsText(url, ps).value, '\n') == HeaderLines(url) + ContentsLines(ps) + [""]
    ensures CountChar(ContentsText(url, ps).value, '\n') == 5 + |ps|
  {
    ContentsTextLines(url, ps);
    HeaderLinesNoBreak(url);
    LinesNoBreak(HeaderLines(url), ContentsLines(ps));
    SplitUnlines(HeaderLines(url) + ContentsLines(ps));
    SplitCount(ContentsText(url, ps).value, '\n');
  }

  lemma HeaderLinesNoBreak(url: string)
    requires '\n' !in url
    ensures |HeaderLines(url)| == 5 && forall i :: 0 <= i < 5 ==> '\n' !in HeaderLines(url)[i]
  {
    var h := HeaderLines(url);
    DownloadLineNoBreak(url);
    FixedLinesNoBreak();
    assert '\n' !in h[0] && '\n' !in h[1] && '\n' !in h[2] && '\n' !in h[3] && '\n' !in h[4];
  }

  lemma DownloadLineNoBreak(url: string)
    requires '\n' !in url
    ensures '\n' !in DownloadLine(url)
  {
  }

  lemma FixedLinesNoBreak()
    ensures '\n' !in Intro && '\n' !in RevisionNote && '\n' !in ColumnNote
  {
    IntroNoBreak();
    RevisionNoteNoBreak();
    ColumnNoteNoBreak();
  }

  lemma IntroNoBreak()
    ensures '\n' !in Intro
  {
    NoBreakThree("# These are the CTAN ", "packages bundled ", "in this package.");
  }

  lemma RevisionNoteNoBreak()
    ensures '\n' !in RevisionNote
  {
    NoBreakThree("# The svn revision ", "number (on the ", "TeXLive repository)");
  }

  lemma ColumnNoteNoBreak()
    ensures '\n' !in ColumnNote
  {
    NoBreakThree("# on which each ", "package is based ", "is given in the ");
    NoBreakHalves("# on which each " + "package is based " + "is given in the ", "2nd column.");
  }

  lemma NoBreakThree(a: string, b: string, c: string)
    requires '\n' !in a && '\n' !in b && '\n' !in c
    ensures '\n' !in a + b + c
  {
  }

  lemma NoBreakHalves(a: string, b: string)
    requires '\n' !in a && '\n' !in b
    ensures '\n' !in a + b
  {
  }

  lemma LinesNoBreak(h: seq<string>, a: seq<string>)
    requires forall i :: 0 <= i < |h| ==> '\n' !in h[i]
    requires forall i :: 0 <= i < |a| ==> '\n' !in a[i]
    ensures forall i :: 0 <= i < |h + a| ==> '\n' !in (h + a)[i]
  {
    forall i | 0 <= i < |h + a| ensures '\n' !in (h + a)[i] {
      if i >= |h| { assert (h + a)[i] == a[i - |h|]; }
    }
  }
}
