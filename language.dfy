/**
 * `create_language_def` and `create_language_dat` of texlive/file_creator.py. Both walk the
 * packages' `execute` entries holding "AddHyphen" and write, per package with such an entry,
 * a `% from <name>:` header, then per entry one line for the language and one per synonym.
 * They differ only in how a line is rendered, so the model builds one list of lines
 * (`LangLine`) and renders it for either file.
 */
module LanguageFiles {
  import opened Text
  import opened Tlpdb
  import opened FileCreator

  /** The keys the language `parse_string` defaults to "". */
  const LanguageKeys: seq<string> :=
    ["name", "file", "file_patterns", "file_exceptions", "lefthyphenmin", "righthyphenmin", "synonyms"]

  /** The dict the language `parse_string(temp)` returns. */
  function LangFields(temp: string): (f: map<string, string>)
    ensures forall k :: k in LanguageKeys ==> k in f
    ensures HasLanguageFields(f)
  {
    WithDefaults(KvDict(KvMatches(temp)), LanguageKeys, "")
  }

  /** The imperative language `parse_string`. */
  method ParseLanguageString(temp: string) returns (t: map<string, string>)
    ensures t == LangFields(temp)
  {
    t := CollectPairs(temp);
    t := FillDefaults(t, LanguageKeys, "");
  }

  /** Each language field is the last quote-free `key=value` pair for it, or "". */
  lemma LangFieldsSpec(temp: string, k: string)
    requires k in LanguageKeys
    ensures var ms := KvMatches(temp);
      LangFields(temp)[k] == if LastClean(ms, k).Some? then LastClean(ms, k).value else ""
  {
    KvDictLast(KvMatches(temp), k);
  }

  datatype LanguageFile = LanguageDef | LanguageDat

  /** One line of either file, before it is rendered. */
  datatype LangLine =
    | Header(pkg: string)
    | Primary(name: string, file: string, lefthyphenmin: string, righthyphenmin: string)
    | Synonym(name: string, file: string, lefthyphenmin: string, righthyphenmin: string)

  function AddLanguage(name: string, file: string, lefthyphenmin: string, righthyphenmin: string): string {
    "\\addlanguage{" + name + "}{" + file + "}{}{" + lefthyphenmin + "}{" + righthyphenmin + "}"
  }

  /** The line, without its line break, that each file's `Template` gives. */
  function Render(kind: LanguageFile, l: LangLine): string {
    match l
    case Header(pkg) => "% from " + pkg + ":"
    case Primary(n, fl, lh, rh) =>
      (match kind
       case LanguageDef => AddLanguage(n, fl, lh, rh)
       case LanguageDat => n + " " + fl)
    case Synonym(n, fl, lh, rh) =>
      (match kind
       case LanguageDef => AddLanguage(n, fl, lh, rh)
       case LanguageDat => "=" + n)
  }

  function RenderAll(kind: LanguageFile, ls: seq<LangLine>): seq<string> {
    seq(|ls|, i requires 0 <= i < |ls| => Render(kind, ls[i]))
  }

  lemma RenderAllAppend(kind: LanguageFile, a: seq<LangLine>, b: seq<LangLine>)
    ensures RenderAll(kind, a + b) == RenderAll(kind, a) + RenderAll(kind, b)
  {
    forall i | 0 <= i < |a + b| ensures RenderAll(kind, a + b)[i] == (RenderAll(kind, a) + RenderAll(kind, b))[i] {
      if i >= |a| { assert (a + b)[i] == b[i - |a|]; }
    }
  }

  /** The fields a rendered line uses are present. */
  predicate HasLanguageFields(f: map<string, string>) {
    "name" in f && "file" in f && "lefthyphenmin" in f && "righthyphenmin" in f && "synonyms" in f
  }

  function PrimaryOf(f: map<string, string>): LangLine
    requires HasLanguageFields(f)
  {
    Primary(f["name"], f["file"], f["lefthyphenmin"], f["righthyphenmin"])
  }

  function SynonymOf(f: map<string, string>): LangLine
    requires HasLanguageFields(f)
  {
    Synonym(f["name"], f["file"], f["lefthyphenmin"], f["righthyphenmin"])
  }

  function HeaderOf(rec: Record): LangLine
    requires "name" in rec
  {
    Header(Str(rec["name"]))
  }

  // ---------------------------------------------------------------------------
  // The text, as the source concatenates it.

  /** `for i in synonyms: parsed_dict["name"] = i; final_file += Template(...)`. */
  function SynonymsText(kind: LanguageFile, f: map<string, string>, syns: seq<string>): string
    requires HasLanguageFields(f)
  {
    if syns == [] then ""
    else SynonymsText(kind, f, syns[..|syns| - 1]) + Render(kind, SynonymOf(f["name" := syns[|syns| - 1]])) + "\n"
  }

  /** What one `execute` entry adds. */
  function EntryText(kind: LanguageFile, e: string): string {
    if !Contains(e, "AddHyphen") then ""
    else
      var f := LangFields(e);
      Render(kind, PrimaryOf(f)) + "\n" +
      (if f["synonyms"] != "" then SynonymsText(kind, f, Split(f["synonyms"], ',')) else "")
  }

  function EntriesText(kind: LanguageFile, es: seq<string>): string {
    if es == [] then "" else EntriesText(kind, es[..|es| - 1]) + EntryText(kind, es[|es| - 1])
  }

  /** `has_hypen`: some entry holds "AddHyphen" (for a plain string, the string itself). */
  predicate HasHyphen(es: seq<string>) {
    exists i :: 0 <= i < |es| && Contains(es[i], "AddHyphen")
  }

  /** What one package adds; the header's `temp_pkg['name']` raises KeyError when there is no name. */
  function PackageText(kind: LanguageFile, rec: Record): Result<string> {
    if "execute" !in rec then Ok("")
    else
      var es := Entries(rec["execute"]);
      if !HasHyphen(es) then Ok("")
      else if "name" !in rec then Err(KeyError("name"))
      else Ok(Render(kind, HeaderOf(rec)) + "\n" + EntriesText(kind, es))
  }

  /** The text `create_language_def` or `create_language_dat` writes, or the error it raises. */
  function LanguageText(kind: LanguageFile, ps: Packages): Result<string> {
    if ps == [] then Ok("")
    else
      match LanguageText(kind, ps[..|ps| - 1])
      case Err(err) => Err(err)
      case Ok(s) =>
        match PackageText(kind, ps[|ps| - 1].1)
        case Err(err) => Err(err)
        case Ok(t) => Ok(s + t)
  }

  // ---------------------------------------------------------------------------
  // The lines, independent of the file.

  function SynonymLines(f: map<string, string>, syns: seq<string>): seq<LangLine>
    requires HasLanguageFields(f)
  {
    seq(|syns|, i requires 0 <= i < |syns| => SynonymOf(f["name" := syns[i]]))
  }

  /** The lines of one entry: the language, then one per comma-separated synonym when there are any. */
  function EntryLines(e: string): seq<LangLine> {
    if !Contains(e, "AddHyphen") then []
    else
      var f := LangFields(e);
      [PrimaryOf(f)] + (if f["synonyms"] != "" then SynonymLines(f, Split(f["synonyms"], ',')) else [])
  }

  function EntriesLines(es: seq<string>): seq<LangLine> {
    if es == [] then [] else EntriesLines(es[..|es| - 1]) + EntryLines(es[|es| - 1])
  }

  /** A package whose header the source cannot write. */
  predicate MissingName(rec: Record) {
    "execute" in rec && HasHyphen(Entries(rec["execute"])) && "name" !in rec
  }

  function PackageLines(rec: Record): Result<seq<LangLine>> {
    if "execute" !in rec then Ok([])
    else
      var es := Entries(rec["execute"]);
      if !HasHyphen(es) then Ok([])
      else if "name" !in rec then Err(KeyError("name"))
      else Ok([HeaderOf(rec)] + EntriesLines(es))
  }

  function LanguageLines(ps: Packages): Result<seq<LangLine>> {
    if ps == [] then Ok([])
    else
      match LanguageLines(ps[..|ps| - 1])
      case Err(err) => Err(err)
      case Ok(s) =>
        match PackageLines(ps[|ps| - 1].1)
        case Err(err) => Err(err)
        case Ok(t) => Ok(s + t)
  }

  // ---------------------------------------------------------------------------
  // The text is the rendered lines.

  lemma {:induction false} SynonymsTextLines(kind: LanguageFile, f: map<string, string>, syns: seq<string>)
    requires HasLanguageFields(f)
    ensures SynonymsText(kind, f, syns) == Unlines(RenderAll(kind, SynonymLines(f, syns)))
  {
    if syns != [] {
      var pre, last := syns[..|syns| - 1], SynonymOf(f["name" := syns[|syns| - 1]]);
      SynonymsTextLines(kind, f, pre);
      SynonymLinesSnoc(f, syns);
      RenderAllAppend(kind, SynonymLines(f, pre), [last]);
      assert RenderAll(kind, [last]) == [Render(kind, last)];
      UnlinesPush(RenderAll(kind, SynonymLines(f, pre)), Render(kind, last));
    }
  }

  lemma SynonymLinesSnoc(f: map<string, string>, syns: seq<string>)
    requires HasLanguageFields(f) && syns != []
    ensures SynonymLines(f, syns) == SynonymLines(f, syns[..|syns| - 1]) + [SynonymOf(f["name" := syns[|syns| - 1]])]
  {
    var pre := syns[..|syns| - 1];
    var a, b := SynonymLines(f, syns), SynonymLines(f, pre) + [SynonymOf(f["name" := syns[|syns| - 1]])];
    forall i | 0 <= i < |a| ensures a[i] == b[i] {
      if i < |pre| { assert pre[i] == syns[i]; }
    }
  }

  lemma EntryTextLines(kind: LanguageFile, e: string)
    ensures EntryText(kind, e) == Unlines(RenderAll(kind, EntryLines(e)))
  {
    if Contains(e, "AddHyphen") {
      var f := LangFields(e);
      var rest := if f["synonyms"] != "" then SynonymLines(f, Split(f["synonyms"], ',')) else [];
      if f["synonyms"] != "" {
        SynonymsTextLines(kind, f, Split(f["synonyms"], ','));
      }
      RenderAllAppend(kind, [PrimaryOf(f)], rest);
      UnlinesAppend(RenderAll(kind, [PrimaryOf(f)]), RenderAll(kind, rest));
      assert Unlines(RenderAll(kind, [PrimaryOf(f)])) == Render(kind, PrimaryOf(f)) + "\n" + "";
    } else {
      assert RenderAll(kind, []) == [];
    }
  }

  lemma {:induction false} EntriesTextLines(kind: LanguageFile, es: seq<string>)
    ensures EntriesText(kind, es) == Unlines(RenderAll(kind, EntriesLines(es)))
  {
    if es != [] {
      var pre, e := es[..|es| - 1], es[|es| - 1];
      EntriesTextLines(kind, pre);
      EntryTextLines(kind, e);
      RenderAllAppend(kind, EntriesLines(pre), EntryLines(e));
      UnlinesAppend(RenderAll(kind, EntriesLines(pre)), RenderAll(kind, EntryLines(e)));
    } else {
      assert RenderAll(kind, []) == [];
    }
  }

  lemma PackageTextLines(kind: LanguageFile, rec: Record)
    ensures PackageText(kind, rec).Ok? <==> PackageLines(rec).Ok?
    ensures PackageText(kind, rec).Err? ==> PackageText(kind, rec).error == PackageLines(rec).error
    ensures PackageText(kind, rec).Ok? ==>
      PackageText(kind, rec).value == Unlines(RenderAll(kind, PackageLines(rec).value))
  {
    if "execute" in rec && HasHyphen(Entries(rec["execute"])) && "name" in rec {
      var es := Entries(rec["execute"]);
      EntriesTextLines(kind, es);
      RenderAllAppend(kind, [HeaderOf(rec)], EntriesLines(es));
      UnlinesAppend(RenderAll(kind, [HeaderOf(rec)]), RenderAll(kind, EntriesLines(es)));
      assert Unlines(RenderAll(kind, [HeaderOf(rec)])) == Render(kind, HeaderOf(rec)) + "\n" + "";
    } else {
      assert RenderAll(kind, []) == [];
    }
  }

  /** Either file is its lines rendered, one per line break; it fails exactly when the lines do. */
  lemma {:induction false} LanguageTextLines(kind: LanguageFile, ps: Packages)
    ensures LanguageText(kind, ps).Ok? <==> LanguageLines(ps).Ok?
    ensures LanguageText(kind, ps).Err? ==> LanguageText(kind, ps).error == LanguageLines(ps).error
    ensures LanguageText(kind, ps).Ok? ==>
      LanguageText(kind, ps).value == Unlines(RenderAll(kind, LanguageLines(ps).value))
  {
    if ps != [] {
      var pre, rec := ps[..|ps| - 1], ps[|ps| - 1].1;
      LanguageTextLines(kind, pre);
      PackageTextLines(kind, rec);
      if LanguageLines(pre).Ok? && PackageLines(rec).Ok? {
        RenderAllAppend(kind, LanguageLines(pre).value, PackageLines(rec).value);
        UnlinesAppend(RenderAll(kind, LanguageLines(pre).value), RenderAll(kind, PackageLines(rec).value));
      }
    } else {
      assert RenderAll(kind, []) == [];
    }
  }

  /**
   * language.def and language.dat agree: both fail, with the same error, or both succeed
   * with the same number of line breaks, the header lines identical and in the same places.
   */
  lemma DefDatAgree(ps: Packages)
    ensures LanguageText(LanguageDef, ps).Ok? <==> LanguageLines(ps).Ok?
    ensures LanguageText(LanguageDef, ps).Ok? <==> LanguageText(LanguageDat, ps).Ok?
    ensures LanguageText(LanguageDef, ps).Err? ==>
      LanguageText(LanguageDef, ps).error == LanguageText(LanguageDat, ps).error
    ensures LanguageText(LanguageDef, ps).Ok? ==>
              var def, dat := RenderAll(LanguageDef, LanguageLines(ps).value), RenderAll(LanguageDat, LanguageLines(ps).value);
              && LanguageText(LanguageDef, ps).value == Unlines(def)
              && LanguageText(LanguageDat, ps).value == Unlines(dat)
              && |def| == |dat|
              && forall i :: 0 <= i < |def| && LanguageLines(ps).value[i].Header? ==> def[i] == dat[i]
  {
    LanguageTextLines(LanguageDef, ps);
    LanguageTextLines(LanguageDat, ps);
  }

  // ---------------------------------------------------------------------------
  // What the lines are.

  /** An entry gives no line without "AddHyphen"; else one, plus one per comma-separated synonym. */
  lemma EntryLinesCount(e: string)
    ensures var syns := LangFields(e)["synonyms"];
      |EntryLines(e)| ==
        if !Contains(e, "AddHyphen") then 0
        else if syns == "" then 1
        else 2 + CountChar(syns, ',')
  {
    if Contains(e, "AddHyphen") {
      var syns := LangFields(e)["synonyms"];
      SplitCount(syns, ',');
    }
  }

  /** The i-th synonym line carries the i-th synonym as its name and the entry's other fields. */
  lemma EntryLinesShape(e: string)
    requires Contains(e, "AddHyphen")
    ensures var f, ls := LangFields(e), EntryLines(e);
      && |ls| == 1 + (if f["synonyms"] != "" then |Split(f["synonyms"], ',')| else 0)
      && ls[0] == Primary(f["name"], f["file"], f["lefthyphenmin"], f["righthyphenmin"])
      && (f["synonyms"] != "" ==>
            var syns := Split(f["synonyms"], ',');
            forall i :: 0 <= i < |syns| ==>
              ls[i + 1] == Synonym(syns[i], f["file"], f["lefthyphenmin"], f["righthyphenmin"]))
  {
  }

  lemma {:induction false} EntriesLinesNoHeader(es: seq<string>)
    ensures forall i :: 0 <= i < |EntriesLines(es)| ==> !EntriesLines(es)[i].Header?
  {
    if es != [] {
      EntriesLinesNoHeader(es[..|es| - 1]);
      var a: seq<LangLine>, b: seq<LangLine> := EntriesLines(es[..|es| - 1]), EntryLines(es[|es| - 1]);
      forall i | 0 <= i < |a + b| ensures !(a + b)[i].Header? {
        if i >= |a| { assert (a + b)[i] == b[i - |a|]; }
      }
    }
  }

  lemma {:induction false} EntriesLinesEmpty(es: seq<string>)
    ensures EntriesLines(es) == [] <==> !HasHyphen(es)
  {
    if es != [] {
      var pre, e := es[..|es| - 1], es[|es| - 1];
      EntriesLinesEmpty(pre);
      HasHyphenSnoc(es);
      var a, b := EntriesLines(pre), EntryLines(e);
      assert |a + b| == |a| + |b|;
    }
  }

  lemma HasHyphenSnoc(es: seq<string>)
    requires es != []
    ensures HasHyphen(es) <==> HasHyphen(es[..|es| - 1]) || Contains(es[|es| - 1], "AddHyphen")
  {
    var pre := es[..|es| - 1];
    if HasHyphen(es) && !Contains(es[|es| - 1], "AddHyphen") {
      var i :| 0 <= i < |es| && Contains(es[i], "AddHyphen");
      assert pre[i] == es[i];
    }
    if HasHyphen(pre) {
      var i :| 0 <= i < |pre| && Contains(pre[i], "AddHyphen");
      assert es[i] == pre[i];
    }
  }

  /**
   * A package writes nothing when no entry holds "AddHyphen"; otherwise its header comes first,
   * is its only header, and at least one language line follows.
   */
  lemma PackageLinesShape(rec: Record)
    requires PackageLines(rec).Ok?
    ensures var ls := PackageLines(rec).value;
      && (ls == [] <==> "execute" !in rec || !HasHyphen(Entries(rec["execute"])))
      && (ls != [] ==>
            && |ls| >= 2
            && ls[0] == Header(Str(rec["name"]))
            && forall i :: 1 <= i < |ls| ==> !ls[i].Header?)
  {
    if "execute" in rec && HasHyphen(Entries(rec["execute"])) {
      var es := Entries(rec["execute"]);
      EntriesLinesNoHeader(es);
      EntriesLinesEmpty(es);
      var ls := PackageLines(rec).value;
      forall i | 1 <= i < |ls| ensures !ls[i].Header? {
        assert ls[i] == EntriesLines(es)[i - 1];
      }
    }
  }

  /** Some package has an "AddHyphen" entry but no name. */
  predicate SomeMissingName(ps: Packages) {
    exists p :: 0 <= p < |ps| && MissingName(ps[p].1)
  }

  lemma SomeMissingNameSnoc(ps: Packages)
    requires ps != []
    ensures SomeMissingName(ps) <==> SomeMissingName(ps[..|ps| - 1]) || MissingName(ps[|ps| - 1].1)
  {
    var pre := ps[..|ps| - 1];
    if SomeMissingName(pre) {
      var p :| 0 <= p < |pre| && MissingName(pre[p].1);
      assert ps[p] == pre[p];
    }
    if SomeMissingName(ps) {
      var p :| 0 <= p < |ps| && MissingName(ps[p].1);
      if p < |pre| { assert pre[p] == ps[p]; }
    }
  }

  lemma PackageLinesError(rec: Record)
    ensures PackageLines(rec).Err? <==> MissingName(rec)
    ensures PackageLines(rec).Err? ==> PackageLines(rec).error == KeyError("name")
  {
  }

  /** The files fail exactly when a package has an "AddHyphen" entry but no name, with KeyError('name'). */
  lemma {:induction false} LanguageLinesError(ps: Packages)
    ensures LanguageLines(ps).Err? <==> SomeMissingName(ps)
    ensures LanguageLines(ps).Err? ==> LanguageLines(ps).error == KeyError("name")
  {
    if ps != [] {
      LanguageLinesError(ps[..|ps| - 1]);
      SomeMissingNameSnoc(ps);
      PackageLinesError(ps[|ps| - 1].1);
    }
  }

  // ---------------------------------------------------------------------------
  // The imperative source.

  lemma SynonymsTextStep(kind: LanguageFile, f: map<string, string>, syns: seq<string>, j: nat)
    requires HasLanguageFields(f) && j < |syns|
    ensures SynonymsText(kind, f, syns[..j + 1]) ==
      SynonymsText(kind, f, syns[..j]) + Render(kind, SynonymOf(f["name" := syns[j]])) + "\n"
  {
    assert syns[..j + 1][..j] == syns[..j];
  }

  /** The synonyms loop, which overwrites `parsed_dict["name"]` before rendering each line. */
  method SynonymsLanguage(kind: LanguageFile, parsedDict: map<string, string>, synonyms: seq<string>)
    returns (text: string)
    requires HasLanguageFields(parsedDict)
    ensures text == SynonymsText(kind, parsedDict, synonyms)
  {
    text := "";
    var d := parsedDict;
    for j := 0 to |synonyms|
      invariant HasLanguageFields(d)
      invariant d["file"] == parsedDict["file"]
      invariant d["lefthyphenmin"] == parsedDict["lefthyphenmin"]
      invariant d["righthyphenmin"] == parsedDict["righthyphenmin"]
      invariant text == SynonymsText(kind, parsedDict, synonyms[..j])
    {
      SynonymsTextStep(kind, parsedDict, synonyms, j);
      d := d["name" := synonyms[j]];
      text := text + Render(kind, SynonymOf(d)) + "\n";
    }
    assert synonyms[..|synonyms|] == synonyms;
  }

  lemma EntryTextOf(kind: LanguageFile, e: string, f: map<string, string>, syn: string)
    requires Contains(e, "AddHyphen") && f == LangFields(e) && syn == f["synonyms"]
    ensures EntryText(kind, e) ==
      Render(kind, PrimaryOf(f)) + "\n" + (if syn != "" then SynonymsText(kind, f, Split(syn, ',')) else "")
  {
  }

  /** One `execute` entry: the language line, then its synonyms' lines. */
  method EntryLanguage(kind: LanguageFile, each: string) returns (text: string)
    ensures text == EntryText(kind, each)
  {
    if !Contains(each, "AddHyphen") {
      return "";
    }
    var parsedDict := ParseLanguageString(each);
    var synonymsText := "";
    if parsedDict["synonyms"] != "" {
      var synonyms := Split(parsedDict["synonyms"], ',');
      synonymsText := SynonymsLanguage(kind, parsedDict, synonyms);
    }
    EntryTextOf(kind, each, parsedDict, parsedDict["synonyms"]);
    text := Render(kind, PrimaryOf(parsedDict)) + "\n" + synonymsText;
  }

  lemma EntriesTextStep(kind: LanguageFile, es: seq<string>, j: nat)
    requires j < |es|
    ensures EntriesText(kind, es[..j + 1]) == EntriesText(kind, es[..j]) + EntryText(kind, es[j])
  {
    assert es[..j + 1][..j] == es[..j];
  }

  lemma PackageTextSingle(kind: LanguageFile, rec: Record, e: string)
    requires "execute" in rec && rec["execute"] == Single(e)
    ensures PackageText(kind, rec) ==
      if !Contains(e, "AddHyphen") then Ok("")
      else if "name" !in rec then Err(KeyError("name"))
      else Ok(Render(kind, HeaderOf(rec)) + "\n" + EntryText(kind, e))
  {
    EntriesTextSingle(kind, e);
    HasHyphenSingle(e);
  }

  lemma EntriesTextSingle(kind: LanguageFile, e: string)
    ensures EntriesText(kind, [e]) == EntryText(kind, e)
  {
    assert [e][..0] == [];
  }

  lemma HasHyphenSingle(e: string)
    ensures HasHyphen([e]) <==> Contains(e, "AddHyphen")
  {
    assert [e][0] == e;
  }

  /** The body of the loop over packages: the header and the lines of one package. */
  method PackageLanguage(kind: LanguageFile, tempPkg: Record) returns (r: Result<string>)
    ensures r == PackageText(kind, tempPkg)
  {
    if "execute" !in tempPkg {
      return Ok("");
    }
    var temp := tempPkg["execute"];
    if temp.Single? {
      PackageTextSingle(kind, tempPkg, temp.s);
      if !Contains(temp.s, "AddHyphen") {
        return Ok("");
      }
      if "name" !in tempPkg {
        return Err(KeyError("name"));
      }
      var header := Render(kind, HeaderOf(tempPkg)) + "\n";
      var t := EntryLanguage(kind, temp.s);
      return Ok(header + t);
    }
    var hasHyphen := exists i :: 0 <= i < |temp.items| && Contains(temp.items[i], "AddHyphen");
    if !hasHyphen {
      return Ok("");
    }
    if "name" !in tempPkg {
      return Err(KeyError("name"));
    }
    var header := Render(kind, HeaderOf(tempPkg)) + "\n";
    var body := "";
    for j := 0 to |temp.items|
      invariant body == EntriesText(kind, temp.items[..j])
    {
      EntriesTextStep(kind, temp.items, j);
      var t := EntryLanguage(kind, temp.items[j]);
      body := body + t;
    }
    assert temp.items[..|temp.items|] == temp.items;
    return Ok(header + body);
  }

  lemma LanguageTextStep(kind: LanguageFile, ps: Packages, p: nat)
    requires p < |ps|
    ensures LanguageText(kind, ps[..p + 1]) ==
      match LanguageText(kind, ps[..p])
      case Err(err) => Err(err)
      case Ok(s) =>
        match PackageText(kind, ps[p].1)
        case Err(err) => Err(err)
        case Ok(t) => Ok(s + t)
  {
    assert ps[..p + 1][..p] == ps[..p];
  }

  lemma {:induction false} LanguageTextErrPersists(kind: LanguageFile, ps: Packages, p: nat)
    requires p <= |ps| && LanguageText(kind, ps[..p]).Err?
    ensures LanguageText(kind, ps) == LanguageText(kind, ps[..p])
    decreases |ps| - p
  {
    if p < |ps| {
      LanguageTextStep(kind, ps, p);
      LanguageTextErrPersists(kind, ps, p + 1);
    } else {
      assert ps[..p] == ps;
    }
  }

  /** The loop over packages shared by both creators, returning the text instead of writing it. */
  method CreateLanguageFile(kind: LanguageFile, ps: Packages) returns (r: Result<string>)
    ensures r == LanguageText(kind, ps)
  {
    var finalFile := "";
    for p := 0 to |ps|
      invariant LanguageText(kind, ps[..p]) == Ok(finalFile)
    {
      LanguageTextStep(kind, ps, p);
      var part := PackageLanguage(kind, ps[p].1);
      if part.Err? {
        LanguageTextErrPersists(kind, ps, p + 1);
        return Err(part.error);
      }
      finalFile := finalFile + part.value;
    }
    assert ps[..|ps|] == ps;
    return Ok(finalFile);
  }

  /** `create_language_def`, returning the text of language.def instead of writing it. */
  method CreateLanguageDef(ps: Packages) returns (r: Result<string>)
    ensures r == LanguageText(LanguageDef, ps)
  {
    r := CreateLanguageFile(LanguageDef, ps);
  }

  /** `create_language_dat`, returning the text of language.dat instead of writing it. */
  method CreateLanguageDat(ps: Packages) returns (r: Result<string>)
    ensures r == LanguageText(LanguageDat, ps)
  {
    r := CreateLanguageFile(LanguageDat, ps);
  }
}
