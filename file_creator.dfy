/**
 * The directive extractors of texlive/file_creator.py. Each walks the resolved packages
 * in dict order, picks the `execute` entries that carry its marker and builds the text
 * of one configuration file: `create_fmts` (AddFormat), `create_maps` (addMap,
 * addMixedMap, addKanjiMap), `create_language_def` and `create_language_dat` (AddHyphen).
 * The text is the result; writing it to a file is not modelled.
 */
module FileCreator {
  import opened Text
  import opened Sorting
  import opened Tlpdb

  // ---------------------------------------------------------------------------
  // The regex `(?P<key>\S*)=(?P<value>[\S]+)` and its finditer.

  /** The largest index below `n` holding '=', if there is one. */
  function LastEq(t: string, n: nat): (r: Option<nat>)
    requires n <= |t|
    ensures r.Some? ==> r.value < n && t[r.value] == '=' && forall m :: r.value < m < n ==> t[m] != '='
    ensures r.None? ==> forall m :: 0 <= m < n ==> t[m] != '='
  {
    if n == 0 then None
    else if t[n - 1] == '=' then Some(n - 1)
    else LastEq(t, n - 1)
  }

  /**
   * The regex tried at the start of `t`. `\S*` first takes the whole non-space run
   * `t[..j]` and gives characters back until an '=' follows it that leaves at least one
   * character of the run for `[\S]+`, which then takes the rest of the run.
   */
  function KvMatchAt(t: string): (r: Option<Hit>)
    ensures r.Some? ==> 0 < r.value.end <= |t|
  {
    var j := NonSpaceRun(t);
    if j == 0 then None
    else
      match LastEq(t, j - 1)
      case None => None
      case Some(k) => Some(Hit(t[..k], t[k + 1..j], j))
  }

  /** The (key, value) groups of `finditer` over `t`, left to right. */
  function KvMatches(t: string): seq<(string, string)>
    decreases |t|
  {
    if t == [] then []
    else
      match KvMatchAt(t)
      case Some(h) => [(h.key, h.value)] + KvMatches(t[h.end..])
      case None => KvMatches(t[1..])
  }

  /** What one whitespace-free token yields: its text before its last '=' that is not its final character, and the rest. */
  function TokenPair(tok: string): seq<(string, string)>
    requires |tok| > 0
  {
    match LastEq(tok, |tok| - 1)
    case None => []
    case Some(k) => [(tok[..k], tok[k + 1..])]
  }

  predicate NoSpace(s: string) {
    forall i :: 0 <= i < |s| ==> !IsSpace(s[i])
  }

  lemma NonSpaceRunAll(tok: string)
    requires NoSpace(tok)
    ensures NonSpaceRun(tok) == |tok|
    decreases |tok|
  {
    if tok != [] {
      NonSpaceRunAll(tok[1..]);
    }
  }

  lemma NonSpaceRunToken(tok: string, rest: string)
    requires NoSpace(tok)
    requires rest == [] || IsSpace(rest[0])
    ensures NonSpaceRun(tok + rest) == |tok|
  {
    if rest == [] {
      assert tok + rest == tok;
      NonSpaceRunAll(tok);
    } else {
      NonSpaceRunPrefix(tok, rest);
    }
  }

  /** Whitespace never starts a match. */
  lemma KvMatchesSpace(c: char, rest: string)
    requires IsSpace(c)
    ensures KvMatches([c] + rest) == KvMatches(rest)
  {
    assert ([c] + rest)[1..] == rest;
  }

  /** A token whose only '=' (if any) is its last character yields nothing, from any of its positions. */
  lemma {:induction false} KvMatchesNoPair(tok: string, rest: string)
    requires NoSpace(tok)
    requires rest == [] || IsSpace(rest[0])
    requires forall m :: 0 <= m < |tok| - 1 ==> tok[m] != '='
    ensures KvMatches(tok + rest) == KvMatches(rest)
    decreases |tok|
  {
    if tok != [] {
      var t := tok + rest;
      NonSpaceRunToken(tok, rest);
      assert forall m :: 0 <= m < |tok| ==> t[m] == tok[m];
      assert KvMatchAt(t).None?;
      assert t[1..] == tok[1..] + rest;
      KvMatchesNoPair(tok[1..], rest);
    } else {
      assert tok + rest == rest;
    }
  }

  /**
   * Each whitespace-delimited token is matched as a whole: the key is the token's text
   * before its last '=' that is followed by a character, the value the rest of the token;
   * a token without such an '=' yields nothing.
   */
  lemma KvMatchesToken(tok: string, rest: string)
    requires |tok| > 0 && NoSpace(tok)
    requires rest == [] || IsSpace(rest[0])
    ensures KvMatches(tok + rest) == TokenPair(tok) + KvMatches(rest)
  {
    match LastEq(tok, |tok| - 1)
    case Some(k) =>
      KvMatchesTokenHit(tok, rest, k);
    case None =>
      KvMatchesNoPair(tok, rest);
  }

  lemma KvMatchesTokenHit(tok: string, rest: string, k: nat)
    requires |tok| > 0 && NoSpace(tok)
    requires rest == [] || IsSpace(rest[0])
    requires LastEq(tok, |tok| - 1) == Some(k)
    ensures KvMatches(tok + rest) == [(tok[..k], tok[k + 1..])] + KvMatches(rest)
  {
    var t := tok + rest;
    NonSpaceRunToken(tok, rest);
    LastEqPrefix(tok, rest, |tok| - 1);
    KvMatchAtOf(t, |tok|, k);
    TokenSlices(tok, rest, k);
    KvMatchesHit(t, Hit(t[..k], t[k + 1..|tok|], |tok|));
    assert t[|tok|..] == rest;
  }

  lemma KvMatchAtOf(t: string, j: nat, k: nat)
    requires 0 < j <= |t| && NonSpaceRun(t) == j
    requires LastEq(t, j - 1) == Some(k)
    ensures KvMatchAt(t) == Some(Hit(t[..k], t[k + 1..j], j))
  {
  }

  lemma KvMatchesHit(t: string, h: Hit)
    requires t != [] && KvMatchAt(t) == Some(h)
    ensures KvMatches(t) == [(h.key, h.value)] + KvMatches(t[h.end..])
  {
  }

  lemma TokenSlices(tok: string, rest: string, k: nat)
    requires k < |tok|
    ensures (tok + rest)[..k] == tok[..k]
    ensures (tok + rest)[k + 1..|tok|] == tok[k + 1..]
  {
  }

  lemma {:induction false} LastEqPrefix(tok: string, rest: string, n: nat)
    requires n <= |tok|
    ensures LastEq(tok + rest, n) == LastEq(tok, n)
  {
    if n > 0 {
      assert (tok + rest)[n - 1] == tok[n - 1];
      LastEqPrefix(tok, rest, n - 1);
    }
  }

  // ---------------------------------------------------------------------------
  // The pairs `parse_perl_string` and `parse_string` record.

  /** The loop `for mat in ...: if '"' not in value: t_dict[key] = value`. */
  function KvDict(ms: seq<(string, string)>): map<string, string> {
    if ms == [] then map[]
    else
      var d := KvDict(ms[..|ms| - 1]);
      var (k, v) := ms[|ms| - 1];
      if '"' !in v then d[k := v] else d
  }

  /** The value of the last quote-free pair with key `k`, searched from the end. */
  function LastClean(ms: seq<(string, string)>, k: string): Option<string> {
    if ms == [] then None
    else if ms[|ms| - 1].0 == k && '"' !in ms[|ms| - 1].1 then Some(ms[|ms| - 1].1)
    else LastClean(ms[..|ms| - 1], k)
  }

  /**
   * A key is recorded exactly when some pair with that key has a value without '"'; it
   * holds the value of the last such pair, so a later pair overwrites an earlier one.
   */
  lemma {:induction false} KvDictLast(ms: seq<(string, string)>, k: string)
    ensures k in KvDict(ms) <==> LastClean(ms, k).Some?
    ensures k in KvDict(ms) ==> KvDict(ms)[k] == LastClean(ms, k).value
  {
    if ms != [] {
      KvDictLast(ms[..|ms| - 1], k);
    }
  }

  /** The imperative finditer loop shared by the helpers: fills the dict match by match. */
  method CollectPairs(temp: string) returns (d: map<string, string>)
    ensures d == KvDict(KvMatches(temp))
  {
    var ms := KvMatches(temp);
    d := map[];
    var i := 0;
    while i < |ms|
      invariant 0 <= i <= |ms|
      invariant d == KvDict(ms[..i])
    {
      var (key, value) := ms[i];
      if '"' !in value {
        d := d[key := value];
      }
      assert ms[..i + 1][..i] == ms[..i];
      i := i + 1;
    }
    assert ms[..|ms|] == ms;
  }

  // ---------------------------------------------------------------------------
  // The quote regex, as a deterministic scan.

  predicate IsQuote(c: char) {
    c == '\'' || c == '"'
  }

  /** No backslash right before position `i`. */
  predicate Unescaped(t: string, i: nat)
    requires i <= |t|
  {
    i == 0 || t[i - 1] != '\\'
  }

  /** The first unescaped quote at or after `i`. */
  function FirstQuote(t: string, i: nat): (r: Option<nat>)
    requires i <= |t|
    ensures r.Some? ==> i <= r.value < |t| && IsQuote(t[r.value]) && Unescaped(t, r.value)
    ensures forall m :: i <= m < (if r.Some? then r.value else |t|) ==> !(IsQuote(t[m]) && Unescaped(t, m))
    decreases |t| - i
  {
    if i == |t| then None
    else if IsQuote(t[i]) && Unescaped(t, i) then Some(i)
    else FirstQuote(t, i + 1)
  }

  /** The first occurrence of `q` at or after `i` with no backslash before it. */
  function Closing(t: string, q: char, i: nat): (r: Option<nat>)
    requires 0 < i <= |t|
    ensures r.Some? ==> i <= r.value < |t| && t[r.value] == q && t[r.value - 1] != '\\'
    ensures forall m :: i <= m < (if r.Some? then r.value else |t|) ==> !(t[m] == q && t[m - 1] != '\\')
    decreases |t| - i
  {
    if i == |t| then None
    else if t[i] == q && t[i - 1] != '\\' then Some(i)
    else Closing(t, q, i + 1)
  }

  /**
   * The `options` group of the quote regex: the text after the first unescaped quote up to
   * the next unescaped occurrence of the same quote, or nothing when that is missing.
   */
  function QuoteSpan(t: string): (r: Option<string>)
    ensures r.Some? ==> exists i, j :: 0 <= i < j < |t| && IsQuote(t[i]) && t[j] == t[i] && r.value == t[i + 1..j]
  {
    match FirstQuote(t, 0)
    case None => None
    case Some(i) =>
      match Closing(t, t[i], i + 1)
      case None => None
      case Some(j) => Some(t[i + 1..j])
  }

  /**
   * A double-quoted span preceded by quote-free text recovers its content, provided the
   * content holds no double quote and the span's opening quote is not escaped.
   */
  lemma QuoteSpanOf(a: string, o: string, b: string)
    requires forall m :: 0 <= m < |a| ==> !IsQuote(a[m])
    requires a == [] || a[|a| - 1] != '\\'
    requires '"' !in o && (o == [] || o[|o| - 1] != '\\')
    ensures QuoteSpan(a + "\"" + o + "\"" + b) == Some(o)
  {
    QuoteSplit(a, o, b);
    OpeningQuote(a, "\"" + o + "\"" + b);
    ClosingQuote(a + "\"", o, "\"" + b);
  }

  lemma QuoteSplit(a: string, o: string, b: string)
    ensures a + ("\"" + o + "\"" + b) == a + "\"" + o + "\"" + b
    ensures (a + "\"") + o + ("\"" + b) == a + "\"" + o + "\"" + b
    ensures (a + "\"" + o + "\"" + b)[|a| + 1..|a| + 1 + |o|] == o
  {
    var t := a + "\"" + o + "\"" + b;
    assert t == (a + "\"" + o) + ("\"" + b);
    assert t[|a| + 1..|a| + 1 + |o|] == (a + "\"" + o)[|a| + 1..];
  }

  /** Quote-free text followed by a quote: the scan stops at that quote. */
  lemma OpeningQuote(a: string, rest: string)
    requires forall m :: 0 <= m < |a| ==> !IsQuote(a[m])
    requires a == [] || a[|a| - 1] != '\\'
    requires rest != [] && rest[0] == '"'
    ensures FirstQuote(a + rest, 0) == Some(|a|) && (a + rest)[|a|] == '"'
  {
    var t := a + rest;
    assert forall m :: 0 <= m < |a| ==> t[m] == a[m];
    FirstQuoteAt(t, 0, |a|);
  }

  /** After an opening `"`, the closing one is the first `"` after the content. */
  lemma ClosingQuote(u: string, o: string, rest: string)
    requires u != [] && u[|u| - 1] == '"'
    requires '"' !in o && (o == [] || o[|o| - 1] != '\\')
    requires rest != [] && rest[0] == '"'
    ensures Closing(u + o + rest, '"', |u|) == Some(|u| + |o|)
  {
    var t := u + o + rest;
    assert forall m :: |u| <= m < |u| + |o| ==> t[m] == o[m - |u|];
    assert t[|u| + |o|] == '"';
    assert t[|u| + |o| - 1] != '\\' by {
      if o == [] { assert t[|u| - 1] == u[|u| - 1]; } else { assert t[|u| + |o| - 1] == o[|o| - 1]; }
    }
    ClosingAt(t, '"', |u|, |u| + |o|);
  }

  lemma {:induction false} FirstQuoteAt(t: string, i: nat, p: nat)
    requires i <= p < |t| && IsQuote(t[p]) && Unescaped(t, p)
    requires forall m :: i <= m < p ==> !IsQuote(t[m])
    ensures FirstQuote(t, i) == Some(p)
    decreases p - i
  {
    if i < p {
      FirstQuoteAt(t, i + 1, p);
    }
  }

  lemma {:induction false} ClosingAt(t: string, q: char, i: nat, p: nat)
    requires 0 < i <= p < |t| && t[p] == q && t[p - 1] != '\\'
    requires forall m :: i <= m < p ==> t[m] != q
    ensures Closing(t, q, i) == Some(p)
    decreases p - i
  {
    if i < p {
      ClosingAt(t, q, i + 1, p);
    }
  }

  // ---------------------------------------------------------------------------
  // Defaults for missing keys.

  /** `for i in keys: if i not in t_dict: t_dict[i] = dflt`. */
  function WithDefaults(d: map<string, string>, keys: seq<string>, dflt: string): (r: map<string, string>)
    ensures r.Keys == d.Keys + (set k | k in keys)
    ensures forall k :: k in d ==> r[k] == d[k]
    ensures forall k :: k in r && k !in d ==> r[k] == dflt
  {
    map k | k in d.Keys + (set k | k in keys) :: if k in d then d[k] else dflt
  }

  method FillDefaults(d: map<string, string>, keys: seq<string>, dflt: string) returns (r: map<string, string>)
    ensures r == WithDefaults(d, keys, dflt)
  {
    r := d;
    for i := 0 to |keys|
      invariant r.Keys == d.Keys + (set k | k in keys[..i])
      invariant forall k :: k in r ==> r[k] == if k in d then d[k] else dflt
    {
      if keys[i] !in r {
        r := r[keys[i] := dflt];
      }
      assert keys[..i + 1] == keys[..i] + [keys[i]];
    }
    assert keys[..|keys|] == keys;
  }

  // ---------------------------------------------------------------------------
  // create_fmts

  /** The keys `parse_perl_string` defaults to "-"; the order of the source's set is immaterial. */
  const FormatKeys: seq<string> := ["name", "engine", "patterns", "options"]

  /** The dict `parse_perl_string(temp)` returns. */
  function FmtFields(temp: string): (f: map<string, string>)
    ensures forall k :: k in FormatKeys ==> k in f
  {
    var d := KvDict(KvMatches(temp));
    var withOptions := match QuoteSpan(temp)
      case Some(o) => d["options" := o]
      case None => d;
    WithDefaults(withOptions, FormatKeys, "-")
  }

  /** The imperative `parse_perl_string`. */
  method ParsePerlString(temp: string) returns (t: map<string, string>)
    ensures t == FmtFields(temp)
  {
    t := CollectPairs(temp);
    var quotesSearch := QuoteSpan(temp);
    if quotesSearch.Some? {
      t := t["options" := quotesSearch.value];
    }
    t := FillDefaults(t, FormatKeys, "-");
  }

  /**
   * The four fields of a format line: `options` is the quoted span when there is one;
   * otherwise each field is the last quote-free `key=value` pair for it, or "-".
   */
  lemma FmtFieldsSpec(temp: string, k: string)
    requires k in FormatKeys
    ensures var ms := KvMatches(temp);
      FmtFields(temp)[k] ==
        if k == "options" && QuoteSpan(temp).Some? then QuoteSpan(temp).value
        else if LastClean(ms, k).Some? then LastClean(ms, k).value
        else "-"
  {
    KvDictLast(KvMatches(temp), k);
  }

  /** A format line without its line break. */
  function FieldsLine(f: map<string, string>): string
    requires forall k :: k in FormatKeys ==> k in f
  {
    f["name"] + " " + f["engine"] + " " + f["patterns"] + " " + f["options"]
  }

  /** `"{name} {engine} {patterns} {options}\n".format(**parsed_dict)`. */
  function FormatLine(f: map<string, string>): string
    requires forall k :: k in FormatKeys ==> k in f
  {
    FieldsLine(f) + "\n"
  }

  /** The format line, without its line break, of one entry. */
  function EntryFmtLine(e: string): string {
    FieldsLine(FmtFields(e))
  }

  /** What one `execute` entry adds to the fmts text. */
  function EntryFmt(e: string): string {
    if Contains(e, "AddFormat") then EntryFmtLine(e) + "\n" else ""
  }

  function EntriesFmts(es: seq<string>): string {
    if es == [] then "" else EntriesFmts(es[..|es| - 1]) + EntryFmt(es[|es| - 1])
  }

  /** What one package adds: its `execute` entries, a plain string counting as one entry. */
  function PackageFmts(rec: Record): string {
    if "execute" in rec then EntriesFmts(Entries(rec["execute"])) else ""
  }

  /** The text `create_fmts` writes. */
  function FmtsText(ps: Packages): string {
    if ps == [] then "" else FmtsText(ps[..|ps| - 1]) + PackageFmts(ps[|ps| - 1].1)
  }

  lemma EntriesFmtsStep(es: seq<string>, j: nat)
    requires j < |es|
    ensures EntriesFmts(es[..j + 1]) == EntriesFmts(es[..j]) + EntryFmt(es[j])
  {
    assert es[..j + 1][..j] == es[..j];
  }

  lemma EntriesFmtsSingle(e: string)
    ensures EntriesFmts([e]) == EntryFmt(e)
  {
    assert [e][..0] == [];
  }

  lemma FmtsTextStep(ps: Packages, p: nat)
    requires p < |ps|
    ensures FmtsText(ps[..p + 1]) == FmtsText(ps[..p]) + PackageFmts(ps[p].1)
  {
    assert ps[..p + 1][..p] == ps[..p];
  }

  /** The body of the loop over packages in `create_fmts`: the lines of one package. */
  method PackageFormats(tempPkg: Record) returns (finalFile: string)
    ensures finalFile == PackageFmts(tempPkg)
  {
    finalFile := "";
    if "execute" in tempPkg {
      var temp := tempPkg["execute"];
      if temp.Single? {
        if Contains(temp.s, "AddFormat") {
          var parsedDict := ParsePerlString(temp.s);
          finalFile := finalFile + FormatLine(parsedDict);
        }
        EntriesFmtsSingle(temp.s);
      } else {
        for j := 0 to |temp.items|
          invariant finalFile == EntriesFmts(temp.items[..j])
        {
          var each := temp.items[j];
          EntriesFmtsStep(temp.items, j);
          if Contains(each, "AddFormat") {
            var parsedDict := ParsePerlString(each);
            finalFile := finalFile + FormatLine(parsedDict);
          }
        }
        assert temp.items[..|temp.items|] == temp.items;
      }
    }
  }

  /** The imperative `create_fmts`, returning the text instead of writing it. */
  method CreateFmts(ps: Packages) returns (finalFile: string)
    ensures finalFile == FmtsText(ps)
  {
    finalFile := "";
    for p := 0 to |ps|
      invariant finalFile == FmtsText(ps[..p])
    {
      FmtsTextStep(ps, p);
      var lines := PackageFormats(ps[p].1);
      finalFile := finalFile + lines;
    }
    assert ps[..|ps|] == ps;
  }


  /** The entries of a list that pass the `create_fmts` gate, in order. */
  function FmtEntries(es: seq<string>): seq<string> {
    if es == [] then []
    else FmtEntries(es[..|es| - 1]) + FmtGate(es[|es| - 1])
  }

  /** One entry, kept when it passes the `create_fmts` gate. */
  function FmtGate(e: string): seq<string> {
    if Contains(e, "AddFormat") then [e] else []
  }

  /** The gated entries of every package, package by package. */
  function AllFmtEntries(ps: Packages): seq<string> {
    if ps == [] then []
    else
      var rec := ps[|ps| - 1].1;
      AllFmtEntries(ps[..|ps| - 1]) + (if "execute" in rec then FmtEntries(Entries(rec["execute"])) else [])
  }

  /** The line each gated entry gives, without its line break. */
  function FmtLines(ms: seq<string>): seq<string> {
    seq(|ms|, i requires 0 <= i < |ms| => EntryFmtLine(ms[i]))
  }

  lemma FmtLinesAppend(a: seq<string>, b: seq<string>)
    ensures FmtLines(a + b) == FmtLines(a) + FmtLines(b)
  {
    forall i | 0 <= i < |a + b| ensures FmtLines(a + b)[i] == (FmtLines(a) + FmtLines(b))[i] {
      if i >= |a| { assert (a + b)[i] == b[i - |a|]; }
    }
  }

  /** What one entry adds to the fmts text is the line of what it keeps. */
  lemma EntryFmtGate(e: string)
    ensures EntryFmt(e) == Unlines(FmtLines(FmtGate(e)))
  {
    if Contains(e, "AddFormat") {
      assert FmtLines([e]) == [EntryFmtLine(e)];
      assert Unlines([EntryFmtLine(e)]) == EntryFmtLine(e) + "\n" + "";
    } else {
      assert FmtLines([]) == [];
    }
  }

  lemma {:induction false} EntriesFmtsLines(es: seq<string>)
    ensures EntriesFmts(es) == Unlines(FmtLines(FmtEntries(es)))
  {
    if es != [] {
      var pre, e := es[..|es| - 1], es[|es| - 1];
      EntriesFmtsLines(pre);
      EntryFmtGate(e);
      FmtLinesAppend(FmtEntries(pre), FmtGate(e));
      UnlinesAppend(FmtLines(FmtEntries(pre)), FmtLines(FmtGate(e)));
    }
  }

  /**
   * `create_fmts` writes one line per entry holding "AddFormat", package by package and
   * entry by entry, each the entry's four fields separated by spaces.
   */
  lemma {:induction false} FmtsTextLines(ps: Packages)
    ensures FmtsText(ps) == Unlines(FmtLines(AllFmtEntries(ps)))
  {
    if ps != [] {
      var pre, rec := ps[..|ps| - 1], ps[|ps| - 1].1;
      FmtsTextLines(pre);
      var last := if "execute" in rec then FmtEntries(Entries(rec["execute"])) else [];
      if "execute" in rec {
        EntriesFmtsLines(Entries(rec["execute"]));
      } else {
        assert Unlines(FmtLines([])) == "";
      }
      FmtLinesAppend(AllFmtEntries(pre), last);
      UnlinesAppend(FmtLines(AllFmtEntries(pre)), FmtLines(last));
    }
  }

  // ---------------------------------------------------------------------------
  // create_maps

  /** The first index at or after `i` where `p` occurs with at least one character after it. */
  function SearchFrom(t: string, p: string, i: nat): (r: Option<nat>)
    ensures r.Some? ==> i <= r.value && OccursAt(t, p, r.value) && r.value + |p| < |t|
    ensures forall m :: i <= m && (r.None? || m < r.value) ==> !(OccursAt(t, p, m) && m + |p| < |t|)
    decreases |t| - i
  {
    if i + |p| >= |t| then None
    else if OccursAt(t, p, i) then Some(i)
    else SearchFrom(t, p, i + 1)
  }

  /** No occurrence of `p` with a character after it starts before `i`: `re.search` takes the leftmost. */
  predicate NoEarlier(t: string, p: string, i: nat) {
    forall m :: 0 <= m < i ==> !(OccursAt(t, p, m) && m + |p| < |t|)
  }

  /**
   * `re.search("add(?P<final>" + marker + "[\s\S][^\n]*)", t).group("final")`: from the
   * first "add" + marker with a character after it, the marker, that character, and the
   * rest of its line.
   */
  function MapSearch(t: string, marker: string): (r: Option<string>)
    ensures r.Some? ==>
      exists i :: 0 <= i && i + 3 + |marker| < |t| && OccursAt(t, "add" + marker, i)
        && NoEarlier(t, "add" + marker, i)
        && r.value == t[i + 3..LineEnd(t, i + 4 + |marker|)]
    ensures r.None? ==> forall i :: 0 <= i && i + 3 + |marker| < |t| ==> !OccursAt(t, "add" + marker, i)
  {
    var p := "add" + marker;
    match SearchFrom(t, p, 0)
    case None => None
    case Some(i) => Some(t[i + 3..LineEnd(t, i + |p| + 1)])
  }

  /** The gate on an entry in `create_maps`. */
  predicate IsMapEntry(e: string) {
    Contains(e, "addMap") || Contains(e, "addMixedMap") || Contains(e, "addKanjiMap")
  }

  /** `parse_string` of `create_maps`: MixedMap before Map before KanjiMap; None when the chosen search fails. */
  function MapLine(e: string): Option<string> {
    if Contains(e, "addMixedMap") then MapSearch(e, "MixedMap")
    else if Contains(e, "addMap") then MapSearch(e, "Map")
    else if Contains(e, "addKanjiMap") then MapSearch(e, "KanjiMap")
    else None
  }

  /** The raw text the entries add; `+= None` raises TypeError. */
  function EntriesMaps(es: seq<string>): Result<string> {
    if es == [] then Ok("")
    else
      match EntriesMaps(es[..|es| - 1])
      case Err(err) => Err(err)
      case Ok(s) =>
        var e := es[|es| - 1];
        if !IsMapEntry(e) then Ok(s)
        else
          match MapLine(e)
          case None => Err(TypeError)
          case Some(l) => Ok(s + l + "\n")
  }

  function PackageMaps(rec: Record): Result<string> {
    if "execute" in rec then EntriesMaps(Entries(rec["execute"])) else Ok("")
  }

  /** `final_file` before sorting. */
  function MapsRaw(ps: Packages): Result<string> {
    if ps == [] then Ok("")
    else
      match MapsRaw(ps[..|ps| - 1])
      case Err(err) => Err(err)
      case Ok(s) =>
        match PackageMaps(ps[|ps| - 1].1)
        case Err(err) => Err(err)
        case Ok(t) => Ok(s + t)
  }

  /** `"\n".join(sorted(final_file.split("\n")))`; the `strip()` result is discarded in the source. */
  function SortLines(raw: string): string {
    Join("\n", SortStrings(Split(raw, '\n')))
  }

  /** The text `create_maps` writes, or the TypeError it raises. */
  function MapsText(ps: Packages): Result<string> {
    match MapsRaw(ps)
    case Err(err) => Err(err)
    case Ok(raw) => Ok(SortLines(raw))
  }

  lemma EntriesMapsStep(es: seq<string>, j: nat)
    requires j < |es|
    ensures EntriesMaps(es[..j + 1]) ==
      match EntriesMaps(es[..j])
      case Err(err) => Err(err)
      case Ok(s) =>
        if !IsMapEntry(es[j]) then Ok(s)
        else
          match MapLine(es[j])
          case None => Err(TypeError)
          case Some(l) => Ok(s + l + "\n")
  {
    assert es[..j + 1][..j] == es[..j];
  }

  lemma {:induction false} EntriesMapsErrPersists(es: seq<string>, j: nat)
    requires j <= |es| && EntriesMaps(es[..j]).Err?
    ensures EntriesMaps(es) == EntriesMaps(es[..j])
    decreases |es| - j
  {
    if j < |es| {
      EntriesMapsStep(es, j);
      EntriesMapsErrPersists(es, j + 1);
    } else {
      assert es[..j] == es;
    }
  }

  /** The body of the loop over packages in `create_maps`: the raw lines of one package. */
  method PackageMapLines(tempPkg: Record) returns (r: Result<string>)
    ensures r == PackageMaps(tempPkg)
  {
    var finalFile := "";
    if "execute" in tempPkg {
      var temp := tempPkg["execute"];
      if temp.Single? {
        assert [temp.s][..0] == [] && [temp.s][..1] == [temp.s];
        EntriesMapsStep([temp.s], 0);
        if Contains(temp.s, "addMap") || Contains(temp.s, "addMixedMap") || Contains(temp.s, "addKanjiMap") {
          var line := MapLine(temp.s);
          if line.None? {
            return Err(TypeError);
          }
          finalFile := finalFile + line.value;
          finalFile := finalFile + "\n";
        }
      } else {
        for j := 0 to |temp.items|
          invariant EntriesMaps(temp.items[..j]) == Ok(finalFile)
        {
          var each := temp.items[j];
          EntriesMapsStep(temp.items, j);
          if Contains(each, "addMap") || Contains(each, "addMixedMap") || Contains(each, "addKanjiMap") {
            var line := MapLine(each);
            if line.None? {
              EntriesMapsErrPersists(temp.items, j + 1);
              return Err(TypeError);
            }
            finalFile := finalFile + line.value;
            finalFile := finalFile + "\n";
          }
        }
        assert temp.items[..|temp.items|] == temp.items;
      }
    }
    return Ok(finalFile);
  }

  lemma MapsRawStep(ps: Packages, p: nat)
    requires p < |ps|
    ensures MapsRaw(ps[..p + 1]) ==
      match MapsRaw(ps[..p])
      case Err(err) => Err(err)
      case Ok(s) =>
        match PackageMaps(ps[p].1)
        case Err(err) => Err(err)
        case Ok(t) => Ok(s + t)
  {
    assert ps[..p + 1][..p] == ps[..p];
  }

  lemma {:induction false} MapsRawErrPersists(ps: Packages, p: nat)
    requires p <= |ps| && MapsRaw(ps[..p]).Err?
    ensures MapsRaw(ps) == MapsRaw(ps[..p])
    decreases |ps| - p
  {
    if p < |ps| {
      MapsRawStep(ps, p);
      MapsRawErrPersists(ps, p + 1);
    } else {
      assert ps[..p] == ps;
    }
  }

  /** The imperative `create_maps`, returning the text instead of writing it. */
  method CreateMaps(ps: Packages) returns (r: Result<string>)
    ensures r == MapsText(ps)
  {
    var finalFile := "";
    for p := 0 to |ps|
      invariant MapsRaw(ps[..p]) == Ok(finalFile)
    {
      MapsRawStep(ps, p);
      var lines := PackageMapLines(ps[p].1);
      if lines.Err? {
        MapsRawErrPersists(ps, p + 1);
        return Err(lines.error);
      }
      finalFile := finalFile + lines.value;
    }
    assert ps[..|ps|] == ps;
    var tempLines := Split(finalFile, '\n');
    tempLines := SortStrings(tempLines);
    finalFile := Join("\n", tempLines);
    return Ok(finalFile);
  }

  /**
   * The maps text is the raw lines sorted: splitting it at line breaks gives exactly the
   * sorted permutation of the raw text's pieces.
   */
  lemma SortLinesSplit(raw: string)
    ensures Split(SortLines(raw), '\n') == SortStrings(Split(raw, '\n'))
    ensures Sorted(Split(SortLines(raw), '\n'))
    ensures multiset(Split(SortLines(raw), '\n')) == multiset(Split(raw, '\n'))
  {
    var pieces := Split(raw, '\n');
    var sorted := SortStrings(pieces);
    forall i | 0 <= i < |sorted| ensures '\n' !in sorted[i] {
      assert sorted[i] in multiset(pieces);
    }
    SplitJoin(sorted, '\n');
    SortStringsSorted(pieces);
  }

  /** With no map entry at all the file is empty. */
  lemma SortLinesEmpty()
    ensures SortLines("") == ""
  {
    assert Split("", '\n') == [""];
    assert SortStrings([""]) == [""];
  }

  /**
   * For text made of whole lines, the empty piece after the last line break sorts first:
   * the file is a line break followed by the sorted lines joined by line breaks.
   */
  lemma SortLinesOfLines(ls: seq<string>)
    requires forall i :: 0 <= i < |ls| ==> '\n' !in ls[i]
    ensures SortLines(Unlines(ls)) == Join("\n", [""] + SortStrings(ls))
    ensures ls != [] ==> SortLines(Unlines(ls)) == "\n" + Join("\n", SortStrings(ls))
  {
    SplitUnlines(ls);
    SortEmptyFirst(ls);
    if ls != [] {
      JoinEmptyHead(SortStrings(ls));
    }
  }

  lemma JoinEmptyHead(xs: seq<string>)
    requires xs != []
    ensures Join("\n", [""] + xs) == "\n" + Join("\n", xs)
  {
    var ys := [""] + xs;
    assert ys[1..] == xs;
  }

  /** The entries of a list that pass the `create_maps` gate, in order. */
  function MapEntries(es: seq<string>): seq<string> {
    if es == [] then []
    else MapEntries(es[..|es| - 1]) + (if IsMapEntry(es[|es| - 1]) then [es[|es| - 1]] else [])
  }

  /** The gated entries of every package, package by package. */
  function AllMapEntries(ps: Packages): seq<string> {
    if ps == [] then []
    else
      var rec := ps[|ps| - 1].1;
      AllMapEntries(ps[..|ps| - 1]) + (if "execute" in rec then MapEntries(Entries(rec["execute"])) else [])
  }

  predicate AllMapped(ms: seq<string>) {
    forall i :: 0 <= i < |ms| ==> MapLine(ms[i]).Some?
  }

  /** The line each gated entry gives. */
  function LinesOf(ms: seq<string>): seq<string>
    requires AllMapped(ms)
  {
    seq(|ms|, i requires 0 <= i < |ms| => MapLine(ms[i]).value)
  }

  lemma AllMappedAppend(a: seq<string>, b: seq<string>)
    ensures AllMapped(a + b) <==> AllMapped(a) && AllMapped(b)
  {
    if AllMapped(a) && AllMapped(b) {
      forall i | 0 <= i < |a + b| ensures MapLine((a + b)[i]).Some? {
        if i >= |a| { assert (a + b)[i] == b[i - |a|]; }
      }
    }
    if AllMapped(a + b) {
      forall i | 0 <= i < |b| ensures MapLine(b[i]).Some? {
        assert (a + b)[|a| + i] == b[i];
      }
      forall i | 0 <= i < |a| ensures MapLine(a[i]).Some? {
        assert (a + b)[i] == a[i];
      }
    }
  }

  lemma LinesOfAppend(a: seq<string>, b: seq<string>)
    requires AllMapped(a) && AllMapped(b)
    ensures AllMapped(a + b) && LinesOf(a + b) == LinesOf(a) + LinesOf(b)
  {
    AllMappedAppend(a, b);
    forall i | 0 <= i < |a + b| ensures LinesOf(a + b)[i] == (LinesOf(a) + LinesOf(b))[i] {
      var e := (a + b)[i];
      assert LinesOf(a + b)[i] == MapLine(e).value;
      if i < |a| {
        assert e == a[i];
        assert (LinesOf(a) + LinesOf(b))[i] == LinesOf(a)[i];
      } else {
        assert e == b[i - |a|];
        assert (LinesOf(a) + LinesOf(b))[i] == LinesOf(b)[i - |a|];
      }
    }
  }

  /**
   * The entries of one list: the text fails with TypeError exactly when a gated entry's
   * search fails; otherwise it holds one line per gated entry, in order.
   */
  lemma {:induction false} EntriesMapsLines(es: seq<string>)
    ensures EntriesMaps(es).Ok? <==> AllMapped(MapEntries(es))
    ensures EntriesMaps(es).Ok? ==> EntriesMaps(es).value == Unlines(LinesOf(MapEntries(es)))
  {
    if es != [] {
      var pre, e := es[..|es| - 1], es[|es| - 1];
      EntriesMapsLines(pre);
      var last := if IsMapEntry(e) then [e] else [];
      AllMappedAppend(MapEntries(pre), last);
      if EntriesMaps(pre).Ok? && AllMapped(last) {
        LinesOfAppend(MapEntries(pre), last);
        UnlinesAppend(LinesOf(MapEntries(pre)), LinesOf(last));
        if IsMapEntry(e) {
          assert LinesOf([e]) == [MapLine(e).value];
          assert Unlines([MapLine(e).value]) == MapLine(e).value + "\n" + "";
        } else {
          assert MapEntries(pre) + last == MapEntries(pre);
        }
      }
    }
  }

  /** The raw maps text of all packages: one line per gated entry, package by package. */
  lemma {:induction false} MapsRawLines(ps: Packages)
    ensures MapsRaw(ps).Ok? <==> AllMapped(AllMapEntries(ps))
    ensures MapsRaw(ps).Ok? ==> MapsRaw(ps).value == Unlines(LinesOf(AllMapEntries(ps)))
  {
    if ps != [] {
      var pre, rec := ps[..|ps| - 1], ps[|ps| - 1].1;
      MapsRawLines(pre);
      var last := if "execute" in rec then MapEntries(Entries(rec["execute"])) else [];
      if "execute" in rec {
        EntriesMapsLines(Entries(rec["execute"]));
      } else {
        assert Unlines(LinesOf([])) == "";
      }
      AllMappedAppend(AllMapEntries(pre), last);
      if MapsRaw(pre).Ok? && AllMapped(last) {
        LinesOfAppend(AllMapEntries(pre), last);
        UnlinesAppend(LinesOf(AllMapEntries(pre)), LinesOf(last));
      }
    }
  }

  /**
   * No `execute` entry of any package holds a line break past its first character. This
   * is the shape of every value `parse_perl` builds (`MatchValueShape`): `[\s\S]` may take the
   * break that ends a line such as "execute ", and `[^\n]*` stops at the next one.
   */
  predicate NoBreaks(ps: Packages) {
    forall p, i :: 0 <= p < |ps| && "execute" in ps[p].1 && 0 <= i < |Entries(ps[p].1["execute"])| ==>
      BreakOnlyFirst(Entries(ps[p].1["execute"])[i])
  }

  lemma {:induction false} MapEntriesFrom(es: seq<string>, x: string)
    requires x in MapEntries(es)
    ensures x in es && IsMapEntry(x)
  {
    if es != [] {
      if x !in MapEntries(es[..|es| - 1]) {
        assert x == es[|es| - 1];
      } else {
        MapEntriesFrom(es[..|es| - 1], x);
      }
    }
  }

  lemma {:induction false} AllMapEntriesNoBreak(ps: Packages)
    requires NoBreaks(ps)
    ensures forall i :: 0 <= i < |AllMapEntries(ps)| ==> BreakOnlyFirst(AllMapEntries(ps)[i])
  {
    if ps != [] {
      var pre, rec := ps[..|ps| - 1], ps[|ps| - 1].1;
      assert NoBreaks(pre) by {
        forall p, i | 0 <= p < |pre| && "execute" in pre[p].1 && 0 <= i < |Entries(pre[p].1["execute"])|
          ensures BreakOnlyFirst(Entries(pre[p].1["execute"])[i])
        {
          assert pre[p] == ps[p];
        }
      }
      AllMapEntriesNoBreak(pre);
      forall i | 0 <= i < |AllMapEntries(ps)| ensures BreakOnlyFirst(AllMapEntries(ps)[i]) {
        var x := AllMapEntries(ps)[i];
        if i >= |AllMapEntries(pre)| {
          assert "execute" in rec;
          var es := Entries(rec["execute"]);
          assert x in MapEntries(es);
          MapEntriesFrom(es, x);
          var k :| 0 <= k < |es| && es[k] == x;
          assert BreakOnlyFirst(es[k]);
        } else {
          assert x == AllMapEntries(pre)[i];
        }
      }
    }
  }

  /** A map line starts at least three characters into its entry, past any line break there. */
  lemma MapLineNoBreak(e: string)
    requires BreakOnlyFirst(e) && MapLine(e).Some?
    ensures '\n' !in MapLine(e).value
  {
    if Contains(e, "addMixedMap") {
      SearchNoBreak(e, "MixedMap");
    } else if Contains(e, "addMap") {
      SearchNoBreak(e, "Map");
    } else {
      SearchNoBreak(e, "KanjiMap");
    }
  }

  lemma SearchNoBreak(e: string, marker: string)
    requires BreakOnlyFirst(e) && MapSearch(e, marker).Some?
    ensures '\n' !in MapSearch(e, marker).value
  {
    var i := SearchFrom(e, "add" + marker, 0).value;
    var v := MapSearch(e, marker).value;
    assert v == e[i + 3..LineEnd(e, i + 4 + |marker|)];
    forall k | 0 <= k < |v| ensures v[k] != '\n' {
      assert v[k] == e[i + 3 + k];
    }
  }

  /**
   * `create_maps`, end to end: it fails with TypeError exactly when some gated entry has
   * nothing after its marker; otherwise, when no entry holds a line break past its first character, the file is the
   * empty string for no gated entry, and else a line break followed by the gated entries'
   * lines in ascending order, joined by line breaks.
   */
  lemma MapsTextSpec(ps: Packages)
    requires NoBreaks(ps)
    ensures MapsText(ps).Ok? <==> AllMapped(AllMapEntries(ps))
    ensures MapsText(ps).Ok? ==>
      MapsText(ps).value == Join("\n", [""] + SortStrings(LinesOf(AllMapEntries(ps))))
    ensures MapsText(ps).Ok? && AllMapEntries(ps) == [] ==> MapsText(ps).value == ""
  {
    MapsRawLines(ps);
    if MapsRaw(ps).Ok? {
      var ms := AllMapEntries(ps);
      AllMapEntriesNoBreak(ps);
      var ls := LinesOf(ms);
      forall i | 0 <= i < |ls| ensures '\n' !in ls[i] {
        MapLineNoBreak(ms[i]);
      }
      SortLinesOfLines(ls);
      if ms == [] {
        SortLinesEmpty();
      }
    }
  }
}
