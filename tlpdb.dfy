/**
 * The TeX Live package database (`texlive.tlpdb`) parser of download_archives.py:
 * `parse_perl`, which turns one block of `key value` lines into a record, and
 * `get_all_packages`, which cuts the file's lines into blank-line-terminated blocks.
 */
module Tlpdb {
  import opened Text

  /** An attribute value: the first occurrence of a key is a plain string, a repeated key a list. */
  datatype Value = Single(s: string) | Multi(items: seq<string>)

  type Record = map<string, Value>

  /** Package name to record, as `get_all_packages` returns it. */
  type Database = map<string, Record>

  /** The Python exceptions the core lets escape. */
  datatype Error = KeyError(key: string) | TypeError | IndexError

  datatype Result<T> = Ok(value: T) | Err(error: Error)

  /** All strings a value holds, in order: a plain string is a one-element list. */
  function Entries(v: Value): seq<string> {
    match v
    case Single(s) => [s]
    case Multi(items) => items
  }

  function Quoted(xs: seq<string>): string {
    if xs == [] then ""
    else if |xs| == 1 then "'" + xs[0] + "'"
    else "'" + xs[0] + "', " + Quoted(xs[1..])
  }

  /** `str(value)`: the string itself, or the list's repr (without repr's escaping). */
  function Str(v: Value): string {
    match v
    case Single(s) => s
    case Multi(items) => "[" + Quoted(items) + "]"
  }

  predicate AnyDot(xs: seq<string>) {
    exists i :: 0 <= i < |xs| && '.' in xs[i]
  }

  lemma {:induction false} DotInQuoted(xs: seq<string>)
    ensures '.' in Quoted(xs) <==> AnyDot(xs)
  {
    if |xs| > 1 {
      DotInQuoted(xs[1..]);
      assert forall i :: 1 <= i < |xs| ==> xs[i] == xs[1..][i - 1];
    }
  }

  /** `"." in str(value)` holds exactly when one of the value's strings holds a dot. */
  lemma DotInStr(v: Value)
    ensures '.' in Str(v) <==> AnyDot(Entries(v))
  {
    if v.Multi? {
      DotInQuoted(v.items);
      var q := Quoted(v.items);
      assert Entries(v) == v.items;
      assert '.' in Str(v) <==> '.' in q by {
        assert Str(v) == "[" + q + "]";
      }
    } else {
      assert Entries(v) == [v.s];
      assert AnyDot([v.s]) <==> '.' in v.s by {
        assert [v.s][0] == v.s;
      }
    }
  }

  // ---------------------------------------------------------------------------
  // The regex `(?P<key>\S*) (?P<value>[\s\S][^\n]*)` and its finditer.

  /** Length of the maximal leading run of non-whitespace characters. */
  function NonSpaceRun(t: string): (j: nat)
    ensures j <= |t|
    ensures forall i :: 0 <= i < j ==> !IsSpace(t[i])
    ensures j < |t| ==> IsSpace(t[j])
  {
    if |t| > 0 && !IsSpace(t[0]) then 1 + NonSpaceRun(t[1..]) else 0
  }

  /** The index of the first newline at or after `i`, or |t|. */
  function LineEnd(t: string, i: nat): (e: nat)
    requires i <= |t|
    ensures i <= e <= |t|
    ensures forall k :: i <= k < e ==> t[k] != '\n'
    ensures e < |t| ==> t[e] == '\n'
    decreases |t| - i
  {
    if i < |t| && t[i] != '\n' then LineEnd(t, i + 1) else i
  }

  datatype Hit = Hit(key: string, value: string, end: nat)

  /** A line break, if `s` holds one, is its first character: the shape `[\s\S][^\n]*` gives values. */
  predicate BreakOnlyFirst(s: string) {
    forall k :: 1 <= k < |s| ==> s[k] != '\n'
  }

  /**
   * The regex tried at the start of `t`. `\S*` is greedy and only a literal space may
   * follow it, so the key is the whole non-space run; `[\s\S]` takes one character of
   * any kind and `[^\n]*` the rest of that line.
   */
  function MatchAt(t: string): (r: Option<Hit>)
    ensures r.Some? ==> 2 <= r.value.end <= |t|
  {
    var j := NonSpaceRun(t);
    if j + 1 < |t| && t[j] == ' ' then
      var e := LineEnd(t, j + 2);
      Some(Hit(t[..j], t[j + 1..e], e))
    else None
  }

  /**
   * A value is never empty and holds a line break at most as its first character:
   * `[\s\S]` may take the break that ends a line such as "execute ", and `[^\n]*` stops
   * at the next one.
   */
  lemma MatchValueShape(t: string)
    requires MatchAt(t).Some?
    ensures |MatchAt(t).value.value| > 0 && BreakOnlyFirst(MatchAt(t).value.value)
  {
    var j := NonSpaceRun(t);
    var v := MatchAt(t).value.value;
    forall k | 1 <= k < |v| ensures v[k] != '\n' {
      assert v[k] == t[j + 1 + k];
    }
  }

  datatype Option<T> = None | Some(value: T)

  /** The (key, value) groups of `finditer` over `t`, left to right. */
  function Matches(t: string): seq<(string, string)>
    decreases |t|
  {
    if t == [] then []
    else
      match MatchAt(t)
      case Some(h) => [(h.key, h.value)] + Matches(t[h.end..])
      case None => Matches(t[1..])
  }

  /** A line break is never part of a match start. */
  lemma SkipNewline(rest: string)
    ensures Matches("\n" + rest) == Matches(rest)
  {
    assert ("\n" + rest)[1..] == rest;
  }

  /**
   * A line `k v`, with `k` free of whitespace and `v` of line breaks, yields exactly the
   * pair (k, v): the key is the leading non-space run, the value is everything after the
   * first space up to the end of the line, leading spaces included. An empty `k` (a line
   * that starts with a space) gives the empty key.
   */
  lemma {:induction false} MatchesLine(k: string, v: string, rest: string)
    requires forall i :: 0 <= i < |k| ==> !IsSpace(k[i])
    requires |v| > 0 && '\n' !in v
    requires rest == [] || rest[0] == '\n'
    ensures Matches(k + " " + v + rest) == [(k, v)] + Matches(rest)
  {
    var t := k + " " + v + rest;
    NonSpaceRunPrefix(k, " " + v + rest);
    assert t == k + (" " + v + rest);
    assert NonSpaceRun(t) == |k|;
    assert t[|k|] == ' ';
    var e := LineEnd(t, |k| + 2);
    assert forall i :: |k| + 1 <= i < |k| + 1 + |v| ==> t[i] == v[i - |k| - 1];
    LineEndAt(t, |k| + 2, |k| + 1 + |v|);
    assert e == |k| + 1 + |v|;
    assert t[|k| + 1..e] == v;
    assert t[..|k|] == k;
    assert t[e..] == rest;
  }

  lemma {:induction false} NonSpaceRunPrefix(k: string, t: string)
    requires forall i :: 0 <= i < |k| ==> !IsSpace(k[i])
    requires |t| > 0 && IsSpace(t[0])
    ensures NonSpaceRun(k + t) == |k|
  {
    if k != [] {
      assert (k + t)[1..] == k[1..] + t;
      NonSpaceRunPrefix(k[1..], t);
    } else {
      assert k + t == t;
    }
  }

  lemma {:induction false} LineEndAt(t: string, i: nat, e: nat)
    requires i <= e <= |t|
    requires forall k :: i <= k < e ==> t[k] != '\n'
    requires e == |t| || t[e] == '\n'
    ensures LineEnd(t, i) == e
    decreases e - i
  {
    if i < e {
      LineEndAt(t, i + 1, e);
    }
  }

  /** A line without any space character yields no match at all. */
  lemma {:induction false} MatchesNoSpaceLine(l: string, rest: string)
    requires ' ' !in l && '\n' !in l
    ensures Matches(l + "\n" + rest) == Matches(rest)
  {
    var t := l + "\n" + rest;
    if l == [] {
      assert t == "\n" + rest;
      SkipNewline(rest);
    } else {
      var j := NonSpaceRun(t);
      assert forall i :: 0 <= i < |l| ==> t[i] == l[i];
      assert t[|l|] == '\n';
      assert IsSpace(t[|l|]);
      assert j <= |l|;
      assert MatchAt(t).None?;
      assert t[1..] == l[1..] + "\n" + rest;
      MatchesNoSpaceLine(l[1..], rest);
    }
  }

  // ---------------------------------------------------------------------------
  // parse_perl: fold the matches into a record.

  /** One step of the `for findings in ...` loop: empty keys are skipped. */
  function Add(d: Record, k: string, v: string): Record {
    if k == "" then d
    else if k in d then
      match d[k]
      case Single(s) => d[k := Multi([s, v])]
      case Multi(xs) => d[k := Multi(xs + [v])]
    else d[k := Single(v)]
  }

  function Fold(ms: seq<(string, string)>): Record {
    if ms == [] then map[] else Add(Fold(ms[..|ms| - 1]), ms[|ms| - 1].0, ms[|ms| - 1].1)
  }

  /** The record `parse_perl` builds from one block of text. */
  function Parse(text: string): Record {
    Fold(Matches(text))
  }

  /** The values of every pair with key `k`, in source order. */
  function Occurrences(ms: seq<(string, string)>, k: string): seq<string> {
    if ms == [] then []
    else Occurrences(ms[..|ms| - 1], k) + (if ms[|ms| - 1].0 == k then [ms[|ms| - 1].1] else [])
  }

  /**
   * What `parse_perl` stores for a key: nothing for the empty key or an absent one; a
   * plain string for a key seen once; otherwise the list of all its values in source order.
   */
  lemma {:induction false} FoldCharacterization(ms: seq<(string, string)>, k: string)
    ensures k in Fold(ms) <==> k != "" && Occurrences(ms, k) != []
    ensures k in Fold(ms) ==> Entries(Fold(ms)[k]) == Occurrences(ms, k)
    ensures k in Fold(ms) ==> (Fold(ms)[k].Single? <==> |Occurrences(ms, k)| == 1)
  {
    if ms != [] {
      FoldCharacterization(ms[..|ms| - 1], k);
    }
  }

  /** The imperative `parse_perl`: fills the dictionary match by match. */
  method ParsePerl(text: string) returns (d: Record)
    ensures d == Parse(text)
  {
    var ms := Matches(text);
    d := map[];
    var i := 0;
    while i < |ms|
      invariant 0 <= i <= |ms|
      invariant d == Fold(ms[..i])
    {
      var (key, value) := ms[i];
      if key != "" {
        if key in d {
          var existsValue := d[key];
          if existsValue.Single? {
            existsValue := Multi([d[key].s, value]);
          } else {
            existsValue := Multi(existsValue.items + [value]);
          }
          d := d[key := existsValue];
        } else {
          d := d[key := Single(value)];
        }
      }
      assert ms[..i + 1][..i] == ms[..i];
      i := i + 1;
    }
    assert ms[..|ms|] == ms;
  }

  // ---------------------------------------------------------------------------
  // Serialising a record's pairs as lines and parsing them back.

  predicate WellFormedPair(p: (string, string)) {
    |p.0| > 0 && (forall i :: 0 <= i < |p.0| ==> !IsSpace(p.0[i])) && |p.1| > 0 && '\n' !in p.1
  }

  function Serialize(ps: seq<(string, string)>): string {
    if ps == [] then ""
    else if |ps| == 1 then ps[0].0 + " " + ps[0].1
    else ps[0].0 + " " + ps[0].1 + "\n" + Serialize(ps[1..])
  }

  lemma {:induction false} MatchesSerialize(ps: seq<(string, string)>)
    requires forall i :: 0 <= i < |ps| ==> WellFormedPair(ps[i])
    ensures Matches(Serialize(ps)) == ps
  {
    if |ps| == 1 {
      MatchesLine(ps[0].0, ps[0].1, "");
      assert ps[0].0 + " " + ps[0].1 + "" == Serialize(ps);
    } else if |ps| > 1 {
      var rest := "\n" + Serialize(ps[1..]);
      MatchesLine(ps[0].0, ps[0].1, rest);
      assert Serialize(ps) == ps[0].0 + " " + ps[0].1 + rest;
      SkipNewline(Serialize(ps[1..]));
      MatchesSerialize(ps[1..]);
      assert [ps[0]] + ps[1..] == ps;
    }
  }

  /**
   * Round trip: writing well-formed pairs as `key value` lines and parsing them gives every
   * key its values in the original order, a plain string exactly for the keys seen once.
   */
  lemma ParseSerialize(ps: seq<(string, string)>, k: string)
    requires forall i :: 0 <= i < |ps| ==> WellFormedPair(ps[i])
    ensures k in Parse(Serialize(ps)) <==> k != "" && Occurrences(ps, k) != []
    ensures k in Parse(Serialize(ps)) ==> Entries(Parse(Serialize(ps))[k]) == Occurrences(ps, k)
    ensures k in Parse(Serialize(ps)) ==> (Parse(Serialize(ps))[k].Single? <==> |Occurrences(ps, k)| == 1)
  {
    MatchesSerialize(ps);
    FoldCharacterization(ps, k);
  }

  // ---------------------------------------------------------------------------
  // get_all_packages: blocks terminated by a "\n" line.

  /** The text `"".join(lines[last:n]).strip()` handed to `parse_perl`, for the block's lines. */
  function BlockText(block: seq<string>): string {
    Strip(Concat(block))
  }

  /**
   * What one block of lines adds: KeyError without `name`, nothing when str(name) has a
   * dot, else the record under str(name).
   */
  function AddBlock(db: Database, block: seq<string>): (r: Result<Database>)
    ensures r.Err? ==> r.error == KeyError("name")
  {
    var rec := Parse(BlockText(block));
    if "name" !in rec then Err(KeyError("name"))
    else
      var name := Str(rec["name"]);
      if '.' in name then Ok(db) else Ok(db[name := rec])
  }

  datatype ScanState = ScanState(db: Database, last: nat)

  /** A way of filing one block of lines into the database; the loop files with AddBlock. */
  type Filer = (Database, seq<string>) -> Result<Database>

  /**
   * The state of the loop of `get_all_packages` after the first `n` lines, with the filing
   * step `add` left as a parameter: how the lines are cut into blocks does not depend on it.
   */
  function ScanWith(add: Filer, lines: seq<string>, n: nat): (r: Result<ScanState>)
    requires n <= |lines|
    ensures r.Ok? ==> r.value.last <= n
  {
    if n == 0 then Ok(ScanState(map[], 0))
    else
      match ScanWith(add, lines, n - 1)
      case Err(e) => Err(e)
      case Ok(st) =>
        if lines[n - 1] == "\n" then
          match add(st.db, lines[st.last..n])
          case Err(e) => Err(e)
          case Ok(db) => Ok(ScanState(db, n - 1))
        else Ok(st)
  }

  /** The state of the loop of `get_all_packages` after the first `n` lines. */
  function Scan(lines: seq<string>, n: nat): (r: Result<ScanState>)
    requires n <= |lines|
    ensures r.Ok? ==> r.value.last <= n
  {
    ScanWith(AddBlock, lines, n)
  }

  function AllPackages(lines: seq<string>): Result<Database> {
    match Scan(lines, |lines|)
    case Err(e) => Err(e)
    case Ok(st) => Ok(st.db)
  }

  /** The imperative `get_all_packages`, over the lines `readlines()` returns. */
  method GetAllPackages(lines: seq<string>) returns (r: Result<Database>)
    ensures r == AllPackages(lines)
  {
    var packageList: Database := map[];
    var lastLine := 0;
    var n := 0;
    while n < |lines|
      invariant 0 <= n <= |lines|
      invariant Scan(lines, n) == Ok(ScanState(packageList, lastLine))
    {
      if lines[n] == "\n" {
        var added := ReadBlock(packageList, lines[lastLine..n + 1]);
        ScanBlankStep(AddBlock, lines, n, packageList, lastLine);
        if added.Err? {
          ScanErrPersists(AddBlock, lines, n + 1, |lines|);
          return Err(KeyError("name"));
        }
        packageList := added.value;
        lastLine := n;
      } else {
        ScanOtherStep(AddBlock, lines, n, packageList, lastLine);
      }
      n := n + 1;
    }
    r := Ok(packageList);
  }

  /** The body of the loop of `get_all_packages` for a blank line: parse the block, file it. */
  method ReadBlock(packageList: Database, block: seq<string>) returns (r: Result<Database>)
    ensures r == AddBlock(packageList, block)
  {
    var tmp := Strip(Concat(block));
    var tmpDict := ParsePerl(tmp);
    if "name" !in tmpDict {
      return Err(KeyError("name"));
    }
    var name := Str(tmpDict["name"]);
    if '.' !in name {
      return Ok(packageList[name := tmpDict]);
    }
    return Ok(packageList);
  }

  lemma ScanBlankStep(add: Filer, lines: seq<string>, n: nat, db: Database, last: nat)
    requires n < |lines| && lines[n] == "\n"
    requires ScanWith(add, lines, n) == Ok(ScanState(db, last))
    ensures last <= n
    ensures ScanWith(add, lines, n + 1) ==
      match add(db, lines[last..n + 1])
      case Err(e) => Err(e)
      case Ok(db') => Ok(ScanState(db', n))
  {
  }

  lemma ScanOtherStep(add: Filer, lines: seq<string>, n: nat, db: Database, last: nat)
    requires n < |lines| && lines[n] != "\n"
    requires ScanWith(add, lines, n) == Ok(ScanState(db, last))
    ensures ScanWith(add, lines, n + 1) == Ok(ScanState(db, last))
  {
  }

  /** Once a block fails to file, the loop has returned: the error is the result. */
  lemma {:induction false} ScanErrPersists(add: Filer, lines: seq<string>, m: nat, n: nat)
    requires m <= n <= |lines|
    requires ScanWith(add, lines, m).Err?
    ensures ScanWith(add, lines, n) == ScanWith(add, lines, m)
    decreases n - m
  {
    if m < n {
      ScanErrPersists(add, lines, m, n - 1);
    }
  }

  /** The loop's state depends only on the lines already read. */
  lemma {:induction false} ScanPrefix(add: Filer, lines: seq<string>, tail: seq<string>, n: nat)
    requires n <= |lines|
    ensures ScanWith(add, lines + tail, n) == ScanWith(add, lines, n)
  {
    if n > 0 {
      ScanPrefix(add, lines, tail, n - 1);
      assert (lines + tail)[n - 1] == lines[n - 1];
      var st := ScanWith(add, lines, n - 1);
      if st.Ok? {
        assert (lines + tail)[st.value.last..n] == lines[st.value.last..n];
      }
    }
  }

  /**
   * A final block with no terminating "\n" line is never parsed: lines after the last
   * blank line do not change the result, whatever they hold.
   */
  lemma AllPackagesIgnoresUnterminatedTail(lines: seq<string>, tail: seq<string>)
    requires forall i :: 0 <= i < |tail| ==> tail[i] != "\n"
    ensures AllPackages(lines + tail) == AllPackages(lines)
  {
    ScanPrefix(AddBlock, lines, tail, |lines|);
    ScanTail(AddBlock, lines, tail, |tail|);
  }

  lemma {:induction false} ScanTail(add: Filer, lines: seq<string>, tail: seq<string>, j: nat)
    requires j <= |tail|
    requires forall i :: 0 <= i < |tail| ==> tail[i] != "\n"
    requires ScanWith(add, lines + tail, |lines|) == ScanWith(add, lines, |lines|)
    ensures ScanWith(add, lines + tail, |lines| + j) == ScanWith(add, lines, |lines|)
  {
    if j > 0 {
      ScanTail(add, lines, tail, j - 1);
      assert (lines + tail)[|lines| + j - 1] == tail[j - 1];
    }
  }

  /** Every key of the database is dot-free and is the str() of its record's `name`. */
  predicate KeysAreNames(db: Database) {
    forall k :: k in db ==> '.' !in k && "name" in db[k] && Str(db[k]["name"]) == k
  }

  lemma AddBlockKeys(db: Database, block: seq<string>)
    requires KeysAreNames(db)
    ensures AddBlock(db, block).Ok? ==> KeysAreNames(AddBlock(db, block).value)
  {
  }

  lemma {:induction false} ScanKeysAreNames(lines: seq<string>, n: nat)
    requires n <= |lines|
    ensures Scan(lines, n).Ok? ==> KeysAreNames(Scan(lines, n).value.db)
  {
    if n > 0 {
      ScanKeysAreNames(lines, n - 1);
      var prev := Scan(lines, n - 1);
      if prev.Err? {
        ScanErrPersists(AddBlock, lines, n - 1, n);
      } else if lines[n - 1] == "\n" {
        ScanBlankStep(AddBlock, lines, n - 1, prev.value.db, prev.value.last);
        AddBlockKeys(prev.value.db, lines[prev.value.last..n]);
      } else {
        ScanOtherStep(AddBlock, lines, n - 1, prev.value.db, prev.value.last);
      }
    }
  }

  /**
   * `get_all_packages` keeps only blocks whose name has no dot, and files each record
   * under its own name.
   */
  lemma AllPackagesKeys(lines: seq<string>)
    ensures AllPackages(lines).Ok? ==> KeysAreNames(AllPackages(lines).value)
  {
    ScanKeysAreNames(lines, |lines|);
  }

  /**
   * A blank line that starts the file or follows another blank line closes an empty
   * block, which has no `name`: the whole parse fails with KeyError.
   */
  lemma EmptyBlockFails(lines: seq<string>, i: nat)
    requires i < |lines| && lines[i] == "\n"
    requires i == 0 || lines[i - 1] == "\n"
    ensures AllPackages(lines) == Err(KeyError("name"))
  {
    var st := Scan(lines, i);
    if st.Ok? {
      EmptyBlockAt(AddBlock, lines, i);
      EmptyBlockCannotAdd(st.value.db, lines[st.value.last..i + 1]);
      ScanBlankStep(AddBlock, lines, i, st.value.db, st.value.last);
    } else {
      ScanErrorIsName(lines, i);
      ScanErrPersists(AddBlock, lines, i, i + 1);
    }
    ScanErrPersists(AddBlock, lines, i + 1, |lines|);
  }

  predicate AllBlank(block: seq<string>) {
    forall k :: 0 <= k < |block| ==> block[k] == "\n"
  }

  /** The block that a blank line at the start or after another blank line closes is all blank. */
  lemma EmptyBlockAt(add: Filer, lines: seq<string>, i: nat)
    requires i < |lines| && lines[i] == "\n"
    requires i == 0 || lines[i - 1] == "\n"
    requires ScanWith(add, lines, i).Ok?
    ensures AllBlank(lines[ScanWith(add, lines, i).value.last..i + 1])
  {
    if i > 0 {
      LastAfterBlank(add, lines, i - 1);
    }
  }

  lemma LastAfterBlank(add: Filer, lines: seq<string>, m: nat)
    requires m < |lines| && lines[m] == "\n"
    requires ScanWith(add, lines, m + 1).Ok?
    ensures ScanWith(add, lines, m + 1).value.last == m
  {
    var st := ScanWith(add, lines, m);
    if st.Ok? {
      ScanBlankStep(add, lines, m, st.value.db, st.value.last);
    }
  }

  /** Blank lines join and strip to the empty text, which has no `name`. */
  lemma EmptyBlockCannotAdd(db: Database, block: seq<string>)
    requires AllBlank(block)
    ensures AddBlock(db, block) == Err(KeyError("name"))
  {
    ConcatBlank(block);
    StripAllSpace(Concat(block));
    assert Matches("") == [];
    assert Parse("") == map[];
  }

  lemma {:induction false} ConcatBlank(block: seq<string>)
    requires AllBlank(block)
    ensures forall j :: 0 <= j < |Concat(block)| ==> IsSpace(Concat(block)[j])
  {
    if block != [] {
      var pre := block[..|block| - 1];
      ConcatBlank(pre);
      var c := Concat(block);
      assert c == Concat(pre) + "\n";
      forall j | 0 <= j < |c| ensures IsSpace(c[j]) {
        if j < |Concat(pre)| { assert c[j] == Concat(pre)[j]; }
      }
    }
  }

  /** The only exception the loop lets escape is the KeyError of a block with no `name`. */
  lemma {:induction false} ScanErrorIsName(lines: seq<string>, n: nat)
    requires n <= |lines|
    ensures Scan(lines, n).Err? ==> Scan(lines, n).error == KeyError("name")
  {
    if n > 0 {
      ScanErrorIsName(lines, n - 1);
      var prev := Scan(lines, n - 1);
      if prev.Err? {
        ScanErrPersists(AddBlock, lines, n - 1, n);
      } else if lines[n - 1] == "\n" {
        ScanBlankStep(AddBlock, lines, n - 1, prev.value.db, prev.value.last);
      } else {
        ScanOtherStep(AddBlock, lines, n - 1, prev.value.db, prev.value.last);
      }
    }
  }

  // ---------------------------------------------------------------------------
  // An insertion-ordered dict of packages, as the extractors iterate it.

  /** A dict from package name to record, as its (key, record) items in insertion order. */
  type Packages = seq<(string, Record)>

  function Keys(ps: Packages): (ks: seq<string>)
    ensures |ks| == |ps| && forall i :: 0 <= i < |ps| ==> ks[i] == ps[i].0
  {
    if ps == [] then [] else [ps[0].0] + Keys(ps[1..])
  }

  /** A dict holds each key once. */
  predicate UniqueKeys(ps: Packages) {
    forall i, j :: 0 <= i < j < |ps| ==> ps[i].0 != ps[j].0
  }

  /** Where key `k` stands in the dict. */
  function IndexOf(ps: Packages, k: string): (i: nat)
    requires k in Keys(ps)
    ensures i < |ps| && ps[i].0 == k
  {
    if ps[0].0 == k then 0
    else
      assert Keys(ps) == [ps[0].0] + Keys(ps[1..]);
      1 + IndexOf(ps[1..], k)
  }

  /** `d[k] = v`: an existing key keeps its place and takes the new value; a new key goes last. */
  function Put(ps: Packages, k: string, v: Record): (r: Packages)
    requires UniqueKeys(ps)
    ensures UniqueKeys(r)
    ensures Keys(r) == if k in Keys(ps) then Keys(ps) else Keys(ps) + [k]
    ensures forall i :: 0 <= i < |r| ==>
      if r[i].0 == k then r[i].1 == v else i < |ps| && r[i] == ps[i]
  {
    if k in Keys(ps) then
      var i := IndexOf(ps, k);
      var r := ps[i := (k, v)];
      assert Keys(r) == Keys(ps);
      r
    else
      var r := ps + [(k, v)];
      assert Keys(r) == Keys(ps) + [k];
      r
  }
}
