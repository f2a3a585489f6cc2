/**
 * The dependency resolver of download_archives.py: `get_dependencies`, a depth-first
 * walk over `depend` attributes that expands collection and scheme names, and
 * `get_needed_packages_with_info`, which sorts the result and looks every name up.
 *
 * `collection_list`, the list the Python code shares by reference across the whole call
 * tree, is threaded here as a value: each call receives it and returns it extended, in
 * `Resolution.visited`.
 */
module Resolver {
  import opened Text
  import opened Sorting
  import opened Tlpdb

  /** Names that `get_dependencies` expands instead of listing: `"collection" in n or "scheme" in n`. */
  predicate IsCollection(name: string) {
    Contains(name, "collection") || Contains(name, "scheme")
  }

  /** A call's return value `deps_list` and the state of `collection_list` afterwards. */
  datatype Resolution = Resolution(deps: seq<string>, visited: seq<string>)

  function Elems(s: seq<string>): set<string> {
    set x | x in s
  }

  predicate NoDup(s: seq<string>) {
    forall i, j :: 0 <= i < j < |s| ==> s[i] != s[j]
  }

  /** `vis'` is `vis` followed by collection names of the database. */
  predicate Grows(db: Database, vis: seq<string>, vis': seq<string>) {
    |vis| <= |vis'| && vis'[..|vis|] == vis
    && forall i :: |vis| <= i < |vis'| ==> IsCollection(vis'[i]) && vis'[i] in db
  }

  lemma GrowsElems(db: Database, vis: seq<string>, vis': seq<string>)
    requires Grows(db, vis, vis')
    ensures Elems(vis) <= Elems(vis')
  {
    forall x | x in vis ensures x in vis' {
      var i :| 0 <= i < |vis| && vis[i] == x;
      assert vis'[i] == x;
    }
  }

  lemma GrowsTrans(db: Database, a: seq<string>, b: seq<string>, c: seq<string>)
    requires Grows(db, a, b) && Grows(db, b, c)
    ensures Grows(db, a, c)
  {
    assert c[..|a|] == c[..|b|][..|a|];
  }

  /**
   * `get_dependencies(name, pkglist, collection_list)`. A missing name fails with KeyError;
   * no `depend` gives []; a single-string `depend` is returned as is and never expanded;
   * a list is walked by Expand. The call only appends collection names of the database to
   * `collection_list`, and never one that is already there.
   */
  function Dependencies(name: string, db: Database, vis: seq<string>): (r: Result<Resolution>)
    ensures r.Ok? ==> name in db && Grows(db, vis, r.value.visited)
    ensures r.Ok? && NoDup(vis) ==> NoDup(r.value.visited)
    decreases db.Keys - Elems(vis), if name in db then 1 else 0, 0
  {
    if name !in db then Err(KeyError(name))
    else
      var pkg := db[name];
      if "depend" !in pkg then Ok(Resolution([], vis))
      else
        match pkg["depend"]
        case Single(d) => Ok(Resolution([d], vis))
        case Multi(items) => Expand(items, 0, db, vis, [])
  }

  /**
   * The loop `for i in pkg["depend"]` from position `i` on, with `acc` the local
   * `deps_list` so far. A collection absent from `vis` is appended to it and then
   * expanded, its result concatenated unchecked; a plain name is appended only if the
   * local list lacks it.
   */
  function Expand(items: seq<string>, i: nat, db: Database, vis: seq<string>, acc: seq<string>): (r: Result<Resolution>)
    requires i <= |items|
    ensures r.Ok? ==> Grows(db, vis, r.value.visited)
    ensures r.Ok? && NoDup(vis) ==> NoDup(r.value.visited)
    decreases db.Keys - Elems(vis), 0, |items| - i
  {
    if i == |items| then Ok(Resolution(acc, vis))
    else
      var d := items[i];
      if IsCollection(d) then
        if d in vis then Expand(items, i + 1, db, vis, acc)
        else
          ElemsAppend(vis, d);
          match Dependencies(d, db, vis + [d])
          case Err(e) => Err(e)
          case Ok(sub) =>
            GrowsElems(db, vis + [d], sub.visited);
            GrowsAppend(db, vis, d, sub.visited);
            NoDupAppend(vis, d);
            var rest := Expand(items, i + 1, db, sub.visited, acc + sub.deps);
            GrowsThen(db, vis, sub.visited, rest);
            rest
      else if d in acc then Expand(items, i + 1, db, vis, acc)
      else Expand(items, i + 1, db, vis, acc + [d])
  }

  lemma GrowsAppend(db: Database, vis: seq<string>, d: string, vis': seq<string>)
    requires IsCollection(d) && d in db
    requires Grows(db, vis + [d], vis')
    ensures Grows(db, vis, vis')
  {
    assert vis'[..|vis|] == vis'[..|vis| + 1][..|vis|];
    assert vis'[|vis|] == d;
  }

  /** Expand's step for a collection not yet visited. */
  lemma ExpandFresh(items: seq<string>, i: nat, db: Database, vis: seq<string>, acc: seq<string>)
    requires i < |items| && IsCollection(items[i]) && items[i] !in vis
    ensures var sub := Dependencies(items[i], db, vis + [items[i]]);
      Expand(items, i, db, vis, acc) ==
        if sub.Err? then Err(sub.error) else Expand(items, i + 1, db, sub.value.visited, acc + sub.value.deps)
  {
  }

  lemma GrowsThen(db: Database, vis: seq<string>, mid: seq<string>, r: Result<Resolution>)
    requires Grows(db, vis, mid)
    ensures r.Ok? && Grows(db, mid, r.value.visited) ==> Grows(db, vis, r.value.visited)
  {
    if r.Ok? && Grows(db, mid, r.value.visited) {
      GrowsTrans(db, vis, mid, r.value.visited);
    }
  }

  lemma NoDupAppend(vis: seq<string>, d: string)
    requires d !in vis
    ensures NoDup(vis) ==> NoDup(vis + [d])
  {
  }

  lemma ElemsAppend(vis: seq<string>, d: string)
    ensures Elems(vis + [d]) == Elems(vis) + {d}
  {
  }

  /** The imperative `get_dependencies`, recursion and loop as in the source. */
  method GetDependencies(name: string, db: Database, collectionList: seq<string>) returns (r: Result<Resolution>)
    ensures r == Dependencies(name, db, collectionList)
    decreases db.Keys - Elems(collectionList), if name in db then 1 else 0
  {
    if name !in db {
      return Err(KeyError(name));
    }
    var pkg := db[name];
    var depsList: seq<string> := [];
    if "depend" !in pkg {
      return Ok(Resolution([], collectionList));
    }
    var depName := pkg["depend"];
    if depName.Single? {
      if depName.s !in depsList {
        depsList := depsList + [depName.s];
      }
      assert depsList == [depName.s];
      return Ok(Resolution(depsList, collectionList));
    }
    var items := depName.items;
    var visited := collectionList;
    var i := 0;
    while i < |items|
      invariant 0 <= i <= |items|
      invariant Grows(db, collectionList, visited)
      invariant Expand(items, i, db, visited, depsList) == Expand(items, 0, db, collectionList, [])
    {
      var dep := items[i];
      if Contains(dep, "collection") || Contains(dep, "scheme") {
        if dep !in visited {
          GrowsElems(db, collectionList, visited);
          ElemsAppend(visited, dep);
          assert dep in db ==> dep in (db.Keys - Elems(collectionList)) - (db.Keys - Elems(visited + [dep]));
          ExpandFresh(items, i, db, visited, depsList);
          visited := visited + [dep];
          var sub := GetDependencies(dep, db, visited);
          if sub.Err? {
            return Err(sub.error);
          }
          GrowsAppend(db, visited[..|visited| - 1], dep, sub.value.visited);
          assert visited[..|visited| - 1] + [dep] == visited;
          GrowsTrans(db, collectionList, visited[..|visited| - 1], sub.value.visited);
          visited := sub.value.visited;
          depsList := depsList + sub.value.deps;
        }
      } else if dep !in depsList {
        depsList := depsList + [dep];
      }
      i := i + 1;
    }
    return Ok(Resolution(depsList, visited));
  }

  // ---------------------------------------------------------------------------------
  // What the walk computes: the collections reachable from the root, each expanded once,
  // and the plain names they and the root list.
  // ---------------------------------------------------------------------------------

  /** The entries of a `depend` list that are listed, not expanded. */
  function Plain(items: seq<string>): set<string> {
    set x | x in items && !IsCollection(x)
  }

  /** The entries of a `depend` list that are expanded. */
  function Colls(items: seq<string>): set<string> {
    set x | x in items && IsCollection(x)
  }

  /** The names a package contributes itself: its single `depend`, or the plain entries of its list. */
  function DirectOf(db: Database, name: string): set<string> {
    if name !in db || "depend" !in db[name] then {}
    else match db[name]["depend"]
      case Single(d) => {d}
      case Multi(items) => Plain(items)
  }

  /** The collections a package's `depend` list names; a single-string `depend` is never expanded. */
  function ChildrenOf(db: Database, name: string): set<string> {
    if name !in db || "depend" !in db[name] then {}
    else match db[name]["depend"]
      case Single(_) => {}
      case Multi(items) => Colls(items)
  }

  /** The union of DirectOf over a list of expanded collections. */
  function DirectOfAll(db: Database, cs: seq<string>): set<string> {
    if cs == [] then {} else DirectOfAll(db, cs[..|cs| - 1]) + DirectOf(db, cs[|cs| - 1])
  }

  lemma {:induction false} DirectOfAllAppend(db: Database, a: seq<string>, b: seq<string>)
    ensures DirectOfAll(db, a + b) == DirectOfAll(db, a) + DirectOfAll(db, b)
    decreases |b|
  {
    if b == [] {
      assert a + b == a;
    } else {
      assert (a + b)[..|a + b| - 1] == a + b[..|b| - 1];
      DirectOfAllAppend(db, a, b[..|b| - 1]);
    }
  }

  /** Every collection that `vis'` holds from position `from` on had its children visited too. */
  predicate Closed(db: Database, vis': seq<string>, from: nat) {
    forall j :: from <= j < |vis'| ==> ChildrenOf(db, vis'[j]) <= Elems(vis')
  }

  /** Every entry of `vis'` from `from` on is one of `roots` or a child of an earlier such entry. */
  predicate Reached(db: Database, roots: set<string>, vis': seq<string>, from: nat) {
    forall j :: from <= j < |vis'| ==>
      vis'[j] in roots || exists k :: from <= k < j && vis'[j] in ChildrenOf(db, vis'[k])
  }

  lemma ReachedMono(db: Database, roots: set<string>, roots': set<string>, vis': seq<string>, from: nat)
    requires roots <= roots' && Reached(db, roots, vis', from)
    ensures Reached(db, roots', vis', from)
  {
  }

  /** Splicing the result of a sub-walk of `d` into the walk of the rest of the list. */
  lemma ReachedCombine(db: Database, roots: set<string>, d: string, n: nat, sv: seq<string>, rv: seq<string>)
    requires n < |sv| <= |rv| && rv[..|sv|] == sv && sv[n] == d && d in roots
    requires Reached(db, ChildrenOf(db, d), sv, n + 1)
    requires Reached(db, roots, rv, |sv|)
    ensures Reached(db, roots, rv, n)
  {
    forall j | n <= j < |rv|
      ensures rv[j] in roots || exists k :: n <= k < j && rv[j] in ChildrenOf(db, rv[k])
    {
      if j == n {
        assert rv[j] == sv[n];
      } else if j < |sv| {
        assert rv[j] == sv[j];
        if sv[j] in ChildrenOf(db, d) {
          assert rv[n] == sv[n];
          assert n <= n < j && rv[j] in ChildrenOf(db, rv[n]);
        } else {
          var k :| n + 1 <= k < j && sv[j] in ChildrenOf(db, sv[k]);
          assert rv[k] == sv[k];
        }
      }
    }
  }

  lemma ClosedCombine(db: Database, d: string, n: nat, sv: seq<string>, rv: seq<string>)
    requires n < |sv| <= |rv| && rv[..|sv|] == sv && sv[n] == d
    requires ChildrenOf(db, d) <= Elems(sv)
    requires Closed(db, sv, n + 1) && Closed(db, rv, |sv|)
    ensures Closed(db, rv, n)
  {
    assert Elems(sv) <= Elems(rv) by {
      forall x | x in sv ensures x in rv {
        var i :| 0 <= i < |sv| && sv[i] == x;
        assert rv[i] == x;
      }
    }
    forall j | n <= j < |rv|
      ensures ChildrenOf(db, rv[j]) <= Elems(rv)
    {
      if j < |sv| {
        assert rv[j] == sv[j];
      }
    }
  }

  /**
   * The walk of `items[i..]`: it returns the local list so far, the plain names of the rest
   * of the list and those of every collection it newly visited; it visits every collection
   * the rest of the list names, together with their children; and it visits nothing
   * unreachable from those.
   */
  lemma {:induction false} ExpandClosure(items: seq<string>, i: nat, db: Database, vis: seq<string>, acc: seq<string>)
    requires i <= |items|
    requires Expand(items, i, db, vis, acc).Ok?
    ensures var res := Expand(items, i, db, vis, acc).value;
      Elems(res.deps) == Elems(acc) + Plain(items[i..]) + DirectOfAll(db, res.visited[|vis|..])
      && Colls(items[i..]) <= Elems(res.visited)
      && Closed(db, res.visited, |vis|)
      && Reached(db, Colls(items[i..]), res.visited, |vis|)
    decreases db.Keys - Elems(vis), 0, |items| - i, 1
  {
    var res := Expand(items, i, db, vis, acc).value;
    if i == |items| {
      assert res.visited[|vis|..] == [];
    } else {
      var d := items[i];
      assert items[i..] == [d] + items[i + 1..];
      if IsCollection(d) {
        assert Plain(items[i..]) == Plain(items[i + 1..]);
        assert Colls(items[i..]) == {d} + Colls(items[i + 1..]);
        if d in vis {
          ExpandClosure(items, i + 1, db, vis, acc);
          GrowsElems(db, vis, res.visited);
          ReachedMono(db, Colls(items[i + 1..]), Colls(items[i..]), res.visited, |vis|);
        } else {
          ExpandFreshClosure(items, i, db, vis, acc);
        }
      } else {
        ExpandNameClosure(items, i, db, vis, acc);
      }
    }
  }

  /** ExpandClosure's step for a plain name `items[i]`. */
  lemma {:induction false} ExpandNameClosure(items: seq<string>, i: nat, db: Database, vis: seq<string>, acc: seq<string>)
    requires i < |items| && !IsCollection(items[i])
    requires Expand(items, i, db, vis, acc).Ok?
    ensures var res := Expand(items, i, db, vis, acc).value;
      Elems(res.deps) == Elems(acc) + Plain(items[i..]) + DirectOfAll(db, res.visited[|vis|..])
      && Colls(items[i..]) <= Elems(res.visited)
      && Closed(db, res.visited, |vis|)
      && Reached(db, Colls(items[i..]), res.visited, |vis|)
    decreases db.Keys - Elems(vis), 0, |items| - i, 0
  {
    var d := items[i];
    assert items[i..] == [d] + items[i + 1..];
    assert Colls(items[i..]) == Colls(items[i + 1..]);
    assert Plain(items[i..]) == {d} + Plain(items[i + 1..]);
    if d in acc {
      ExpandClosure(items, i + 1, db, vis, acc);
    } else {
      ExpandClosure(items, i + 1, db, vis, acc + [d]);
      assert Elems(acc + [d]) == Elems(acc) + {d};
    }
  }

  /** ExpandClosure's step for a collection `items[i]` not yet visited. */
  lemma {:induction false} ExpandFreshClosure(items: seq<string>, i: nat, db: Database, vis: seq<string>, acc: seq<string>)
    requires i < |items| && IsCollection(items[i]) && items[i] !in vis
    requires Expand(items, i, db, vis, acc).Ok?
    ensures var res := Expand(items, i, db, vis, acc).value;
      Elems(res.deps) == Elems(acc) + Plain(items[i..]) + DirectOfAll(db, res.visited[|vis|..])
      && Colls(items[i..]) <= Elems(res.visited)
      && Closed(db, res.visited, |vis|)
      && Reached(db, Colls(items[i..]), res.visited, |vis|)
    decreases db.Keys - Elems(vis), 0, |items| - i, 0
  {
    var d := items[i];
    var res := Expand(items, i, db, vis, acc).value;
    assert items[i..] == [d] + items[i + 1..];
    assert Plain(items[i..]) == Plain(items[i + 1..]);
    assert Colls(items[i..]) == {d} + Colls(items[i + 1..]);
    ElemsAppend(vis, d);
    var sub := Dependencies(d, db, vis + [d]).value;
    DependenciesClosure(d, db, vis + [d]);
    ExpandClosure(items, i + 1, db, sub.visited, acc + sub.deps);
    var n, sv, rv := |vis|, sub.visited, res.visited;
    assert sv[..n + 1] == vis + [d];
    assert sv[n] == sv[..n + 1][n] == (vis + [d])[n] == d;
    assert rv[..|sv|] == sv;
    FreshDeps(db, d, n, acc, sub.deps, sv, rv, res.deps, Plain(items[i + 1..]));
    ReachedMono(db, Colls(items[i + 1..]), Colls(items[i..]), rv, |sv|);
    ReachedCombine(db, Colls(items[i..]), d, n, sv, rv);
    ClosedCombine(db, d, n, sv, rv);
    GrowsElems(db, sv, rv);
  }

  /** The returned names of ExpandClosure's step for a collection `d` not yet visited. */
  lemma FreshDeps(db: Database, d: string, n: nat, acc: seq<string>, subDeps: seq<string>,
                  sv: seq<string>, rv: seq<string>, resDeps: seq<string>, tail: set<string>)
    requires n < |sv| <= |rv| && rv[..|sv|] == sv && sv[n] == d
    requires Elems(subDeps) == DirectOf(db, d) + DirectOfAll(db, sv[n + 1..])
    requires Elems(resDeps) == Elems(acc + subDeps) + tail + DirectOfAll(db, rv[|sv|..])
    ensures Elems(resDeps) == Elems(acc) + tail + DirectOfAll(db, rv[n..])
  {
    assert rv[n..] == [d] + sv[n + 1..] + rv[|sv|..] by {
      assert rv[n..] == rv[n..|sv|] + rv[|sv|..];
      assert rv[n..|sv|] == sv[n..];
      assert sv[n..] == [d] + sv[n + 1..];
    }
    DirectOfAllAppend(db, [d] + sv[n + 1..], rv[|sv|..]);
    DirectOfAllAppend(db, [d], sv[n + 1..]);
    assert DirectOfAll(db, [d]) == DirectOf(db, d) by {
      assert [d][..0] == [];
    }
    assert Elems(acc + subDeps) == Elems(acc) + Elems(subDeps);
  }

  /**
   * One call of `get_dependencies`: its result holds exactly the names the package
   * contributes itself and those of the collections the call newly visited, which are the
   * collections reachable from the package, each with its children visited as well.
   */
  lemma {:induction false} DependenciesClosure(name: string, db: Database, vis: seq<string>)
    requires Dependencies(name, db, vis).Ok?
    ensures var res := Dependencies(name, db, vis).value;
      Elems(res.deps) == DirectOf(db, name) + DirectOfAll(db, res.visited[|vis|..])
      && ChildrenOf(db, name) <= Elems(res.visited)
      && Closed(db, res.visited, |vis|)
      && Reached(db, ChildrenOf(db, name), res.visited, |vis|)
    decreases db.Keys - Elems(vis), 1, 0, 0
  {
    var res := Dependencies(name, db, vis).value;
    if "depend" !in db[name] || db[name]["depend"].Single? {
      assert res.visited[|vis|..] == [];
    } else {
      var items := db[name]["depend"].items;
      ExpandClosure(items, 0, db, vis, []);
      assert items[0..] == items;
    }
  }

  /**
   * The top-level call `get_dependencies(scheme, pkglist, [])`: the visited collections are
   * distinct, belong to the database and are exactly those reachable from the scheme; the
   * returned names are exactly the names the scheme and those collections contribute.
   */
  lemma ResolveClosure(scheme: string, db: Database)
    requires Dependencies(scheme, db, []).Ok?
    ensures var res := Dependencies(scheme, db, []).value;
      NoDup(res.visited)
      && (forall j :: 0 <= j < |res.visited| ==> IsCollection(res.visited[j]) && res.visited[j] in db)
      && Elems(res.deps) == DirectOf(db, scheme) + DirectOfAll(db, res.visited)
      && ChildrenOf(db, scheme) <= Elems(res.visited)
      && Closed(db, res.visited, 0)
      && Reached(db, ChildrenOf(db, scheme), res.visited, 0)
  {
    DependenciesClosure(scheme, db, []);
    var res := Dependencies(scheme, db, []).value;
    assert res.visited[0..] == res.visited;
  }

  // ---------------------------------------------------------------------------------
  // The leaves and the duplicates.
  // ---------------------------------------------------------------------------------

  /** A package without `depend` yields []; a single-string `depend` yields it alone, unexpanded. */
  lemma LeafDependencies(name: string, db: Database, vis: seq<string>)
    requires name in db
    ensures "depend" !in db[name] ==> Dependencies(name, db, vis) == Ok(Resolution([], vis))
    ensures "depend" in db[name] && db[name]["depend"].Single? ==>
      Dependencies(name, db, vis) == Ok(Resolution([db[name]["depend"].s], vis))
  {
  }

  /** Over a list with no collection in it, the local check leaves no duplicate behind. */
  lemma {:induction false} ExpandPlain(items: seq<string>, i: nat, db: Database, vis: seq<string>, acc: seq<string>)
    requires i <= |items| && NoDup(acc)
    requires forall j :: i <= j < |items| ==> !IsCollection(items[j])
    ensures Expand(items, i, db, vis, acc).Ok?
    ensures var res := Expand(items, i, db, vis, acc).value;
      res.visited == vis && NoDup(res.deps) && Elems(res.deps) == Elems(acc) + Elems(items[i..])
      && |acc| <= |res.deps| && res.deps[..|acc|] == acc
    decreases |items| - i
  {
    if i < |items| {
      var d := items[i];
      assert items[i..] == [d] + items[i + 1..];
      if d in acc {
        ExpandPlain(items, i + 1, db, vis, acc);
      } else {
        ExpandPlain(items, i + 1, db, vis, acc + [d]);
        var res := Expand(items, i, db, vis, acc).value;
        assert res.deps[..|acc|] == res.deps[..|acc| + 1][..|acc|];
      }
    }
  }

  /**
   * A package whose `depend` list names no collection yields each listed name once, in
   * first-seen order, and visits nothing.
   */
  lemma PlainListDependencies(name: string, db: Database, vis: seq<string>)
    requires name in db && "depend" in db[name] && db[name]["depend"].Multi?
    requires forall j :: 0 <= j < |db[name]["depend"].items| ==> !IsCollection(db[name]["depend"].items[j])
    ensures Dependencies(name, db, vis).Ok?
    ensures var res := Dependencies(name, db, vis).value;
      res.visited == vis && NoDup(res.deps) && Elems(res.deps) == Elems(db[name]["depend"].items)
  {
    var items := db[name]["depend"].items;
    ExpandPlain(items, 0, db, vis, []);
    assert items[0..] == items;
  }

  lemma NotCollection(s: string)
    requires |s| < 6
    ensures !IsCollection(s)
  {
  }

  lemma IsCollectionAt(s: string, p: string)
    requires p == "collection" || p == "scheme"
    requires |p| <= |s| && s[..|p|] == p
    ensures IsCollection(s)
  {
    ContainsPrefix(s, p);
  }

  /** The resolver's documented example: a scheme over one collection of two packages. */
  lemma ExampleScheme()
    ensures var db := map[
      "scheme-x" := map["depend" := Multi(["collection-a"])],
      "collection-a" := map["depend" := Multi(["pkg1", "pkg2"])],
      "pkg1" := map[], "pkg2" := map[]];
      Dependencies("scheme-x", db, []) == Ok(Resolution(["pkg1", "pkg2"], ["collection-a"]))
  {
    var db := map[
      "scheme-x" := map["depend" := Multi(["collection-a"])],
      "collection-a" := map["depend" := Multi(["pkg1", "pkg2"])],
      "pkg1" := map[], "pkg2" := map[]];
    IsCollectionAt("collection-a", "collection");
    NotCollection("pkg1");
    NotCollection("pkg2");
    var ca := ["collection-a"];
    assert Expand(["pkg1", "pkg2"], 2, db, ca, ["pkg1", "pkg2"]) == Ok(Resolution(["pkg1", "pkg2"], ca));
    assert Expand(["pkg1", "pkg2"], 1, db, ca, ["pkg1"]) == Ok(Resolution(["pkg1", "pkg2"], ca)) by {
      assert "pkg2" !in ["pkg1"];
      assert ["pkg1"] + ["pkg2"] == ["pkg1", "pkg2"];
    }
    assert Expand(["pkg1", "pkg2"], 0, db, ca, []) == Ok(Resolution(["pkg1", "pkg2"], ca)) by {
      assert [] + ["pkg1"] == ["pkg1"];
    }
    assert Dependencies("collection-a", db, ca) == Ok(Resolution(["pkg1", "pkg2"], ca));
    assert Expand(["collection-a"], 1, db, ca, ["pkg1", "pkg2"]) == Ok(Resolution(["pkg1", "pkg2"], ca));
    assert [] + ca == ca;
    assert [] + ["pkg1", "pkg2"] == ["pkg1", "pkg2"];
    assert Expand(["collection-a"], 0, db, [], []) == Ok(Resolution(["pkg1", "pkg2"], ca));
  }

  /**
   * Two collections that both list `pkg1`: the concatenated sub-results are not checked,
   * so `pkg1` is returned twice.
   */
  lemma ExampleDuplicate()
    ensures var db := map[
      "scheme-y" := map["depend" := Multi(["collection-a", "collection-b"])],
      "collection-a" := map["depend" := Multi(["pkg1"])],
      "collection-b" := map["depend" := Multi(["pkg1"])]];
      Dependencies("scheme-y", db, []) == Ok(Resolution(["pkg1", "pkg1"], ["collection-a", "collection-b"]))
  {
    var db := map[
      "scheme-y" := map["depend" := Multi(["collection-a", "collection-b"])],
      "collection-a" := map["depend" := Multi(["pkg1"])],
      "collection-b" := map["depend" := Multi(["pkg1"])]];
    IsCollectionAt("collection-a", "collection");
    IsCollectionAt("collection-b", "collection");
    NotCollection("pkg1");
    var ca, cab := ["collection-a"], ["collection-a", "collection-b"];
    var one := ["pkg1"];
    assert [] + one == one;
    assert Expand(one, 1, db, ca, one) == Ok(Resolution(one, ca));
    assert Dependencies("collection-a", db, ca) == Ok(Resolution(one, ca));
    assert Expand(one, 1, db, cab, one) == Ok(Resolution(one, cab));
    assert Dependencies("collection-b", db, cab) == Ok(Resolution(one, cab));
    var top := ["collection-a", "collection-b"];
    assert Expand(top, 2, db, cab, one + one) == Ok(Resolution(one + one, cab));
    assert ca + ["collection-b"] == cab;
    assert Expand(top, 1, db, ca, one) == Ok(Resolution(one + one, cab));
    assert [] + ca == ca;
    assert Expand(top, 0, db, [], []) == Ok(Resolution(one + one, cab));
    assert one + one == ["pkg1", "pkg1"];
  }

  /**
   * A diamond: `collection-b` is reached from the scheme and from `collection-a`, and is
   * expanded once, from `collection-a`, which comes first.
   */
  lemma ExampleDiamond()
    ensures var db := map[
      "scheme-z" := map["depend" := Multi(["collection-a", "collection-b"])],
      "collection-a" := map["depend" := Multi(["collection-b", "pkg1"])],
      "collection-b" := map["depend" := Multi(["pkg2"])]];
      Dependencies("scheme-z", db, []) == Ok(Resolution(["pkg2", "pkg1"], ["collection-a", "collection-b"]))
  {
    var db := map[
      "scheme-z" := map["depend" := Multi(["collection-a", "collection-b"])],
      "collection-a" := map["depend" := Multi(["collection-b", "pkg1"])],
      "collection-b" := map["depend" := Multi(["pkg2"])]];
    IsCollectionAt("collection-a", "collection");
    IsCollectionAt("collection-b", "collection");
    NotCollection("pkg1");
    NotCollection("pkg2");
    var ca, ab := ["collection-a"], ["collection-a", "collection-b"];
    var two, both := ["pkg2"], ["pkg2", "pkg1"];
    assert [] + two == two;
    assert Expand(two, 1, db, ab, two) == Ok(Resolution(two, ab));
    assert Dependencies("collection-b", db, ab) == Ok(Resolution(two, ab));
    var la := ["collection-b", "pkg1"];
    assert Expand(la, 2, db, ab, both) == Ok(Resolution(both, ab));
    assert "pkg1" !in two && two + ["pkg1"] == both;
    assert Expand(la, 1, db, ab, two) == Ok(Resolution(both, ab));
    assert ca + ["collection-b"] == ab;
    assert Expand(la, 0, db, ca, []) == Ok(Resolution(both, ab));
    assert Dependencies("collection-a", db, ca) == Ok(Resolution(both, ab));
    var top := ["collection-a", "collection-b"];
    assert Expand(top, 2, db, ab, both) == Ok(Resolution(both, ab));
    assert Expand(top, 1, db, ab, both) == Ok(Resolution(both, ab));
    assert [] + ca == ca && [] + both == both;
    assert Expand(top, 0, db, [], []) == Ok(Resolution(both, ab));
  }

  /** A collection that lists itself is not expanded a second time: the walk terminates. */
  lemma ExampleCycle()
    ensures var db := map["collection-c" := map["depend" := Multi(["collection-c", "pkg1"])]];
      Dependencies("collection-c", db, ["collection-c"]) == Ok(Resolution(["pkg1"], ["collection-c"]))
  {
    var db := map["collection-c" := map["depend" := Multi(["collection-c", "pkg1"])]];
    IsCollectionAt("collection-c", "collection");
    NotCollection("pkg1");
    var cc, items, one := ["collection-c"], ["collection-c", "pkg1"], ["pkg1"];
    assert Expand(items, 2, db, cc, one) == Ok(Resolution(one, cc));
    assert [] + one == one;
    assert Expand(items, 1, db, cc, []) == Ok(Resolution(one, cc));
    assert Expand(items, 0, db, cc, []) == Ok(Resolution(one, cc));
  }

  /** A dependency missing from the database fails the whole walk with KeyError. */
  lemma ExampleMissing()
    ensures var db := map["scheme-m" := map["depend" := Multi(["collection-gone"])]];
      Dependencies("scheme-m", db, []) == Err(KeyError("collection-gone"))
  {
    IsCollectionAt("collection-gone", "collection");
  }

  // ---------------------------------------------------------------------------------
  // get_needed_packages_with_info: sort, drop dotted names, look every name up.
  // ---------------------------------------------------------------------------------

  /** The loop `for i in deps: if "." not in i: deps_info[i] = pkg_list[i]`. */
  function BuildInfo(deps: seq<string>, db: Database): (r: Result<Packages>)
    ensures r.Ok? ==> UniqueKeys(r.value)
    ensures r.Err? ==> exists i :: 0 <= i < |deps| && '.' !in deps[i] && deps[i] !in db && r.error == KeyError(deps[i])
  {
    if deps == [] then Ok([])
    else
      var d := deps[|deps| - 1];
      match BuildInfo(deps[..|deps| - 1], db)
      case Err(e) => Err(e)
      case Ok(ps) =>
        if '.' in d then Ok(ps)
        else if d !in db then Err(KeyError(d))
        else Ok(Put(ps, d, db[d]))
  }

  /** The dict `get_needed_packages_with_info(scheme)` returns, for the tlpdb given as lines. */
  function NeededPackages(lines: seq<string>, scheme: string): Result<Packages> {
    match AllPackages(lines)
    case Err(e) => Err(e)
    case Ok(db) =>
      match Dependencies(scheme, db, [])
      case Err(e) => Err(e)
      case Ok(res) => BuildInfo(SortStrings(res.deps), db)
  }

  lemma BuildInfoStep(deps: seq<string>, n: nat, db: Database)
    requires n < |deps|
    ensures BuildInfo(deps[..n + 1], db) ==
      match BuildInfo(deps[..n], db)
      case Err(e) => Err(e)
      case Ok(ps) =>
        if '.' in deps[n] then Ok(ps)
        else if deps[n] !in db then Err(KeyError(deps[n]))
        else Ok(Put(ps, deps[n], db[deps[n]]))
  {
    assert deps[..n + 1][..n] == deps[..n];
  }

  lemma BuildInfoOkStep(deps: seq<string>, n: nat, db: Database, ps: Packages)
    requires n < |deps| && BuildInfo(deps[..n], db) == Ok(ps)
    ensures BuildInfo(deps[..n + 1], db) ==
      if '.' in deps[n] then Ok(ps)
      else if deps[n] !in db then Err(KeyError(deps[n]))
      else Ok(Put(ps, deps[n], db[deps[n]]))
  {
    BuildInfoStep(deps, n, db);
  }

  lemma {:induction false} BuildInfoErrPersists(deps: seq<string>, n: nat, db: Database)
    requires n <= |deps| && BuildInfo(deps[..n], db).Err?
    ensures BuildInfo(deps, db) == BuildInfo(deps[..n], db)
    decreases |deps| - n
  {
    if n < |deps| {
      BuildInfoStep(deps, n, db);
      BuildInfoErrPersists(deps, n + 1, db);
    } else {
      assert deps[..n] == deps;
    }
  }

  /** The imperative `get_needed_packages_with_info`, the tlpdb's lines given instead of read. */
  method NeededPackagesWithInfo(lines: seq<string>, scheme: string) returns (r: Result<Packages>)
    ensures r == NeededPackages(lines, scheme)
  {
    var all := GetAllPackages(lines);
    if all.Err? {
      return Err(all.error);
    }
    var pkgList := all.value;
    var res := GetDependencies(scheme, pkgList, []);
    if res.Err? {
      return Err(res.error);
    }
    var deps := SortStrings(res.value.deps);
    r := CollectInfo(deps, pkgList);
  }

  /** The loop of `get_needed_packages_with_info` that looks every sorted name up. */
  method CollectInfo(deps: seq<string>, pkgList: Database) returns (r: Result<Packages>)
    ensures r == BuildInfo(deps, pkgList)
  {
    var depsInfo: Packages := [];
    var i := 0;
    assert deps[..0] == [];
    while i < |deps|
      invariant 0 <= i <= |deps|
      invariant BuildInfo(deps[..i], pkgList) == Ok(depsInfo)
    {
      BuildInfoOkStep(deps, i, pkgList, depsInfo);
      if '.' !in deps[i] {
        if deps[i] !in pkgList {
          BuildInfoErrPersists(deps, i + 1, pkgList);
          return Err(KeyError(deps[i]));
        }
        depsInfo := Put(depsInfo, deps[i], pkgList[deps[i]]);
      }
      i := i + 1;
    }
    assert deps[..|deps|] == deps;
    return Ok(depsInfo);
  }

  predicate StrictlyAscending(ks: seq<string>) {
    forall i, j :: 0 <= i < j < |ks| ==> Le(ks[i], ks[j]) && ks[i] != ks[j]
  }

  /** The dotless names of a list. */
  function Dotless(deps: seq<string>): set<string> {
    set x | x in deps && '.' !in x
  }

  /**
   * Over a sorted list: the dict has strictly ascending, dotless keys, exactly the list's
   * dotless names, each mapped to its database record; it fails exactly when one of those
   * names is missing from the database.
   */
  lemma {:induction false} BuildInfoProps(deps: seq<string>, db: Database)
    requires Sorted(deps)
    ensures BuildInfo(deps, db).Ok? <==> Dotless(deps) <= db.Keys
    ensures BuildInfo(deps, db).Ok? ==> InfoOf(BuildInfo(deps, db).value, deps, db)
  {
    if deps != [] {
      var n := |deps| - 1;
      var pre := deps[..n];
      assert deps == pre + [deps[n]];
      assert Sorted(pre);
      BuildInfoProps(pre, db);
      forall x | x in pre ensures Le(x, deps[n]) {
        var k :| 0 <= k < n && pre[k] == x;
        assert Le(deps[k], deps[n]);
      }
      BuildInfoPropsStep(pre, deps[n], db);
    }
  }

  /** The dict holds exactly the dotless names of `deps`, ascending, each with its record. */
  predicate InfoOf(ps: Packages, deps: seq<string>, db: Database) {
    StrictlyAscending(Keys(ps)) && Elems(Keys(ps)) == Dotless(deps)
    && forall i :: 0 <= i < |ps| ==> ps[i].0 in db && ps[i].1 == db[ps[i].0]
  }

  lemma BuildInfoPropsStep(pre: seq<string>, d: string, db: Database)
    requires forall x :: x in pre ==> Le(x, d)
    requires BuildInfo(pre, db).Ok? <==> Dotless(pre) <= db.Keys
    requires BuildInfo(pre, db).Ok? ==> InfoOf(BuildInfo(pre, db).value, pre, db)
    ensures BuildInfo(pre + [d], db).Ok? <==> Dotless(pre + [d]) <= db.Keys
    ensures BuildInfo(pre + [d], db).Ok? ==> InfoOf(BuildInfo(pre + [d], db).value, pre + [d], db)
  {
    BuildInfoSnoc(pre, d, db);
    DotlessSnoc(pre, d);
    var prev := BuildInfo(pre, db);
    if prev.Ok? && '.' !in d && d in db {
      InfoPut(prev.value, pre, d, db);
    }
  }

  lemma BuildInfoSnoc(pre: seq<string>, d: string, db: Database)
    ensures BuildInfo(pre + [d], db) ==
      match BuildInfo(pre, db)
      case Err(e) => Err(e)
      case Ok(ps) =>
        if '.' in d then Ok(ps)
        else if d !in db then Err(KeyError(d))
        else Ok(Put(ps, d, db[d]))
  {
    var deps := pre + [d];
    assert deps[..|deps| - 1] == pre;
  }

  lemma DotlessSnoc(pre: seq<string>, d: string)
    ensures Dotless(pre + [d]) == Dotless(pre) + (if '.' in d then {} else {d})
  {
  }

  lemma InfoPut(ps: Packages, pre: seq<string>, d: string, db: Database)
    requires UniqueKeys(ps) && InfoOf(ps, pre, db)
    requires forall x :: x in pre ==> Le(x, d)
    requires '.' !in d && d in db
    ensures InfoOf(Put(ps, d, db[d]), pre + [d], db)
  {
    assert Dotless(pre + [d]) == Dotless(pre) + {d};
    forall x | x in Keys(ps) ensures Le(x, d) {
      assert x in Dotless(pre);
    }
    PutAscending(ps, d, db[d]);
    assert Elems(Keys(Put(ps, d, db[d]))) == Elems(Keys(ps)) + {d};
  }

  lemma PutAscending(ps: Packages, d: string, v: Record)
    requires UniqueKeys(ps) && StrictlyAscending(Keys(ps))
    requires forall x :: x in Keys(ps) ==> Le(x, d)
    ensures StrictlyAscending(Keys(Put(ps, d, v)))
  {
    var ks, ks' := Keys(ps), Keys(Put(ps, d, v));
    if d !in ks {
      assert ks' == ks + [d];
      forall i, j | 0 <= i < j < |ks'|
        ensures Le(ks'[i], ks'[j]) && ks'[i] != ks'[j]
      {
        if j == |ks| {
          assert ks'[i] == ks[i];
        }
      }
    }
  }

  lemma SortedElems(s: seq<string>)
    ensures Elems(SortStrings(s)) == Elems(s)
    ensures Dotless(SortStrings(s)) == Dotless(s)
  {
    var t := SortStrings(s);
    assert forall x :: x in t <==> x in multiset(t);
    assert forall x :: x in s <==> x in multiset(s);
  }

  /**
   * `get_needed_packages_with_info`: the keys are in strictly ascending order, contain no
   * dot and are exactly the dotless names the resolver returned; each maps to its database
   * record, whose `name` is the key itself; the call fails with KeyError exactly when one of
   * those names is missing from the database.
   */
  lemma NeededPackagesProps(lines: seq<string>, scheme: string, db: Database, res: Resolution)
    requires AllPackages(lines) == Ok(db) && Dependencies(scheme, db, []) == Ok(res)
    ensures NeededPackages(lines, scheme).Ok? <==> Dotless(res.deps) <= db.Keys
    ensures NeededPackages(lines, scheme).Err? ==>
      exists x :: x in Dotless(res.deps) && x !in db && NeededPackages(lines, scheme).error == KeyError(x)
    ensures NeededPackages(lines, scheme).Ok? ==> var ps := NeededPackages(lines, scheme).value;
      StrictlyAscending(Keys(ps)) && Elems(Keys(ps)) == Dotless(res.deps)
      && forall i :: 0 <= i < |ps| ==>
           '.' !in ps[i].0 && ps[i].0 in db && ps[i].1 == db[ps[i].0]
           && "name" in ps[i].1 && Str(ps[i].1["name"]) == ps[i].0
  {
    var deps := SortStrings(res.deps);
    SortStringsSorted(res.deps);
    SortedElems(res.deps);
    BuildInfoProps(deps, db);
    AllPackagesKeys(lines);
    var r := BuildInfo(deps, db);
    if r.Err? {
      var i :| 0 <= i < |deps| && '.' !in deps[i] && deps[i] !in db && r.error == KeyError(deps[i]);
      assert deps[i] in Dotless(deps);
    }
  }
}
