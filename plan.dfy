/**
 * Reconciliation: index the pages the search found by the file path they
 * were published from, then split the work into pages to update, pages to
 * create and pages to archive.
 */
module Reconcile {
  import opened Wrappers
  import opened Assoc
  import opened Strings
  import opened Properties
  import opened Remote

  /** `r.properties.URL?.url || r.id`: an empty or missing URL falls back to the page id. */
  function UrlOrId(r: SearchResult): string {
    var url := Find(r.properties, "URL");
    if url.Some? && url.value.Url? && url.value.url != "" then url.value.url else r.id
  }

  /** The key a page is indexed under: its URL with the first `githubURL + "/"` removed. */
  function IndexKey(r: SearchResult, githubURL: string): string {
    RemoveFirst(UrlOrId(r), githubURL + "/")
  }

  /** The index after the `forEach` over the search results: pages only, a later page replacing an earlier one with the same key. */
  function Index(results: seq<SearchResult>, githubURL: string): seq<Entry<SearchResult>> {
    if results == [] then []
    else
      var n := |results| - 1;
      var pages := Index(results[..n], githubURL);
      if results[n].kind == "page" then Put(pages, IndexKey(results[n], githubURL), results[n]) else pages
  }

  method BuildIndex(results: seq<SearchResult>, githubURL: string) returns (pages: seq<Entry<SearchResult>>)
    ensures pages == Index(results, githubURL)
  {
    pages := [];
    for i := 0 to |results|
      invariant pages == Index(results[..i], githubURL)
    {
      assert results[..i + 1][..i] == results[..i];
      var r := results[i];
      if r.kind == "page" {
        var path := UrlOrId(r);
        path := RemoveFirst(path, githubURL + "/");
        pages := Put(pages, path, r);
      }
    }
    assert results[..|results|] == results;
  }

  /** A search result is a page indexed under `key`. */
  predicate PageFor(r: SearchResult, githubURL: string, key: string) {
    r.kind == "page" && IndexKey(r, githubURL) == key
  }

  /** The last page among the results with the given key. */
  function LastPage(results: seq<SearchResult>, githubURL: string, key: string): (r: Option<nat>)
    ensures r.Some? ==> r.value < |results| && PageFor(results[r.value], githubURL, key)
    ensures r.Some? ==> forall j :: r.value < j < |results| ==> !PageFor(results[j], githubURL, key)
    ensures r.None? ==> forall j :: 0 <= j < |results| ==> !PageFor(results[j], githubURL, key)
  {
    if results == [] then None
    else
      var n := |results| - 1;
      if PageFor(results[n], githubURL, key) then Some(n)
      else LastPage(results[..n], githubURL, key)
  }

  /** The index holds, under each key, the last page found with that key, and nothing else; its keys are distinct. */
  lemma {:induction false} IndexLookup(results: seq<SearchResult>, githubURL: string, key: string)
    ensures Find(Index(results, githubURL), key) ==
      match LastPage(results, githubURL, key)
      case None => None
      case Some(i) => Some(results[i])
    ensures UniqueKeys(Index(results, githubURL))
  {
    if results != [] {
      var n := |results| - 1;
      var init := results[..n];
      var before := Index(init, githubURL);
      IndexLookup(init, githubURL, key);
      if results[n].kind == "page" {
        PutUnique(before, IndexKey(results[n], githubURL), results[n]);
      }
      if !(results[n].kind == "page" && IndexKey(results[n], githubURL) == key) {
        var r := LastPage(init, githubURL, key);
        assert LastPage(results, githubURL, key) == r;
        if r.Some? {
          assert init[r.value] == results[r.value];
        }
      }
    }
  }

  /**
   * A page whose `URL` is the link `mkProps` writes for a file is indexed
   * under that file's path, so the next run finds the page it created.
   */
  lemma CreatedPageKey(r: SearchResult, githubURL: string, file: string)
    requires Find(r.properties, "URL") == Some(Url(githubURL + "/" + file))
    ensures IndexKey(r, githubURL) == file
  {
    RemoveFirstPrefix(githubURL + "/", file);
    assert githubURL + "/" + file == (githubURL + "/") + file;
  }

  /** The keys of an object in enumeration order. */
  function KeysOf<V>(s: seq<Entry<V>>): (r: seq<string>)
    ensures |r| == |s| && forall i :: 0 <= i < |s| ==> r[i] == s[i].key
  {
    seq(|s|, i requires 0 <= i < |s| => s[i].key)
  }

  /** The parent database, with its dashes removed, is the configured root. */
  predicate InRoot(r: SearchResult, root: string) {
    r.parentDb.Some? && r.parentDb.value != "" && RemoveChar(r.parentDb.value, '-') == root
  }

  /** `updates` after the loop over the local keys: each local key also found remotely, with the remote page. */
  function Updates(keys: seq<string>, pages: seq<Entry<SearchResult>>): seq<Entry<SearchResult>> {
    if keys == [] then []
    else
      var n := |keys| - 1;
      var before := Updates(keys[..n], pages);
      if HasKey(pages, keys[n]) then Put(before, keys[n], Find(pages, keys[n]).value) else before
  }

  /** `creates` after the same loop: each local key not found remotely, with the local document. */
  function Creates<D>(keys: seq<string>, wiki: seq<Entry<D>>, pages: seq<Entry<SearchResult>>): seq<Entry<D>>
    requires forall k :: k in keys ==> HasKey(wiki, k)
  {
    if keys == [] then []
    else
      var n := |keys| - 1;
      var before := Creates(keys[..n], wiki, pages);
      if HasKey(pages, keys[n]) then before else Put(before, keys[n], Find(wiki, keys[n]).value)
  }

  /** `deletes` after the loop over the remote keys: page id to key, for pages missing locally and under the root. */
  function Deletes<D>(keys: seq<string>, pages: seq<Entry<SearchResult>>, wiki: seq<Entry<D>>, root: string): seq<Entry<string>>
    requires forall k :: k in keys ==> HasKey(pages, k)
  {
    if keys == [] then []
    else
      var n := |keys| - 1;
      var before := Deletes(keys[..n], pages, wiki, root);
      var r := Find(pages, keys[n]).value;
      if !HasKey(wiki, keys[n]) && InRoot(r, root) then Put(before, r.id, keys[n]) else before
  }

  datatype Plan<D> = Plan(updates: seq<Entry<SearchResult>>, creates: seq<Entry<D>>, deletes: seq<Entry<string>>)

  lemma KeysOfHasKey<V>(s: seq<Entry<V>>)
    ensures forall k :: k in KeysOf(s) <==> HasKey(s, k)
  {
    forall k | HasKey(s, k) ensures k in KeysOf(s) {
      var i :| 0 <= i < |s| && s[i].key == k;
      assert KeysOf(s)[i] == k;
    }
  }

  function PlanOf<D>(wiki: seq<Entry<D>>, pages: seq<Entry<SearchResult>>, root: string): Plan<D> {
    KeysOfHasKey(wiki);
    KeysOfHasKey(pages);
    var local := KeysOf(wiki);
    var remote := KeysOf(pages);
    Plan(Updates(local, pages), Creates(local, wiki, pages), Deletes(remote, pages, wiki, root))
  }

  /** The two planning loops of the sync. */
  method PlanSync<D>(wiki: seq<Entry<D>>, pages: seq<Entry<SearchResult>>, root: string) returns (p: Plan<D>)
    ensures p == PlanOf(wiki, pages, root)
  {
    var updates, creates := PlanLocal(wiki, pages);
    var deletes := PlanRemote(wiki, pages, root);
    p := Plan(updates, creates, deletes);
  }

  /** The loop over the local pages: each is planned as an update when found remotely, as a creation otherwise. */
  method PlanLocal<D>(wiki: seq<Entry<D>>, pages: seq<Entry<SearchResult>>)
    returns (updates: seq<Entry<SearchResult>>, creates: seq<Entry<D>>)
    ensures updates == Updates(KeysOf(wiki), pages)
    ensures (forall k :: k in KeysOf(wiki) ==> HasKey(wiki, k)) && creates == Creates(KeysOf(wiki), wiki, pages)
  {
    KeysOfHasKey(wiki);
    var local := KeysOf(wiki);
    updates, creates := [], [];
    for i := 0 to |wiki|
      invariant updates == Updates(local[..i], pages)
      invariant creates == Creates(local[..i], wiki, pages)
    {
      var k := wiki[i].key;
      assert local[..i + 1][..i] == local[..i] && local[..i + 1][i] == k;
      if HasKey(pages, k) {
        updates := Put(updates, k, Find(pages, k).value);
      } else {
        creates := Put(creates, k, Find(wiki, k).value);
      }
    }
    assert local[..|wiki|] == local;
  }

  /** The loop over the remote pages: each one missing locally and under the root is planned for deletion. */
  method PlanRemote<D>(wiki: seq<Entry<D>>, pages: seq<Entry<SearchResult>>, root: string) returns (deletes: seq<Entry<string>>)
    ensures (forall k :: k in KeysOf(pages) ==> HasKey(pages, k)) && deletes == Deletes(KeysOf(pages), pages, wiki, root)
  {
    KeysOfHasKey(pages);
    var remote := KeysOf(pages);
    deletes := [];
    for i := 0 to |pages|
      invariant deletes == Deletes(remote[..i], pages, wiki, root)
    {
      var k := pages[i].key;
      assert remote[..i + 1][..i] == remote[..i] && remote[..i + 1][i] == k;
      var parentDb := Find(pages, k).value.parentDb;
      if !HasKey(wiki, k) && parentDb.Some? && parentDb.value != "" && RemoveChar(parentDb.value, '-') == root {
        deletes := Put(deletes, Find(pages, k).value.id, k);
      }
    }
    assert remote[..|pages|] == remote;
  }

  /** `updates` holds exactly the listed keys also found remotely, each with its remote page. */
  lemma {:induction false} UpdatesLookup(keys: seq<string>, pages: seq<Entry<SearchResult>>, k: string)
    ensures Find(Updates(keys, pages), k) == if k in keys && HasKey(pages, k) then Find(pages, k) else None
  {
    if keys != [] {
      var n := |keys| - 1;
      UpdatesLookup(keys[..n], pages, k);
      assert keys == keys[..n] + [keys[n]];
    }
  }

  /** `creates` holds exactly the listed keys not found remotely, each with its local document. */
  lemma {:induction false} CreatesLookup<D>(keys: seq<string>, wiki: seq<Entry<D>>, pages: seq<Entry<SearchResult>>, k: string)
    requires forall k :: k in keys ==> HasKey(wiki, k)
    ensures Find(Creates(keys, wiki, pages), k) == if k in keys && !HasKey(pages, k) then Find(wiki, k) else None
  {
    if keys != [] {
      var n := |keys| - 1;
      CreatesLookup(keys[..n], wiki, pages, k);
      assert keys == keys[..n] + [keys[n]];
    }
  }

  /**
   * Every local key is planned exactly once: it is updated when a page with
   * that key was found, created otherwise. Nothing else is updated or created.
   */
  lemma PlanPartition<D>(wiki: seq<Entry<D>>, pages: seq<Entry<SearchResult>>, root: string, k: string)
    ensures var p := PlanOf(wiki, pages, root);
      && Find(p.updates, k) == (if HasKey(wiki, k) && HasKey(pages, k) then Find(pages, k) else None)
      && Find(p.creates, k) == (if HasKey(wiki, k) && !HasKey(pages, k) then Find(wiki, k) else None)
  {
    KeysOfHasKey(wiki);
    KeysOfHasKey(pages);
    UpdatesLookup(KeysOf(wiki), pages, k);
    CreatesLookup(KeysOf(wiki), wiki, pages, k);
  }

  /**
   * Only pages missing locally and filed under the root are archived: every
   * planned deletion names a remote key of that kind and its page's id.
   */
  lemma {:induction false} DeletesSound<D>(keys: seq<string>, pages: seq<Entry<SearchResult>>, wiki: seq<Entry<D>>, root: string, id: string)
    requires forall k :: k in keys ==> HasKey(pages, k)
    requires Find(Deletes(keys, pages, wiki, root), id).Some?
    ensures var k := Find(Deletes(keys, pages, wiki, root), id).value;
      && k in keys && !HasKey(wiki, k)
      && InRoot(Find(pages, k).value, root) && Find(pages, k).value.id == id
  {
    var n := |keys| - 1;
    var before := Deletes(keys[..n], pages, wiki, root);
    var r := Find(pages, keys[n]).value;
    if !HasKey(wiki, keys[n]) && InRoot(r, root) && r.id == id {
    } else {
      assert Find(Deletes(keys, pages, wiki, root), id) == Find(before, id);
      DeletesSound(keys[..n], pages, wiki, root, id);
    }
  }

  /** Every listed remote page missing locally and filed under the root is archived. */
  lemma {:induction false} DeletesComplete<D>(keys: seq<string>, pages: seq<Entry<SearchResult>>, wiki: seq<Entry<D>>, root: string, k: string)
    requires forall k :: k in keys ==> HasKey(pages, k)
    requires k in keys && !HasKey(wiki, k) && InRoot(Find(pages, k).value, root)
    ensures Find(Deletes(keys, pages, wiki, root), Find(pages, k).value.id).Some?
  {
    var n := |keys| - 1;
    var before := Deletes(keys[..n], pages, wiki, root);
    var r := Find(pages, keys[n]).value;
    var added := !HasKey(wiki, keys[n]) && InRoot(r, root);
    assert Deletes(keys, pages, wiki, root) == if added then Put(before, r.id, keys[n]) else before;
    if keys[n] != k {
      assert k in keys[..n] by { assert keys == keys[..n] + [keys[n]]; }
      DeletesComplete(keys[..n], pages, wiki, root, k);
    }
  }

  /** The plan's deletions, stated over the whole index: exactly the pages missing locally and under the root. */
  lemma PlanDeletes<D>(wiki: seq<Entry<D>>, pages: seq<Entry<SearchResult>>, root: string)
    ensures var p := PlanOf(wiki, pages, root);
      forall id :: Find(p.deletes, id).Some? ==>
        var k := Find(p.deletes, id).value;
        HasKey(pages, k) && !HasKey(wiki, k) && InRoot(Find(pages, k).value, root) && Find(pages, k).value.id == id
    ensures var p := PlanOf(wiki, pages, root);
      forall k :: HasKey(pages, k) && !HasKey(wiki, k) && InRoot(Find(pages, k).value, root) ==>
        Find(p.deletes, Find(pages, k).value.id).Some?
  {
    KeysOfHasKey(wiki);
    KeysOfHasKey(pages);
    var remote := KeysOf(pages);
    forall id | Find(PlanOf(wiki, pages, root).deletes, id).Some?
      ensures var k := Find(PlanOf(wiki, pages, root).deletes, id).value;
        HasKey(pages, k) && !HasKey(wiki, k) && InRoot(Find(pages, k).value, root) && Find(pages, k).value.id == id
    {
      DeletesSound(remote, pages, wiki, root, id);
    }
    forall k | HasKey(pages, k) && !HasKey(wiki, k) && InRoot(Find(pages, k).value, root)
      ensures Find(PlanOf(wiki, pages, root).deletes, Find(pages, k).value.id).Some?
    {
      DeletesComplete(remote, pages, wiki, root, k);
    }
  }

  /** Results that agree on every page: two results with the same id are the same result. */
  predicate SameIdSame(results: seq<SearchResult>) {
    forall i, j :: 0 <= i < |results| && 0 <= j < |results| && results[i].id == results[j].id ==> results[i] == results[j]
  }

  /** Every index entry holds a page of the results, filed under that page's key. */
  lemma {:induction false} IndexFrom(results: seq<SearchResult>, githubURL: string)
    ensures forall e :: e in Index(results, githubURL) ==> e.val in results && PageFor(e.val, githubURL, e.key)
  {
    if results != [] {
      var n := |results| - 1;
      var init := results[..n];
      var before := Index(init, githubURL);
      IndexFrom(init, githubURL);
      if results[n].kind == "page" {
        var k := IndexKey(results[n], githubURL);
        PutEntries(before, k, results[n]);
        forall e | e in Index(results, githubURL) ensures e.val in results && PageFor(e.val, githubURL, e.key) {
          if e != Entry(k, results[n]) {
            var i :| 0 <= i < n && init[i] == e.val;
            assert results[i] == e.val;
          }
        }
      } else {
        forall e | e in Index(results, githubURL) ensures e.val in results && PageFor(e.val, githubURL, e.key) {
          var i :| 0 <= i < n && init[i] == e.val;
          assert results[i] == e.val;
        }
      }
    }
  }

  /** Every planned update is an index entry under one of the keys; no two share a key. */
  lemma {:induction false} UpdatesFrom(keys: seq<string>, pages: seq<Entry<SearchResult>>)
    ensures forall e :: e in Updates(keys, pages) ==> e in pages && e.key in keys
    ensures UniqueKeys(Updates(keys, pages))
  {
    if keys != [] {
      var n := |keys| - 1;
      var before := Updates(keys[..n], pages);
      UpdatesFrom(keys[..n], pages);
      assert forall k :: k in keys[..n] ==> k in keys;
      if HasKey(pages, keys[n]) {
        var v := Find(pages, keys[n]).value;
        FindIn(pages, keys[n]);
        PutEntries(before, keys[n], v);
        PutUnique(before, keys[n], v);
      }
    }
  }

  /** Every planned deletion pairs a key missing locally with the id of the page indexed under it. */
  lemma {:induction false} DeletesFrom<D>(keys: seq<string>, pages: seq<Entry<SearchResult>>, wiki: seq<Entry<D>>, root: string)
    requires forall k :: k in keys ==> HasKey(pages, k)
    ensures forall e :: e in Deletes(keys, pages, wiki, root) ==>
      && e.val in keys && !HasKey(wiki, e.val) && Entry(e.val, Find(pages, e.val).value) in pages
      && Find(pages, e.val).value.id == e.key
  {
    if keys != [] {
      var n := |keys| - 1;
      var before := Deletes(keys[..n], pages, wiki, root);
      DeletesFrom(keys[..n], pages, wiki, root);
      assert forall k :: k in keys[..n] ==> k in keys;
      var r := Find(pages, keys[n]).value;
      FindIn(pages, keys[n]);
      if !HasKey(wiki, keys[n]) && InRoot(r, root) {
        PutEntries(before, r.id, keys[n]);
      }
    }
  }

  /** Two index entries whose pages come from results that agree and share an id are filed under one key. */
  lemma SameIdSameKey(results: seq<SearchResult>, githubURL: string, a: Entry<SearchResult>, b: Entry<SearchResult>)
    requires SameIdSame(results)
    requires a.val in results && PageFor(a.val, githubURL, a.key)
    requires b.val in results && PageFor(b.val, githubURL, b.key)
    ensures a.val.id == b.val.id ==> a.key == b.key
  {
    var i :| 0 <= i < |results| && results[i] == a.val;
    var j :| 0 <= j < |results| && results[j] == b.val;
  }

  /**
   * A plan made from results that agree on every page is consistent: each
   * update is a local page paired with a page of the results, each deletion
   * names a page of the results, no page is both updated and deleted, and no
   * page is updated twice.
   */
  lemma PlanConsistent<D>(wiki: seq<Entry<D>>, results: seq<SearchResult>, githubURL: string, root: string)
    requires SameIdSame(results)
    ensures var p := PlanOf(wiki, Index(results, githubURL), root);
      && (forall i :: 0 <= i < |p.updates| ==> HasKey(wiki, p.updates[i].key) && p.updates[i].val in results)
      && (forall i :: 0 <= i < |p.deletes| ==> exists r :: r in results && r.id == p.deletes[i].key)
      && (forall i :: 0 <= i < |p.updates| ==> p.updates[i].val.id !in KeysOf(p.deletes))
      && (forall i, j :: 0 <= i < j < |p.updates| ==> p.updates[i].val.id != p.updates[j].val.id)
  {
    var pages := Index(results, githubURL);
    var p := PlanOf(wiki, pages, root);
    KeysOfHasKey(wiki);
    KeysOfHasKey(pages);
    IndexFrom(results, githubURL);
    UpdatesFrom(KeysOf(wiki), pages);
    DeletesFrom(KeysOf(pages), pages, wiki, root);
    forall i | 0 <= i < |p.updates| ensures HasKey(wiki, p.updates[i].key) && p.updates[i].val in results {
      assert p.updates[i] in p.updates;
    }
    forall i | 0 <= i < |p.deletes| ensures exists r :: r in results && r.id == p.deletes[i].key {
      var d := p.deletes[i];
      assert d in p.deletes;
      assert Entry(d.val, Find(pages, d.val).value) in pages;
    }
    forall i | 0 <= i < |p.updates| ensures p.updates[i].val.id !in KeysOf(p.deletes) {
      var u := p.updates[i];
      assert u in p.updates;
      forall j | 0 <= j < |p.deletes| ensures u.val.id != p.deletes[j].key {
        var d := p.deletes[j];
        assert d in p.deletes;
        SameIdSameKey(results, githubURL, u, Entry(d.val, Find(pages, d.val).value));
      }
    }
    forall i, j | 0 <= i < j < |p.updates| ensures p.updates[i].val.id != p.updates[j].val.id {
      assert p.updates[i] in p.updates && p.updates[j] in p.updates;
      SameIdSameKey(results, githubURL, p.updates[i], p.updates[j]);
    }
  }
}
