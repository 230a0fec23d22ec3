/**
 * Running the sync a second time, straight after a successful run and with
 * the same local pages. The second search lists every page the first run
 * created or updated, filed under the path of its file, so the second plan
 * creates nothing and archives nothing, and each page it updates already
 * holds the properties it would send: setting them again changes nothing,
 * and an update whose properties did not change leaves the content alone.
 */
module Rerun {
  import opened Wrappers
  import opened Assoc
  import opened Js
  import opened Properties
  import opened Remote
  import opened Reconcile
  import opened Loader
  import opened NotionStore
  import opened Sync

  /** The properties `mkProps` builds for the local page `k`. */
  function LocalProps(wiki: seq<Entry<Doc>>, k: string, githubURL: string, titleize: string -> string): Props
    requires HasKey(wiki, k)
  {
    PropertiesOf(githubURL, titleize, Find(wiki, k).value.frontMatter)
  }

  /** Every local page links back to its own file: the `URL` built for page `k` is `githubURL/k`. */
  ghost predicate LinksBack(wiki: seq<Entry<Doc>>, githubURL: string, titleize: string -> string) {
    forall k :: HasKey(wiki, k) ==> Find(LocalProps(wiki, k, githubURL, titleize), "URL") == Some(Url(githubURL + "/" + k))
  }

  /**
   * The front matter of a page loaded from `file` links back to it when it
   * holds `path: file`, its keys are distinct (as in any JavaScript object),
   * `path` titleizes to `Path`, and no other key titleizes to `Path` or `URL`.
   */
  predicate PathOnly(front: seq<Entry<Value>>, file: string, titleize: string -> string) {
    && Get(front, "path") == Str(file) && UniqueKeys(front) && titleize("path") == "Path"
    && forall j :: 0 <= j < |front| && front[j].key != "path" ==> Label(titleize, front[j].key) != "URL"
  }

  /** Such front matter builds properties whose `URL` is the link to the file. */
  lemma PathOnlyLinksBack(front: seq<Entry<Value>>, file: string, githubURL: string, titleize: string -> string)
    requires PathOnly(front, file, titleize)
    ensures Find(PropertiesOf(githubURL, titleize, front), "URL") == Some(Url(githubURL + "/" + file))
  {
    var i :| 0 <= i < |front| && front[i] == Entry("path", Str(file));
    PathBecomesUrl(githubURL, titleize, front, i);
  }

  /** Local pages whose front matter holds only their own path as a link all link back. */
  lemma LinksBackWhen(wiki: seq<Entry<Doc>>, githubURL: string, titleize: string -> string)
    requires forall k :: HasKey(wiki, k) ==> PathOnly(Find(wiki, k).value.frontMatter, k, titleize)
    ensures LinksBack(wiki, githubURL, titleize)
  {
    forall k | HasKey(wiki, k)
      ensures Find(LocalProps(wiki, k, githubURL, titleize), "URL") == Some(Url(githubURL + "/" + k))
    {
      PathOnlyLinksBack(Find(wiki, k).value.frontMatter, k, githubURL, titleize);
    }
  }

  /** No two different search results are filed under the same key. */
  predicate KeysDistinct(results: seq<SearchResult>, githubURL: string) {
    forall i, j :: 0 <= i < |results| && 0 <= j < |results| && IndexKey(results[i], githubURL) == IndexKey(results[j], githubURL) ==>
      results[i] == results[j]
  }

  /**
   * The workspace `pages1`/`children1` after a successful run from
   * `pages0`/`children0`, whose pages were listed in `order0`; `created`
   * are the pages the run created, listed after all earlier ones.
   */
  ghost predicate RanOnce(pages0: map<string, Page>, children0: map<string, seq<Child>>, order0: seq<string>,
                          pages1: map<string, Page>, children1: map<string, seq<Child>>, created: seq<string>,
                          wiki: seq<Entry<Doc>>, githubURL: string, root: string, titleize: string -> string)
  {
    && (forall i :: 0 <= i < |order0| ==> order0[i] in pages0)
    && (forall i :: 0 <= i < |order0 + created| ==> (order0 + created)[i] in pages1)
    && Synced(pages0, children0, Listing(pages0, order0), pages1, children1, created, wiki, githubURL, root, titleize)
  }

  /**
   * What a second plan does with a page it finds: a page filed under a local
   * key already holds the properties built for that key; a page filed under
   * any other key is outside the root.
   */
  ghost predicate Settled(r: SearchResult, wiki: seq<Entry<Doc>>, githubURL: string, root: string, titleize: string -> string) {
    var k := IndexKey(r, githubURL);
    && (HasKey(wiki, k) ==> Merge(r.properties, LocalProps(wiki, k, githubURL, titleize)) == r.properties)
    && (!HasKey(wiki, k) ==> !InRoot(r, root))
  }

  /** Every planned creation pairs a local key with its document. */
  lemma {:induction false} CreatesFrom<D>(keys: seq<string>, wiki: seq<Entry<D>>, pages: seq<Entry<SearchResult>>)
    requires forall k :: k in keys ==> HasKey(wiki, k)
    ensures forall e :: e in Creates(keys, wiki, pages) ==> e.key in keys && Find(wiki, e.key) == Some(e.val)
  {
    if keys != [] {
      var n := |keys| - 1;
      var before := Creates(keys[..n], wiki, pages);
      assert forall k :: k in keys[..n] ==> k in keys;
      CreatesFrom(keys[..n], wiki, pages);
      if HasKey(pages, keys[n]) {
        assert Creates(keys, wiki, pages) == before;
      } else {
        var v := Find(wiki, keys[n]).value;
        assert Creates(keys, wiki, pages) == Put(before, keys[n], v);
        PutEntries(before, keys[n], v);
      }
    }
  }

  /** Nothing is created when every local key is already indexed. */
  lemma {:induction false} CreatesNone<D>(keys: seq<string>, wiki: seq<Entry<D>>, pages: seq<Entry<SearchResult>>)
    requires forall k :: k in keys ==> HasKey(wiki, k) && HasKey(pages, k)
    ensures Creates(keys, wiki, pages) == []
  {
    if keys != [] {
      var n := |keys| - 1;
      assert forall k :: k in keys[..n] ==> k in keys;
      CreatesNone(keys[..n], wiki, pages);
    }
  }

  /** Nothing is archived when every indexed page is local or outside the root. */
  lemma {:induction false} DeletesNone<D>(keys: seq<string>, pages: seq<Entry<SearchResult>>, wiki: seq<Entry<D>>, root: string)
    requires forall k :: k in keys ==> HasKey(pages, k)
    requires forall k :: k in keys ==> HasKey(wiki, k) || !InRoot(Find(pages, k).value, root)
    ensures Deletes(keys, pages, wiki, root) == []
  {
    if keys != [] {
      var n := |keys| - 1;
      assert forall k :: k in keys[..n] ==> k in keys;
      DeletesNone(keys[..n], pages, wiki, root);
    }
  }

  /** Every page among the results is indexed under its key. */
  lemma ListedIndexed(results: seq<SearchResult>, githubURL: string, r: SearchResult)
    requires r in results && r.kind == "page"
    ensures HasKey(Index(results, githubURL), IndexKey(r, githubURL))
  {
    var k := IndexKey(r, githubURL);
    IndexLookup(results, githubURL, k);
    var m :| 0 <= m < |results| && results[m] == r;
    assert PageFor(results[m], githubURL, k);
  }

  /** When no two results share a key, each page is the one indexed under its key. */
  lemma DistinctIndexed(results: seq<SearchResult>, githubURL: string, r: SearchResult)
    requires KeysDistinct(results, githubURL)
    requires r in results && r.kind == "page"
    ensures Find(Index(results, githubURL), IndexKey(r, githubURL)) == Some(r)
  {
    var k := IndexKey(r, githubURL);
    IndexLookup(results, githubURL, k);
    var m :| 0 <= m < |results| && results[m] == r;
    assert PageFor(results[m], githubURL, k);
    var j := LastPage(results, githubURL, k).value;
    assert results[j] == results[m];
  }

  /** A page whose properties were last set from local page `k` is filed under `k`, and setting them again changes nothing. */
  lemma StampedSettled(r: SearchResult, cur: Props, wiki: seq<Entry<Doc>>, k: string,
                       githubURL: string, root: string, titleize: string -> string)
    requires LinksBack(wiki, githubURL, titleize) && HasKey(wiki, k)
    requires r.properties == Merge(cur, LocalProps(wiki, k, githubURL, titleize))
    ensures IndexKey(r, githubURL) == k && Settled(r, wiki, githubURL, root, titleize)
  {
    var props := LocalProps(wiki, k, githubURL, titleize);
    PropertiesTitle(githubURL, titleize, Find(wiki, k).value.frontMatter);
    MergeFind(cur, props, "URL");
    CreatedPageKey(r, githubURL, k);
    MergeAgain(cur, props);
  }

  /** The `i`th page the first run created is listed by the second search, filed under the key it was created for. */
  lemma CreatedSettled(pages0: map<string, Page>, children0: map<string, seq<Child>>, order0: seq<string>,
                       pages1: map<string, Page>, children1: map<string, seq<Child>>, created: seq<string>,
                       wiki: seq<Entry<Doc>>, githubURL: string, root: string, titleize: string -> string, i: nat)
    requires RanOnce(pages0, children0, order0, pages1, children1, created, wiki, githubURL, root, titleize)
    requires LinksBack(wiki, githubURL, titleize)
    requires i < |created|
    ensures var plan := PlanOf(wiki, Index(Listing(pages0, order0), githubURL), root);
      var id := created[i];
      && i < |plan.creates| && HasKey(wiki, plan.creates[i].key) && id in pages1
      && var r := SearchResult(id, "page", pages1[id].properties, pages1[id].parentDb);
      && r in Listing(pages1, order0 + created)
      && IndexKey(r, githubURL) == plan.creates[i].key && Settled(r, wiki, githubURL, root, titleize)
  {
    var plan := PlanOf(wiki, Index(Listing(pages0, order0), githubURL), root);
    var id := created[i];
    KeysOfHasKey(wiki);
    CreatesFrom(KeysOf(wiki), wiki, Index(Listing(pages0, order0), githubURL));
    assert plan.creates[i] in plan.creates;
    var k := plan.creates[i].key;
    var props := LocalProps(wiki, k, githubURL, titleize);
    PropertiesTitle(githubURL, titleize, Find(wiki, k).value.frontMatter);
    MergeSelf(props);
    var r := SearchResult(id, "page", pages1[id].properties, pages1[id].parentDb);
    StampedSettled(r, props, wiki, k, githubURL, root, titleize);
    assert (order0 + created)[|order0| + i] == id;
    ListingHas(pages1, order0 + created, id);
  }

  /** The `i`th page the first run updated was live and listed before, is live after, and holds its merged properties. */
  lemma UpdatedPage(pages0: map<string, Page>, children0: map<string, seq<Child>>, order0: seq<string>,
                    pages1: map<string, Page>, children1: map<string, seq<Child>>, created: seq<string>,
                    wiki: seq<Entry<Doc>>, githubURL: string, root: string, titleize: string -> string, i: nat)
    requires RanOnce(pages0, children0, order0, pages1, children1, created, wiki, githubURL, root, titleize)
    requires i < |PlanOf(wiki, Index(Listing(pages0, order0), githubURL), root).updates|
    ensures var plan := PlanOf(wiki, Index(Listing(pages0, order0), githubURL), root);
      var id := plan.updates[i].val.id;
      && id in order0 && id in pages0 && id in pages1 && !pages1[id].archived && HasKey(wiki, plan.updates[i].key)
      && pages1[id].properties == Merge(pages0[id].properties, LocalProps(wiki, plan.updates[i].key, githubURL, titleize))
  {
    var listing := Listing(pages0, order0);
    var plan := PlanOf(wiki, Index(listing, githubURL), root);
    PlanFits(pages0, order0, listing, wiki, githubURL, root, plan);
    ListingAgrees(pages0, order0, listing);
    PlanConsistent(wiki, listing, githubURL, root);
    ListingLive(pages0, order0);
    assert plan.updates[i].val.id in PageIds(plan.updates);
  }

  /** The `i`th page the first run updated is listed by the second search, filed under the key it was updated from. */
  lemma UpdatedSettled(pages0: map<string, Page>, children0: map<string, seq<Child>>, order0: seq<string>,
                       pages1: map<string, Page>, children1: map<string, seq<Child>>, created: seq<string>,
                       wiki: seq<Entry<Doc>>, githubURL: string, root: string, titleize: string -> string, i: nat)
    requires RanOnce(pages0, children0, order0, pages1, children1, created, wiki, githubURL, root, titleize)
    requires LinksBack(wiki, githubURL, titleize)
    requires i < |PlanOf(wiki, Index(Listing(pages0, order0), githubURL), root).updates|
    ensures var plan := PlanOf(wiki, Index(Listing(pages0, order0), githubURL), root);
      var id := plan.updates[i].val.id;
      && id in pages1
      && var r := SearchResult(id, "page", pages1[id].properties, pages1[id].parentDb);
      && r in Listing(pages1, order0 + created)
      && IndexKey(r, githubURL) == plan.updates[i].key && Settled(r, wiki, githubURL, root, titleize)
  {
    var plan := PlanOf(wiki, Index(Listing(pages0, order0), githubURL), root);
    UpdatedPage(pages0, children0, order0, pages1, children1, created, wiki, githubURL, root, titleize, i);
    var id := plan.updates[i].val.id;
    var r := SearchResult(id, "page", pages1[id].properties, pages1[id].parentDb);
    StampedSettled(r, pages0[id].properties, wiki, plan.updates[i].key, githubURL, root, titleize);
    ListingHas(pages1, order0 + created, id);
  }

  /** A live earlier page filed under a local key is one the first run updated, when no two pages shared a key. */
  lemma UntouchedLocal(pages0: map<string, Page>, order0: seq<string>,
                       wiki: seq<Entry<Doc>>, githubURL: string, root: string, id: string)
    requires forall i :: 0 <= i < |order0| ==> order0[i] in pages0
    requires KeysDistinct(Listing(pages0, order0), githubURL)
    requires id in order0 && !pages0[id].archived
    ensures var plan := PlanOf(wiki, Index(Listing(pages0, order0), githubURL), root);
      HasKey(wiki, IndexKey(SearchResult(id, "page", pages0[id].properties, pages0[id].parentDb), githubURL)) ==>
        id in PageIds(plan.updates)
  {
    var listing := Listing(pages0, order0);
    var index := Index(listing, githubURL);
    var plan := PlanOf(wiki, index, root);
    var r := SearchResult(id, "page", pages0[id].properties, pages0[id].parentDb);
    var k := IndexKey(r, githubURL);
    ListingHas(pages0, order0, id);
    DistinctIndexed(listing, githubURL, r);
    PlanPartition(wiki, index, root, k);
    if HasKey(wiki, k) {
      var j :| 0 <= j < |plan.updates| && plan.updates[j] == Entry(k, r);
      assert id == plan.updates[j].val.id;
    }
  }

  /** A live earlier page filed under a key missing locally and in the root was archived by the first run. */
  lemma UntouchedArchived(pages0: map<string, Page>, order0: seq<string>, pages1: map<string, Page>,
                          wiki: seq<Entry<Doc>>, githubURL: string, root: string, id: string)
    requires forall i :: 0 <= i < |order0| ==> order0[i] in pages0
    requires DeletesArchived(pages0, pages1, KeysOf(PlanOf(wiki, Index(Listing(pages0, order0), githubURL), root).deletes))
    requires KeysDistinct(Listing(pages0, order0), githubURL)
    requires id in order0 && !pages0[id].archived
    ensures var r := SearchResult(id, "page", pages0[id].properties, pages0[id].parentDb);
      !HasKey(wiki, IndexKey(r, githubURL)) && InRoot(r, root) ==> id in pages1 && pages1[id].archived
  {
    var listing := Listing(pages0, order0);
    var index := Index(listing, githubURL);
    var plan := PlanOf(wiki, index, root);
    var r := SearchResult(id, "page", pages0[id].properties, pages0[id].parentDb);
    ListingHas(pages0, order0, id);
    DistinctIndexed(listing, githubURL, r);
    PlanDeletes(wiki, index, root);
    KeysOfHasKey(plan.deletes);
  }

  /** Every page the second search lists is settled. */
  lemma ListedSettled(pages0: map<string, Page>, children0: map<string, seq<Child>>, order0: seq<string>,
                      pages1: map<string, Page>, children1: map<string, seq<Child>>, created: seq<string>,
                      wiki: seq<Entry<Doc>>, githubURL: string, root: string, titleize: string -> string, r: SearchResult)
    requires RanOnce(pages0, children0, order0, pages1, children1, created, wiki, githubURL, root, titleize)
    requires LinksBack(wiki, githubURL, titleize)
    requires KeysDistinct(Listing(pages0, order0), githubURL)
    requires r in Listing(pages1, order0 + created)
    ensures r.kind == "page" && Settled(r, wiki, githubURL, root, titleize)
  {
    var plan := PlanOf(wiki, Index(Listing(pages0, order0), githubURL), root);
    ListingLive(pages1, order0 + created);
    var id := r.id;
    if id in created {
      var i :| 0 <= i < |created| && created[i] == id;
      CreatedSettled(pages0, children0, order0, pages1, children1, created, wiki, githubURL, root, titleize, i);
    } else if id in PageIds(plan.updates) {
      var i :| 0 <= i < |plan.updates| && plan.updates[i].val.id == id;
      UpdatedSettled(pages0, children0, order0, pages1, children1, created, wiki, githubURL, root, titleize, i);
    } else {
      assert id in order0 && id in pages0;
      UntouchedLocal(pages0, order0, wiki, githubURL, root, id);
      UntouchedArchived(pages0, order0, pages1, wiki, githubURL, root, id);
    }
  }

  /** Every local page is indexed by the second search. */
  lemma LocalIndexed(pages0: map<string, Page>, children0: map<string, seq<Child>>, order0: seq<string>,
                     pages1: map<string, Page>, children1: map<string, seq<Child>>, created: seq<string>,
                     wiki: seq<Entry<Doc>>, githubURL: string, root: string, titleize: string -> string, k: string)
    requires RanOnce(pages0, children0, order0, pages1, children1, created, wiki, githubURL, root, titleize)
    requires LinksBack(wiki, githubURL, titleize)
    requires HasKey(wiki, k)
    ensures HasKey(Index(Listing(pages1, order0 + created), githubURL), k)
  {
    var index := Index(Listing(pages0, order0), githubURL);
    var plan := PlanOf(wiki, index, root);
    PlanPartition(wiki, index, root, k);
    if HasKey(index, k) {
      var i :| 0 <= i < |plan.updates| && plan.updates[i] == Entry(k, Find(index, k).value);
      UpdatedSettled(pages0, children0, order0, pages1, children1, created, wiki, githubURL, root, titleize, i);
      var id := plan.updates[i].val.id;
      ListedIndexed(Listing(pages1, order0 + created), githubURL, SearchResult(id, "page", pages1[id].properties, pages1[id].parentDb));
    } else {
      var i :| 0 <= i < |plan.creates| && plan.creates[i] == Entry(k, Find(wiki, k).value);
      CreatedSettled(pages0, children0, order0, pages1, children1, created, wiki, githubURL, root, titleize, i);
      var id := created[i];
      ListedIndexed(Listing(pages1, order0 + created), githubURL, SearchResult(id, "page", pages1[id].properties, pages1[id].parentDb));
    }
  }

  /**
   * After a successful run, a second run with the same local pages plans no
   * creation and no archive, and every update it plans is for a local page
   * whose remote page already holds the properties that update would send.
   */
  lemma SecondRunSettled(pages0: map<string, Page>, children0: map<string, seq<Child>>, order0: seq<string>,
                         pages1: map<string, Page>, children1: map<string, seq<Child>>, created: seq<string>,
                         wiki: seq<Entry<Doc>>, githubURL: string, root: string, titleize: string -> string)
    requires RanOnce(pages0, children0, order0, pages1, children1, created, wiki, githubURL, root, titleize)
    requires LinksBack(wiki, githubURL, titleize)
    requires KeysDistinct(Listing(pages0, order0), githubURL)
    ensures var plan := PlanOf(wiki, Index(Listing(pages1, order0 + created), githubURL), root);
      && plan.creates == [] && plan.deletes == []
      && forall i :: 0 <= i < |plan.updates| ==>
        var u := plan.updates[i];
        HasKey(wiki, u.key) && Merge(u.val.properties, LocalProps(wiki, u.key, githubURL, titleize)) == u.val.properties
  {
    var listing := Listing(pages1, order0 + created);
    var index := Index(listing, githubURL);
    var plan := PlanOf(wiki, index, root);
    KeysOfHasKey(wiki);
    KeysOfHasKey(index);
    forall k | k in KeysOf(wiki) ensures HasKey(wiki, k) && HasKey(index, k) {
      LocalIndexed(pages0, children0, order0, pages1, children1, created, wiki, githubURL, root, titleize, k);
    }
    CreatesNone(KeysOf(wiki), wiki, index);
    IndexFrom(listing, githubURL);
    forall k | k in KeysOf(index) ensures HasKey(wiki, k) || !InRoot(Find(index, k).value, root) {
      FindIn(index, k);
      ListedSettled(pages0, children0, order0, pages1, children1, created, wiki, githubURL, root, titleize, Find(index, k).value);
    }
    DeletesNone(KeysOf(index), index, wiki, root);
    UpdatesFrom(KeysOf(wiki), index);
    forall i | 0 <= i < |plan.updates|
      ensures HasKey(wiki, plan.updates[i].key)
      ensures Merge(plan.updates[i].val.properties, LocalProps(wiki, plan.updates[i].key, githubURL, titleize)) == plan.updates[i].val.properties
    {
      assert plan.updates[i] in plan.updates;
      ListedSettled(pages0, children0, order0, pages1, children1, created, wiki, githubURL, root, titleize, plan.updates[i].val);
    }
  }

  /** A plan that creates nothing, archives nothing, and whose every update sends properties the page already holds. */
  ghost predicate Quiet(plan: Plan<Doc>, wiki: seq<Entry<Doc>>, githubURL: string, titleize: string -> string) {
    && plan.creates == [] && plan.deletes == []
    && forall i :: 0 <= i < |plan.updates| ==>
      var u := plan.updates[i];
      HasKey(wiki, u.key) && Merge(u.val.properties, LocalProps(wiki, u.key, githubURL, titleize)) == u.val.properties
  }

  /** A page a plan updates is listed as the workspace holds it. */
  lemma UpdateListed(pages: map<string, Page>, order: seq<string>, wiki: seq<Entry<Doc>>, githubURL: string, root: string, i: nat)
    requires forall j :: 0 <= j < |order| ==> order[j] in pages
    requires i < |PlanOf(wiki, Index(Listing(pages, order), githubURL), root).updates|
    ensures var r := PlanOf(wiki, Index(Listing(pages, order), githubURL), root).updates[i].val;
      r.id in pages && r.properties == pages[r.id].properties
  {
    var listing := Listing(pages, order);
    ListingLive(pages, order);
    ListingAgrees(pages, order, listing);
    PlanConsistent(wiki, listing, githubURL, root);
    assert PlanOf(wiki, Index(listing, githubURL), root).updates[i].val in listing;
  }

  /** Carrying out a quiet plan made against a listing of the workspace leaves an existing page, and its content, as it was. */
  lemma QuietPageKept(pages1: map<string, Page>, children1: map<string, seq<Child>>, order1: seq<string>,
                      pages2: map<string, Page>, children2: map<string, seq<Child>>, created2: seq<string>,
                      wiki: seq<Entry<Doc>>, githubURL: string, root: string, titleize: string -> string, p: string)
    requires forall i :: 0 <= i < |order1| ==> order1[i] in pages1
    requires Quiet(PlanOf(wiki, Index(Listing(pages1, order1), githubURL), root), wiki, githubURL, titleize)
    requires Synced(pages1, children1, Listing(pages1, order1), pages2, children2, created2, wiki, githubURL, root, titleize)
    ensures p in pages1 ==> p in pages2 && pages2[p] == pages1[p]
    ensures p in children1 ==> p in children2 && children2[p] == children1[p]
  {
    var listing := Listing(pages1, order1);
    var plan := PlanOf(wiki, Index(listing, githubURL), root);
    if p in PageIds(plan.updates) {
      var i :| 0 <= i < |plan.updates| && plan.updates[i].val.id == p;
      UpdateListed(pages1, order1, wiki, githubURL, root, i);
      assert pages2[p].properties == Merge(pages1[p].properties, LocalProps(wiki, plan.updates[i].key, githubURL, titleize));
    }
  }

  /**
   * The second run itself: carried out on the workspace the first run left,
   * it creates no page, and every page and every page's content that existed
   * before it is left exactly as it was. Only the requests remain.
   */
  lemma SecondRunKeeps(pages0: map<string, Page>, children0: map<string, seq<Child>>, order0: seq<string>,
                       pages1: map<string, Page>, children1: map<string, seq<Child>>, created: seq<string>,
                       pages2: map<string, Page>, children2: map<string, seq<Child>>, created2: seq<string>,
                       wiki: seq<Entry<Doc>>, githubURL: string, root: string, titleize: string -> string)
    requires RanOnce(pages0, children0, order0, pages1, children1, created, wiki, githubURL, root, titleize)
    requires LinksBack(wiki, githubURL, titleize)
    requires KeysDistinct(Listing(pages0, order0), githubURL)
    requires Synced(pages1, children1, Listing(pages1, order0 + created), pages2, children2, created2, wiki, githubURL, root, titleize)
    ensures created2 == []
    ensures forall p :: p in pages1 ==> p in pages2 && pages2[p] == pages1[p]
    ensures forall p :: p in children1 ==> p in children2 && children2[p] == children1[p]
  {
    SecondRunSettled(pages0, children0, order0, pages1, children1, created, wiki, githubURL, root, titleize);
    forall p | p in pages1 || p in children1
      ensures p in pages1 ==> p in pages2 && pages2[p] == pages1[p]
      ensures p in children1 ==> p in children2 && children2[p] == children1[p]
    {
      QuietPageKept(pages1, children1, order0 + created, pages2, children2, created2, wiki, githubURL, root, titleize, p);
    }
  }
}
