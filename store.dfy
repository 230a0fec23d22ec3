/**
 * An in-memory stand-in for the Notion workspace the tool syncs into: pages
 * with properties, each page's child blocks, and the endpoints the tool
 * calls. List endpoints are paginated; every request is recorded in a ghost
 * log so that callers can state which requests they made and in what order.
 */
module NotionStore {
  import opened Wrappers
  import opened Assoc
  import opened Js
  import opened Properties
  import opened Remote
  import Strings

  datatype Page = Page(properties: Props, parentDb: Option<string>, archived: bool)

  /** A block's id names the page it belongs to. */
  datatype BlockId = BlockId(page: string, n: nat)

  datatype Child = Child(id: BlockId, block: Value)

  /** The requests the tool makes. */
  datatype Call =
    | ArchivePage(pageId: string)
    | CreatePage(pageId: string)
    | UpdateProperties(pageId: string)
    | ListChildren(pageId: string, cursor: Option<nat>)
    | DeleteBlock(blockId: BlockId)
    | AppendChildren(pageId: string, count: nat)
    | Search(cursor: Option<nat>)

  /** The id the store gives to the `n`-th page it creates. */
  function PageId(n: nat): string {
    "page-" + Strings.NatToString(n)
  }

  lemma PageIdInjective(a: nat, b: nat)
    requires PageId(a) == PageId(b)
    ensures a == b
  {
    assert PageId(a)[5..] == Strings.NatToString(a);
    assert PageId(b)[5..] == Strings.NatToString(b);
    Strings.NatToStringInjective(a, b);
  }

  /** The blocks of a list of children, in order. */
  function Blocks(cs: seq<Child>): (r: seq<Value>)
    ensures |r| == |cs| && forall i :: 0 <= i < |cs| ==> r[i] == cs[i].block
  {
    seq(|cs|, i requires 0 <= i < |cs| => cs[i].block)
  }

  /** New children for `page`, numbered from `from`. */
  function Numbered(page: string, from: nat, blocks: seq<Value>): (r: seq<Child>)
    ensures |r| == |blocks|
    ensures forall i :: 0 <= i < |r| ==> r[i] == Child(BlockId(page, from + i), blocks[i])
  {
    seq(|blocks|, i requires 0 <= i < |blocks| => Child(BlockId(page, from + i), blocks[i]))
  }

  predicate DistinctIds(cs: seq<Child>) {
    forall i, j :: 0 <= i < j < |cs| ==> cs[i].id != cs[j].id
  }

  predicate HasBlock(cs: seq<Child>, b: BlockId) {
    exists i :: 0 <= i < |cs| && cs[i].id == b
  }

  /** The children without block `b`. */
  function Without(cs: seq<Child>, b: BlockId): (r: seq<Child>)
    ensures !HasBlock(r, b)
    ensures forall c :: c in r <==> c in cs && c.id != b
  {
    if cs == [] then []
    else if cs[0].id == b then Without(cs[1..], b)
    else [cs[0]] + Without(cs[1..], b)
  }

  /** With distinct ids, removing the first child's id removes exactly the first child. */
  lemma {:induction false} WithoutFirst(cs: seq<Child>)
    requires cs != [] && DistinctIds(cs)
    ensures Without(cs, cs[0].id) == cs[1..]
  {
    var b := cs[0].id;
    var t := cs[1..];
    assert forall c :: c in t ==> c.id != b by {
      forall c | c in t ensures c.id != b {
        var j :| 0 <= j < |t| && t[j] == c;
        assert cs[j + 1] == c;
      }
    }
    WithoutNone(t, b);
  }

  lemma {:induction false} WithoutNone(cs: seq<Child>, b: BlockId)
    requires forall c :: c in cs ==> c.id != b
    ensures Without(cs, b) == cs
  {
    if cs != [] {
      assert forall c :: c in cs[1..] ==> c in cs;
      WithoutNone(cs[1..], b);
    }
  }

  /** What the Notion API does with `properties` in a page update: the given entries replace or extend the page's. */
  function Merge(cur: Props, upd: Props): Props {
    if upd == [] then cur
    else
      var n := |upd| - 1;
      Put(Merge(cur, upd[..n]), upd[n].key, upd[n].val)
  }

  /** After a merge, a key given in the update reads as given; any other key as before. */
  lemma {:induction false} MergeFind(cur: Props, upd: Props, k: string)
    requires UniqueKeys(upd)
    ensures Find(Merge(cur, upd), k) == if HasKey(upd, k) then Find(upd, k) else Find(cur, k)
  {
    if upd != [] {
      var n := |upd| - 1;
      LastEntry(upd, k);
      MergeFind(cur, upd[..n], k);
    }
  }

  /** Reading a key from a list with distinct keys, split before its last entry. */
  lemma LastEntry(upd: Props, k: string)
    requires UniqueKeys(upd) && upd != []
    ensures var n := |upd| - 1;
      && UniqueKeys(upd[..n])
      && (HasKey(upd, k) <==> upd[n].key == k || HasKey(upd[..n], k))
      && Find(upd, k) == if upd[n].key == k then Some(upd[n].val) else Find(upd[..n], k)
  {
    var n := |upd| - 1;
    var init := upd[..n];
    assert upd == init + [upd[n]];
    if upd[n].key == k {
      assert !HasKey(init, k);
      FindLast(init, upd[n]);
    } else {
      HasKeyAppend(init, upd[n], k);
      FindAppendOther(init, upd[n], k);
    }
  }

  lemma {:induction false} FindLast(s: Props, e: Entry<PropValue>)
    requires !HasKey(s, e.key)
    ensures Find(s + [e], e.key) == Some(e.val)
  {
    PutNew(s, e.key, e.val);
  }

  lemma HasKeyAppend(s: Props, e: Entry<PropValue>, k: string)
    requires e.key != k
    ensures HasKey(s + [e], k) <==> HasKey(s, k)
  {
    if HasKey(s + [e], k) {
      var i :| 0 <= i < |s + [e]| && (s + [e])[i].key == k;
      assert s[i].key == k;
    }
    if HasKey(s, k) {
      var i :| 0 <= i < |s| && s[i].key == k;
      assert (s + [e])[i].key == k;
    }
  }

  lemma {:induction false} FindAppendOther(s: Props, e: Entry<PropValue>, k: string)
    requires e.key != k
    ensures Find(s + [e], k) == Find(s, k)
  {
    if s != [] {
      FindAppendOther(s[1..], e, k);
      assert (s + [e])[1..] == s[1..] + [e];
    }
  }

  /** A merge leaves the properties as they were exactly when every given entry is already there with the same value. */
  lemma {:induction false} MergeUnchanged(cur: Props, upd: Props)
    requires UniqueKeys(upd)
    ensures Merge(cur, upd) == cur <==> forall i :: 0 <= i < |upd| ==> Find(cur, upd[i].key) == Some(upd[i].val)
  {
    if forall i :: 0 <= i < |upd| ==> Find(cur, upd[i].key) == Some(upd[i].val) {
      MergeSame(cur, upd);
    }
    if Merge(cur, upd) == cur {
      forall i | 0 <= i < |upd| ensures Find(cur, upd[i].key) == Some(upd[i].val) {
        MergeFind(cur, upd, upd[i].key);
        FindUnique(upd, i);
      }
    }
  }

  /** Sending the same properties twice leaves what sending them once left. */
  lemma MergeAgain(cur: Props, upd: Props)
    requires UniqueKeys(upd)
    ensures Merge(Merge(cur, upd), upd) == Merge(cur, upd)
  {
    forall i | 0 <= i < |upd| ensures Find(Merge(cur, upd), upd[i].key) == Some(upd[i].val) {
      MergeFind(cur, upd, upd[i].key);
      FindUnique(upd, i);
    }
    MergeUnchanged(Merge(cur, upd), upd);
  }

  /** Sending a page its own properties changes nothing. */
  lemma MergeSelf(upd: Props)
    requires UniqueKeys(upd)
    ensures Merge(upd, upd) == upd
  {
    forall i | 0 <= i < |upd| ensures Find(upd, upd[i].key) == Some(upd[i].val) {
      FindUnique(upd, i);
    }
    MergeUnchanged(upd, upd);
  }

  lemma {:induction false} MergeSame(cur: Props, upd: Props)
    requires forall i :: 0 <= i < |upd| ==> Find(cur, upd[i].key) == Some(upd[i].val)
    ensures Merge(cur, upd) == cur
  {
    if upd != [] {
      var n := |upd| - 1;
      MergeSame(cur, upd[..n]);
      PutSame(cur, upd[n].key, upd[n].val);
    }
  }

  lemma FindUnique(s: Props, i: nat)
    requires UniqueKeys(s) && i < |s|
    ensures HasKey(s, s[i].key) && Find(s, s[i].key) == Some(s[i].val)
  {
    var k := s[i].key;
    var j :| 0 <= j < |s| && s[j] == Entry(k, Find(s, k).value);
    assert j == i;
  }

  /** What a search lists: the live pages, in creation order. */
  function Listing(pages: map<string, Page>, order: seq<string>): seq<SearchResult>
    requires forall i :: 0 <= i < |order| ==> order[i] in pages
  {
    if order == [] then []
    else
      var n := |order| - 1;
      var p := pages[order[n]];
      Listing(pages, order[..n]) + if p.archived then [] else [SearchResult(order[n], "page", p.properties, p.parentDb)]
  }

  /** Every listed result is a live page, listed as the workspace holds it. */
  lemma {:induction false} ListingLive(pages: map<string, Page>, order: seq<string>)
    requires forall i :: 0 <= i < |order| ==> order[i] in pages
    ensures forall r :: r in Listing(pages, order) ==>
      && r.id in pages && !pages[r.id].archived && r.id in order
      && r == SearchResult(r.id, "page", pages[r.id].properties, pages[r.id].parentDb)
  {
    if order != [] {
      ListingLive(pages, order[..|order| - 1]);
      assert forall id :: id in order[..|order| - 1] ==> id in order;
    }
  }

  /** Every live page in the order is listed, as the workspace holds it. */
  lemma {:induction false} ListingHas(pages: map<string, Page>, order: seq<string>, id: string)
    requires forall i :: 0 <= i < |order| ==> order[i] in pages
    requires id in order && !pages[id].archived
    ensures SearchResult(id, "page", pages[id].properties, pages[id].parentDb) in Listing(pages, order)
  {
    var n := |order| - 1;
    if order[n] != id {
      assert id in order[..n] by { assert order == order[..n] + [order[n]]; }
      ListingHas(pages, order[..n], id);
    }
  }

  class Store {
    var pages: map<string, Page>
    var order: seq<string>
    var children: map<string, seq<Child>>
    var nextPage: nat
    var nextBlock: nat
    const pageSize: nat
    ghost var log: seq<Call>

    ghost predicate Valid()
      reads this`pages, this`order, this`children, this`nextPage, this`nextBlock
    {
      && pageSize > 0
      && pages.Keys == children.Keys
      && (forall i :: 0 <= i < |order| ==> order[i] in pages)
      && (forall m :: m >= nextPage ==> PageId(m) !in pages)
      && (forall p :: p in children ==> DistinctIds(children[p]))
      && (forall p, i :: p in children && 0 <= i < |children[p]| ==> children[p][i].id.page == p && children[p][i].id.n < nextBlock)
    }

    /** An empty workspace whose list endpoints return at most `pageSize` items per request. */
    constructor (pageSize: nat)
      requires pageSize > 0
      ensures Valid() && this.pageSize == pageSize
      ensures pages == map[] && children == map[] && order == [] && log == []
    {
      this.pageSize := pageSize;
      pages := map[];
      order := [];
      children := map[];
      nextPage := 0;
      nextBlock := 0;
      log := [];
    }

    /** `pages.update({page_id, archived: true})`: fails on an unknown page. */
    method Archive(id: string) returns (ok: bool)
      requires Valid()
      modifies this
      ensures Valid()
      ensures ok <==> id in old(pages)
      ensures pages == if ok then old(pages)[id := old(pages)[id].(archived := true)] else old(pages)
      ensures children == old(children) && order == old(order)
      ensures nextPage == old(nextPage) && nextBlock == old(nextBlock)
      ensures log == old(log) + [ArchivePage(id)]
    {
      log := log + [ArchivePage(id)];
      ok := id in pages;
      if ok {
        pages := pages[id := pages[id].(archived := true)];
      }
    }

    /** `pages.create({parent, properties, children})`: a new live page holding `content`. */
    method Create(parentDb: string, properties: Props, content: seq<Value>) returns (id: string)
      requires Valid()
      modifies this
      ensures Valid()
      ensures id !in old(pages)
      ensures pages == old(pages)[id := Page(properties, Some(parentDb), false)]
      ensures children == old(children)[id := Numbered(id, old(nextBlock), content)]
      ensures Blocks(children[id]) == content
      ensures order == old(order) + [id]
      ensures log == old(log) + [CreatePage(id)]
    {
      id := PageId(nextPage);
      forall m | m >= nextPage + 1 ensures PageId(m) != id {
        if PageId(m) == id { PageIdInjective(m, nextPage); }
      }
      pages := pages[id := Page(properties, Some(parentDb), false)];
      children := children[id := Numbered(id, nextBlock, content)];
      order := order + [id];
      nextPage := nextPage + 1;
      nextBlock := nextBlock + |content|;
      log := log + [CreatePage(id)];
    }

    /** `pages.update({page_id, properties})`: merges the properties and returns the page's new ones; fails on an unknown or archived page. */
    method Update(id: string, properties: Props) returns (r: Option<Props>)
      requires Valid()
      modifies this
      ensures Valid()
      ensures r.Some? <==> id in old(pages) && !old(pages)[id].archived
      ensures r.Some? ==> r.value == Merge(old(pages)[id].properties, properties)
      ensures pages == if r.Some? then old(pages)[id := old(pages)[id].(properties := r.value)] else old(pages)
      ensures children == old(children) && order == old(order)
      ensures nextPage == old(nextPage) && nextBlock == old(nextBlock)
      ensures log == old(log) + [UpdateProperties(id)]
    {
      log := log + [UpdateProperties(id)];
      if id in pages && !pages[id].archived {
        var merged := Merge(pages[id].properties, properties);
        pages := pages[id := pages[id].(properties := merged)];
        r := Some(merged);
      } else {
        r := None;
      }
    }

    /** `blocks.children.list({block_id, start_cursor})`: one batch of a page's children. */
    method List(id: string, cursor: Option<nat>) returns (r: Option<Batch<Child>>)
      requires Valid()
      modifies this`log
      ensures r.Some? <==> id in children && (cursor.None? || cursor.value <= |children[id]|)
      ensures r.Some? ==> r.value == BatchAt(children[id], pageSize, if cursor.None? then 0 else cursor.value)
      ensures log == old(log) + [ListChildren(id, cursor)]
    {
      log := log + [ListChildren(id, cursor)];
      var start := if cursor.None? then 0 else cursor.value;
      if id in children && start <= |children[id]| {
        r := Some(BatchAt(children[id], pageSize, start));
      } else {
        r := None;
      }
    }

    /** `blocks.delete({block_id})`: fails when there is no such block. */
    method Delete(b: BlockId) returns (ok: bool)
      requires Valid()
      modifies this
      ensures Valid()
      ensures ok <==> b.page in old(children) && HasBlock(old(children)[b.page], b)
      ensures children == if ok then old(children)[b.page := Without(old(children)[b.page], b)] else old(children)
      ensures pages == old(pages) && order == old(order)
      ensures nextPage == old(nextPage) && nextBlock == old(nextBlock)
      ensures log == old(log) + [DeleteBlock(b)]
    {
      log := log + [DeleteBlock(b)];
      ok := b.page in children && HasBlock(children[b.page], b);
      if ok {
        var cs := children[b.page];
        var rest := Without(cs, b);
        WithoutKeepsDistinct(cs, b);
        children := children[b.page := rest];
        forall i | 0 <= i < |rest| ensures rest[i].id.page == b.page && rest[i].id.n < nextBlock {
          assert rest[i] in cs;
        }
      }
    }

    /** `blocks.children.append({block_id, children})`: fails on an unknown or archived page. */
    method Append(id: string, blocks: seq<Value>) returns (ok: bool)
      requires Valid()
      modifies this
      ensures Valid()
      ensures ok <==> id in old(pages) && !old(pages)[id].archived
      ensures children == if ok then old(children)[id := old(children)[id] + Numbered(id, old(nextBlock), blocks)] else old(children)
      ensures pages == old(pages) && order == old(order) && nextPage == old(nextPage)
      ensures log == old(log) + [AppendChildren(id, |blocks|)]
    {
      log := log + [AppendChildren(id, |blocks|)];
      ok := id in pages && !pages[id].archived;
      if ok {
        var cs := children[id] + Numbered(id, nextBlock, blocks);
        assert DistinctIds(cs) by {
          forall i, j | 0 <= i < j < |cs| ensures cs[i].id != cs[j].id {
            if j >= |children[id]| && i < |children[id]| {
              assert cs[i].id.n < nextBlock <= cs[j].id.n;
            }
          }
        }
        children := children[id := cs];
        nextBlock := nextBlock + |blocks|;
      }
    }

    /** `search({start_cursor})`: one batch of the live pages. */
    method SearchPages(cursor: Option<nat>) returns (r: Option<Batch<SearchResult>>)
      requires Valid()
      modifies this`log
      ensures r.Some? <==> cursor.None? || cursor.value <= |Listing(pages, order)|
      ensures r.Some? ==> r.value == BatchAt(Listing(pages, order), pageSize, if cursor.None? then 0 else cursor.value)
      ensures log == old(log) + [Search(cursor)]
    {
      log := log + [Search(cursor)];
      var listing := Listing(pages, order);
      var start := if cursor.None? then 0 else cursor.value;
      if start <= |listing| {
        r := Some(BatchAt(listing, pageSize, start));
      } else {
        r := None;
      }
    }
  }

  lemma WithoutKeepsDistinct(cs: seq<Child>, b: BlockId)
    requires DistinctIds(cs)
    ensures DistinctIds(Without(cs, b))
  {
    var r := Without(cs, b);
    if cs != [] {
      assert DistinctIds(cs[1..]);
      WithoutKeepsDistinct(cs[1..], b);
      if cs[0].id != b {
        forall j | 1 <= j < |r| ensures r[0].id != r[j].id {
          assert r[j] in Without(cs[1..], b);
          var k :| 0 <= k < |cs[1..]| && cs[1..][k] == r[j];
          assert cs[k + 1] == r[j];
        }
      }
    }
  }
}
