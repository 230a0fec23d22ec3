/**
 * The sync itself, against the store: read all remote pages, plan, then run
 * the three phases in a fixed order (archive, create, update). Updating a
 * page sets its properties and, when that changed them, replaces its content
 * by listing every child block, deleting each, and appending the new blocks.
 */
module Sync {
  import opened Wrappers
  import opened Assoc
  import opened Js
  import opened Properties
  import opened Remote
  import opened Reconcile
  import opened Loader
  import opened NotionStore
  import opened Files

  /** The cursor a request at position `start` carries: none for the first. */
  function CursorOf(start: nat): Option<nat> {
    if start == 0 then None else Some(start)
  }

  /** The list requests of a pagination over `items` from `start`, each with the previous response's cursor. */
  function ListLog(id: string, items: seq<Child>, size: nat, start: nat): seq<Call>
    requires size > 0 && start <= |items|
    decreases |items| - start
  {
    var b := BatchAt(items, size, start);
    [ListChildren(id, CursorOf(start))] + if b.hasMore then ListLog(id, items, size, b.nextCursor) else []
  }

  /** The search requests of a pagination over `items` from `start`. */
  function SearchLog(items: seq<SearchResult>, size: nat, start: nat): seq<Call>
    requires size > 0 && start <= |items|
    decreases |items| - start
  {
    var b := BatchAt(items, size, start);
    [Search(CursorOf(start))] + if b.hasMore then SearchLog(items, size, b.nextCursor) else []
  }

  /** The `i`-th list request asks for the batch at `start + i * size`; the last one is the first batch without more. */
  lemma {:induction false} ListLogCursors(id: string, items: seq<Child>, size: nat, start: nat, i: nat)
    requires size > 0 && start <= |items| && i < |ListLog(id, items, size, start)|
    ensures start + i * size <= |items|
    ensures ListLog(id, items, size, start)[i] == ListChildren(id, CursorOf(start + i * size))
    ensures i == |ListLog(id, items, size, start)| - 1 <==> !BatchAt(items, size, start + i * size).hasMore
    decreases |items| - start
  {
    var b := BatchAt(items, size, start);
    if i > 0 {
      ListLogCursors(id, items, size, b.nextCursor, i - 1);
      assert b.nextCursor + (i - 1) * size == start + i * size by {
        assert (i - 1) * size + size == i * size;
      }
    }
  }

  /** The delete requests for a list of children, in order. */
  function DeleteLog(cs: seq<Child>): (r: seq<Call>)
    ensures |r| == |cs| && forall i :: 0 <= i < |cs| ==> r[i] == DeleteBlock(cs[i].id)
  {
    seq(|cs|, i requires 0 <= i < |cs| => DeleteBlock(cs[i].id))
  }

  /** The delete requests for one more child. */
  lemma DeleteLogStep(log0: seq<Call>, cs: seq<Child>, i: nat)
    requires i < |cs|
    ensures log0 + DeleteLog(cs[..i]) + [DeleteBlock(cs[i].id)] == log0 + DeleteLog(cs[..i + 1])
  {
    assert DeleteLog(cs[..i + 1]) == DeleteLog(cs[..i]) + [DeleteBlock(cs[i].id)];
  }

  /** One request of the pagination: what was collected so far, plus the batch, plus what the later requests collect. */
  lemma PaginateStep<T>(items: seq<T>, size: nat, start: nat, current: seq<T>)
    requires size > 0 && start <= |items|
    ensures var b := BatchAt(items, size, start);
      current + Paginate(items, size, start) == (current + b.results) + if b.hasMore then Paginate(items, size, b.nextCursor) else []
  {
  }

  /** `for (let i in results) current.push(results[i])`. */
  method PushAll<T>(current: seq<T>, results: seq<T>) returns (r: seq<T>)
    ensures r == current + results
  {
    r := current;
    for i := 0 to |results|
      invariant r == current + results[..i]
    {
      assert results[..i + 1] == results[..i] + [results[i]];
      r := r + [results[i]];
    }
    assert results[..|results|] == results;
  }

  /** The pagination loop of the update phase: collects every child of the page, following the cursors. */
  method CollectChildren(s: Store, id: string) returns (current: seq<Child>)
    requires s.Valid() && id in s.children
    modifies s`log
    ensures s.Valid()
    ensures current == s.children[id]
    ensures s.log == old(s.log) + ListLog(id, s.children[id], s.pageSize, 0)
  {
    var next: Option<nat> := None;
    current := [];
    ghost var start: nat := 0;
    ghost var items := s.children[id];
    PaginateAll(items, s.pageSize, 0);
    while true
      invariant s.Valid() && s.children == old(s.children)
      invariant start <= |items| && next == CursorOf(start)
      invariant current + Paginate(items, s.pageSize, start) == items
      invariant s.log + ListLog(id, items, s.pageSize, start) == old(s.log) + ListLog(id, items, s.pageSize, 0)
      decreases |items| - start
    {
      ghost var logBefore := s.log;
      var children := s.List(id, next);
      var batch := children.value;
      PaginateStep(items, s.pageSize, start, current);
      LogStep(id, items, s.pageSize, start, logBefore);
      current := PushAll(current, batch.results);
      if batch.hasMore {
        next := Some(batch.nextCursor);
        start := batch.nextCursor;
      } else {
        break;
      }
    }
  }

  lemma LogStep(id: string, items: seq<Child>, size: nat, start: nat, log: seq<Call>)
    requires size > 0 && start <= |items|
    ensures var b := BatchAt(items, size, start);
      log + ListLog(id, items, size, start) == (log + [ListChildren(id, CursorOf(start))]) + if b.hasMore then ListLog(id, items, size, b.nextCursor) else []
  {
  }

  /** The delete loop: deletes every listed child of the page, in order, leaving it without children. */
  method DeleteAll(s: Store, id: string, current: seq<Child>)
    requires s.Valid() && id in s.children && s.children[id] == current
    modifies s
    ensures s.Valid()
    ensures s.children == old(s.children)[id := []]
    ensures s.pages == old(s.pages) && s.order == old(s.order) && s.nextPage == old(s.nextPage)
    ensures s.log == old(s.log) + DeleteLog(current)
  {
    for i := 0 to |current|
      invariant s.Valid()
      invariant s.children == old(s.children)[id := current[i..]]
      invariant s.pages == old(s.pages) && s.order == old(s.order) && s.nextPage == old(s.nextPage)
      invariant s.log == old(s.log) + DeleteLog(current[..i])
    {
      var b := current[i].id;
      ghost var children := s.children;
      assert b.page == id;
      var ok := s.Delete(b);
      DeleteStep(old(s.children), id, current, i, children, s.children, ok);
      DeleteLogStep(old(s.log), current, i);
    }
    assert current[..|current|] == current && current[|current|..] == [];
  }

  /** Deleting the first remaining child of a page leaves the ones after it. */
  lemma DeleteStep(children0: map<string, seq<Child>>, id: string, current: seq<Child>, i: nat,
                   before: map<string, seq<Child>>, after: map<string, seq<Child>>, ok: bool)
    requires i < |current| && before == children0[id := current[i..]] && DistinctIds(current[i..])
    requires var b := current[i].id;
      && b.page == id
      && (ok <==> b.page in before && HasBlock(before[b.page], b))
      && after == if ok then before[b.page := Without(before[b.page], b)] else before
    ensures ok && after == children0[id := current[i + 1..]]
  {
    var rest := current[i..];
    assert rest[0] == current[i] && rest[1..] == current[i + 1..];
    WithoutFirst(rest);
  }

  /** Lists every child of a live page, deletes each, then appends `content`: the page then holds exactly `content`. */
  method ReplaceContent(s: Store, id: string, content: seq<Value>)
    requires s.Valid() && id in s.pages && !s.pages[id].archived
    modifies s
    ensures s.Valid()
    ensures s.children.Keys == old(s.children).Keys
    ensures Blocks(s.children[id]) == content
    ensures forall p :: p in old(s.children) && p != id ==> s.children[p] == old(s.children)[p]
    ensures s.pages == old(s.pages) && s.order == old(s.order) && s.nextPage == old(s.nextPage)
    ensures s.log == old(s.log) + ListLog(id, old(s.children)[id], s.pageSize, 0) + DeleteLog(old(s.children)[id]) + [AppendChildren(id, |content|)]
  {
    var current := CollectChildren(s, id);
    DeleteAll(s, id, current);
    var ok := s.Append(id, content);
    assert ok;
  }

  /**
   * The update of one page: set its properties, compare the page's
   * properties before (`before`, from the search) and after, and replace its
   * content only when they differ. Fails when the page is unknown or archived.
   */
  method UpdatePage(s: Store, before: Props, id: string, properties: Props, content: seq<Value>) returns (ok: bool)
    requires s.Valid()
    modifies s
    ensures s.Valid()
    ensures ok <==> id in old(s.pages) && !old(s.pages)[id].archived
    ensures ok ==> s.pages == old(s.pages)[id := old(s.pages)[id].(properties := Merge(old(s.pages)[id].properties, properties))]
    ensures !ok ==> s.pages == old(s.pages)
    ensures s.pages.Keys == old(s.pages).Keys
    ensures forall p :: p in old(s.pages) ==> s.pages[p].archived == old(s.pages)[p].archived && s.pages[p].parentDb == old(s.pages)[p].parentDb
    ensures !ok || before == s.pages[id].properties ==> s.children == old(s.children)
    ensures ok && before != s.pages[id].properties ==> Blocks(s.children[id]) == content
    ensures s.children.Keys == old(s.children).Keys
    ensures forall p :: p in old(s.children) && p != id ==> s.children[p] == old(s.children)[p]
    ensures s.order == old(s.order) && s.nextPage == old(s.nextPage)
    ensures s.log == old(s.log) + UpdateLog(id, ok && before != s.pages[id].properties, if id in old(s.children) then old(s.children)[id] else [], s.pageSize, |content|)
    ensures Extends(old(s.log), s.log, 3)
  {
    ghost var log := s.log;
    var resp := s.Update(id, properties);
    if resp.None? {
      UpdateLogExtension(log, id, false, if id in old(s.children) then old(s.children)[id] else [], s.pageSize, |content|);
      return false;
    }
    var needsUpdate := before != resp.value;
    if needsUpdate {
      ReplaceContent(s, id, content);
      UpdateLogReplaced(log, id, old(s.children)[id], s.pageSize, |content|);
    }
    ok := true;
    UpdateLogExtension(log, id, needsUpdate, if id in old(s.children) then old(s.children)[id] else [], s.pageSize, |content|);
  }

  /** The phase a request belongs to: the search, then archiving, creating and updating pages. */
  function Phase(c: Call): nat {
    match c
    case Search(_) => 0
    case ArchivePage(_) => 1
    case CreatePage(_) => 2
    case _ => 3
  }

  predicate InPhase(calls: seq<Call>, p: nat) {
    forall i :: 0 <= i < |calls| ==> Phase(calls[i]) == p
  }

  lemma InPhaseAppend(a: seq<Call>, b: seq<Call>, p: nat)
    requires InPhase(a, p) && InPhase(b, p)
    ensures InPhase(a + b, p)
  {
    forall i | 0 <= i < |a + b| ensures Phase((a + b)[i]) == p {
      if i >= |a| { assert (a + b)[i] == b[i - |a|]; }
    }
  }

  /** `log` is `log0` followed by requests of phase `p` only. */
  predicate Extends(log0: seq<Call>, log: seq<Call>, p: nat) {
    |log0| <= |log| && log[..|log0|] == log0 && InPhase(log[|log0|..], p)
  }

  lemma ExtendsTrans(a: seq<Call>, b: seq<Call>, c: seq<Call>, p: nat)
    requires Extends(a, b, p) && Extends(b, c, p)
    ensures Extends(a, c, p)
  {
    assert c[|a|..] == b[|a|..] + c[|b|..];
    InPhaseAppend(b[|a|..], c[|b|..], p);
  }

  lemma ExtendsOf(log0: seq<Call>, step: seq<Call>, p: nat)
    requires InPhase(step, p)
    ensures Extends(log0, log0 + step, p)
  {
    assert (log0 + step)[|log0|..] == step;
  }

  /** `log` is `log0` followed by requests in phase order, none past phase `p`. */
  predicate OrderedSince(log0: seq<Call>, log: seq<Call>, p: nat) {
    && |log0| <= |log| && log[..|log0|] == log0
    && (forall i, j :: |log0| <= i < j < |log| ==> Phase(log[i]) <= Phase(log[j]))
    && (forall i :: |log0| <= i < |log| ==> Phase(log[i]) <= p)
  }

  /** Requests of a later phase keep the log in phase order. */
  lemma OrderedThen(log0: seq<Call>, log: seq<Call>, log': seq<Call>, p: nat, q: nat)
    requires OrderedSince(log0, log, p) && Extends(log, log', q) && p <= q
    ensures OrderedSince(log0, log', q)
  {
    assert log'[..|log0|] == log[..|log0|];
    forall i | |log| <= i < |log'| ensures Phase(log'[i]) == q {
      assert log'[|log|..][i - |log|] == log'[i];
    }
    forall i | |log0| <= i < |log| ensures log'[i] == log[i] {
      assert log'[..|log|][i] == log'[i];
    }
  }

  lemma UpdateLogExtension(log0: seq<Call>, id: string, replaced: bool, cs: seq<Child>, size: nat, count: nat)
    requires size > 0
    ensures Extends(log0, log0 + UpdateLog(id, replaced, cs, size, count), 3)
  {
    UpdateLogPhase(id, replaced, cs, size, count);
    ExtendsOf(log0, UpdateLog(id, replaced, cs, size, count), 3);
  }

  lemma {:induction false} ListLogPhase(id: string, items: seq<Child>, size: nat, start: nat)
    requires size > 0 && start <= |items|
    ensures InPhase(ListLog(id, items, size, start), 3)
    decreases |items| - start
  {
    var b := BatchAt(items, size, start);
    if b.hasMore {
      ListLogPhase(id, items, size, b.nextCursor);
      InPhaseAppend([ListChildren(id, CursorOf(start))], ListLog(id, items, size, b.nextCursor), 3);
    }
  }

  lemma {:induction false} SearchLogPhase(items: seq<SearchResult>, size: nat, start: nat)
    requires size > 0 && start <= |items|
    ensures InPhase(SearchLog(items, size, start), 0)
    decreases |items| - start
  {
    var b := BatchAt(items, size, start);
    if b.hasMore {
      SearchLogPhase(items, size, b.nextCursor);
      InPhaseAppend([Search(CursorOf(start))], SearchLog(items, size, b.nextCursor), 0);
    }
  }

  /** The archive requests for a list of page ids, in order. */
  function ArchiveLog(ids: seq<string>): (r: seq<Call>)
    ensures |r| == |ids| && forall i :: 0 <= i < |ids| ==> r[i] == ArchivePage(ids[i])
  {
    seq(|ids|, i requires 0 <= i < |ids| => ArchivePage(ids[i]))
  }

  /** The create requests that returned the ids `ids`, in order. */
  function CreateLog(ids: seq<string>): (r: seq<Call>)
    ensures |r| == |ids| && forall i :: 0 <= i < |ids| ==> r[i] == CreatePage(ids[i])
  {
    seq(|ids|, i requires 0 <= i < |ids| => CreatePage(ids[i]))
  }

  /** The pages after archiving `ids` one by one; unknown ids change nothing. */
  function Archived(pages: map<string, Page>, ids: seq<string>): map<string, Page> {
    if ids == [] then pages
    else
      var n := |ids| - 1;
      var m := Archived(pages, ids[..n]);
      if ids[n] in m then m[ids[n] := m[ids[n]].(archived := true)] else m
  }

  /** Archiving keeps every page, marks exactly the named ones archived, and changes nothing else about any page. */
  lemma {:induction false} ArchivedPages(pages: map<string, Page>, ids: seq<string>)
    ensures Archived(pages, ids).Keys == pages.Keys
    ensures forall id :: id in pages ==> Archived(pages, ids)[id] == pages[id].(archived := pages[id].archived || id in ids)
  {
    if ids != [] {
      var n := |ids| - 1;
      ArchivedPages(pages, ids[..n]);
      assert ids == ids[..n] + [ids[n]];
      assert forall id :: id in ids <==> id in ids[..n] || id == ids[n];
    }
  }

  /** The requests of one page's update: set its properties, then, when they changed, list, delete and append its content. */
  function UpdateLog(id: string, replaced: bool, cs: seq<Child>, size: nat, count: nat): seq<Call>
    requires size > 0
  {
    [UpdateProperties(id)] + if replaced then ListLog(id, cs, size, 0) + DeleteLog(cs) + [AppendChildren(id, count)] else []
  }

  lemma UpdateLogReplaced(log0: seq<Call>, id: string, cs: seq<Child>, size: nat, count: nat)
    requires size > 0
    ensures log0 + [UpdateProperties(id)] + ListLog(id, cs, size, 0) + DeleteLog(cs) + [AppendChildren(id, count)]
         == log0 + UpdateLog(id, true, cs, size, count)
  {
  }

  /** The requests of one page's update all belong to the update phase. */
  lemma UpdateLogPhase(id: string, replaced: bool, cs: seq<Child>, size: nat, count: nat)
    requires size > 0
    ensures InPhase(UpdateLog(id, replaced, cs, size, count), 3)
  {
    if replaced {
      ListLogPhase(id, cs, size, 0);
      InPhaseAppend(ListLog(id, cs, size, 0), DeleteLog(cs), 3);
      InPhaseAppend(ListLog(id, cs, size, 0) + DeleteLog(cs), [AppendChildren(id, count)], 3);
      InPhaseAppend([UpdateProperties(id)], ListLog(id, cs, size, 0) + DeleteLog(cs) + [AppendChildren(id, count)], 3);
    }
  }

  /** The archive phase: archives the page of every planned deletion, in order; fails at the first unknown page. */
  method ArchiveAll(s: Store, deletes: seq<Entry<string>>) returns (ok: bool)
    requires s.Valid()
    modifies s
    ensures s.Valid()
    ensures ok <==> forall i :: 0 <= i < |deletes| ==> deletes[i].key in old(s.pages)
    ensures ok ==> s.pages == Archived(old(s.pages), KeysOf(deletes))
    ensures ArchiveFrame(old(s.pages), s.pages, KeysOf(deletes))
    ensures s.children == old(s.children) && s.order == old(s.order) && s.nextPage == old(s.nextPage)
    ensures ok ==> s.log == old(s.log) + ArchiveLog(KeysOf(deletes))
    ensures Extends(old(s.log), s.log, 1)
  {
    var keys := KeysOf(deletes);
    ghost var pages0, log0 := s.pages, s.log;
    for i := 0 to |deletes|
      invariant s.Valid()
      invariant ArchivedSoFar(pages0, log0, s.pages, s.log, keys, i)
      invariant s.children == old(s.children) && s.order == old(s.order) && s.nextPage == old(s.nextPage)
    {
      var id := keys[i];
      ghost var pages := s.pages;
      ghost var log := s.log;
      ok := s.Archive(id);
      if !ok {
        ArchiveStopped(pages0, log0, pages, log, keys, i, s.log);
        assert deletes[i].key !in pages0;
        return false;
      }
      ArchiveStep(pages0, log0, pages, log, keys, i);
    }
    ArchivedAll(pages0, log0, s.pages, s.log, keys);
    ok := true;
  }

  /** The pages and requests after archiving the first `i` of `ids`, each of which named a page. */
  ghost predicate ArchivedSoFar(pages0: map<string, Page>, log0: seq<Call>, pages: map<string, Page>, log: seq<Call>, ids: seq<string>, i: nat) {
    && i <= |ids|
    && pages.Keys == pages0.Keys
    && (forall j :: 0 <= j < i ==> ids[j] in pages0)
    && pages == Archived(pages0, ids[..i])
    && log == log0 + ArchiveLog(ids[..i])
  }

  /** Archiving one more page keeps `ArchivedSoFar`, one id further. */
  lemma ArchiveStep(pages0: map<string, Page>, log0: seq<Call>, pages: map<string, Page>, log: seq<Call>, ids: seq<string>, i: nat)
    requires i < |ids| && ArchivedSoFar(pages0, log0, pages, log, ids, i) && ids[i] in pages
    ensures ArchivedSoFar(pages0, log0, pages[ids[i] := pages[ids[i]].(archived := true)], log + [ArchivePage(ids[i])], ids, i + 1)
  {
    assert ids[..i + 1][..i] == ids[..i];
    assert ArchiveLog(ids[..i + 1]) == ArchiveLog(ids[..i]) + [ArchivePage(ids[i])];
  }

  /** The same pages, differing at most in the archived flag, which is newly set only on pages named in `deleted` and never cleared. */
  ghost predicate ArchiveFrame(pages0: map<string, Page>, pages: map<string, Page>, deleted: seq<string>) {
    && pages.Keys == pages0.Keys
    && (forall p :: p in pages0 ==> pages[p] == pages0[p].(archived := pages[p].archived))
    && (forall p :: p in pages0 && pages[p].archived ==> pages0[p].archived || p in deleted)
    && (forall p :: p in pages0 && pages0[p].archived ==> pages[p].archived)
  }

  /** Once every page named in `ids` is archived, the phase has archived exactly those. */
  lemma ArchivedAll(pages0: map<string, Page>, log0: seq<Call>, pages: map<string, Page>, log: seq<Call>, ids: seq<string>)
    requires ArchivedSoFar(pages0, log0, pages, log, ids, |ids|)
    ensures forall j :: 0 <= j < |ids| ==> ids[j] in pages0
    ensures pages == Archived(pages0, ids) && log == log0 + ArchiveLog(ids)
    ensures ArchiveFrame(pages0, pages, ids) && Extends(log0, log, 1)
  {
    ArchivedOnly(pages0, log0, pages, log, ids, |ids|);
    assert ids[..|ids|] == ids;
  }

  /** An archive request for an unknown page ends the phase: no page was archived that is not named in `ids`. */
  lemma ArchiveStopped(pages0: map<string, Page>, log0: seq<Call>, pages: map<string, Page>, log: seq<Call>, ids: seq<string>, i: nat, log': seq<Call>)
    requires ArchivedSoFar(pages0, log0, pages, log, ids, i) && i < |ids| && ids[i] !in pages
    requires log' == log + [ArchivePage(ids[i])]
    ensures ids[i] !in pages0
    ensures ArchiveFrame(pages0, pages, ids) && Extends(log0, log', 1)
  {
    ArchivedOnly(pages0, log0, pages, log, ids, i);
    assert Extends(log, log', 1) by { assert log'[|log|..] == [ArchivePage(ids[i])]; }
    ExtendsTrans(log0, log, log', 1);
  }

  /** Archiving part of `ids` changes only the archived flag, sets it only on pages named in `ids`, and sends only archive requests. */
  lemma ArchivedOnly(pages0: map<string, Page>, log0: seq<Call>, pages: map<string, Page>, log: seq<Call>, ids: seq<string>, i: nat)
    requires ArchivedSoFar(pages0, log0, pages, log, ids, i)
    ensures ArchiveFrame(pages0, pages, ids)
    ensures Extends(log0, log, 1)
  {
    ArchivedPages(pages0, ids[..i]);
    assert forall p :: p in ids[..i] ==> p in ids;
    ExtendsOf(log0, ArchiveLog(ids[..i]), 1);
  }

  /** Every earlier page, and its content, is left as it was. */
  ghost predicate PagesKept(pages0: map<string, Page>, children0: map<string, seq<Child>>,
                            pages: map<string, Page>, children: map<string, seq<Child>>)
  {
    && (forall id :: id in pages0 ==> id in pages && pages[id] == pages0[id])
    && (forall id :: id in children0 ==> id in children && children[id] == children0[id])
  }

  /** The pages and children after the first `|ids|` creations, which returned `ids`, on top of the earlier pages. */
  ghost predicate CreatedSoFar(pages0: map<string, Page>, children0: map<string, seq<Child>>,
                               pages: map<string, Page>, children: map<string, seq<Child>>,
                               ids: seq<string>, wanted: seq<Page>, contents: seq<seq<Value>>)
  {
    && |ids| <= |wanted| && |ids| <= |contents|
    && (forall j :: 0 <= j < |ids| ==>
         && ids[j] !in pages0 && ids[j] in pages && ids[j] in children
         && pages[ids[j]] == wanted[j] && Blocks(children[ids[j]]) == contents[j])
    && PagesKept(pages0, children0, pages, children)
  }

  lemma CreatedStep(pages0: map<string, Page>, children0: map<string, seq<Child>>,
                    pages: map<string, Page>, children: map<string, seq<Child>>,
                    ids: seq<string>, wanted: seq<Page>, contents: seq<seq<Value>>, id: string, blocks: seq<Child>)
    requires CreatedSoFar(pages0, children0, pages, children, ids, wanted, contents)
    requires |ids| < |wanted| && |ids| < |contents| && id !in pages && id !in children
    requires Blocks(blocks) == contents[|ids|]
    ensures CreatedSoFar(pages0, children0, pages[id := wanted[|ids|]], children[id := blocks], ids + [id], wanted, contents)
  {
    var ids' := ids + [id];
    var pages' := pages[id := wanted[|ids|]];
    var children' := children[id := blocks];
    forall j | 0 <= j < |ids'|
      ensures && ids'[j] !in pages0 && ids'[j] in pages' && ids'[j] in children'
              && pages'[ids'[j]] == wanted[j] && Blocks(children'[ids'[j]]) == contents[j]
    {
      if j < |ids| {
        assert ids'[j] == ids[j] && ids[j] in pages;
      } else {
        assert ids'[j] == id;
      }
    }
    forall x | x in pages0 ensures x in pages' && pages'[x] == pages0[x] {
      assert x in pages;
    }
    forall x | x in children0 ensures x in children' && children'[x] == children0[x] {
      assert x in children;
    }
  }

  lemma CreateLogStep(log0: seq<Call>, ids: seq<string>, id: string)
    ensures log0 + CreateLog(ids + [id]) == log0 + CreateLog(ids) + [CreatePage(id)]
  {
    assert CreateLog(ids + [id]) == CreateLog(ids) + [CreatePage(id)];
  }

  /** The page each planned create should produce. */
  ghost function CreatePages(creates: seq<Entry<Doc>>, githubURL: string, root: string, titleize: string -> string): seq<Page> {
    seq(|creates|, i requires 0 <= i < |creates| => Page(PropertiesOf(githubURL, titleize, creates[i].val.frontMatter), Some(root), false))
  }

  /** The local content of each planned create. */
  ghost function CreateContents(creates: seq<Entry<Doc>>): seq<seq<Value>> {
    seq(|creates|, i requires 0 <= i < |creates| => creates[i].val.content)
  }

  /** Once every create is done, the pages made are those planned. */
  lemma CreatedAll(pages0: map<string, Page>, children0: map<string, seq<Child>>,
                   pages: map<string, Page>, children: map<string, seq<Child>>,
                   ids: seq<string>, creates: seq<Entry<Doc>>, githubURL: string, root: string, titleize: string -> string)
    requires |ids| == |creates|
    requires CreatedSoFar(pages0, children0, pages, children, ids, CreatePages(creates, githubURL, root, titleize), CreateContents(creates))
    ensures CreatesApplied(pages0, pages, children, ids, creates, githubURL, root, titleize)
  {
  }

  /**
   * One new page per planned create, in order: absent before, now live under
   * the root with the properties `mkProps` builds from its front matter and
   * the local content.
   */
  ghost predicate CreatesApplied(pages0: map<string, Page>, pages: map<string, Page>, children: map<string, seq<Child>>,
                                 ids: seq<string>, creates: seq<Entry<Doc>>, githubURL: string, root: string, titleize: string -> string)
  {
    && |ids| == |creates|
    && forall i :: 0 <= i < |creates| ==>
      && ids[i] !in pages0 && ids[i] in pages && ids[i] in children
      && pages[ids[i]] == Page(PropertiesOf(githubURL, titleize, creates[i].val.frontMatter), Some(root), false)
      && Blocks(children[ids[i]]) == creates[i].val.content
  }

  /** The create phase: one new live page under the root per planned creation, with its properties and content. */
  method CreateAll(s: Store, creates: seq<Entry<Doc>>, githubURL: string, root: string, titleize: string -> string) returns (ids: seq<string>)
    requires s.Valid()
    modifies s
    ensures s.Valid()
    ensures CreatesApplied(old(s.pages), s.pages, s.children, ids, creates, githubURL, root, titleize)
    ensures PagesKept(old(s.pages), old(s.children), s.pages, s.children)
    ensures s.order == old(s.order) + ids
    ensures s.log == old(s.log) + CreateLog(ids)
    ensures Extends(old(s.log), s.log, 2)
  {
    ghost var wanted := CreatePages(creates, githubURL, root, titleize);
    ghost var contents := CreateContents(creates);
    ghost var pages0, children0, order0, log0 := s.pages, s.children, s.order, s.log;
    ids := [];
    assert order0 + [] == order0 && log0 + CreateLog([]) == log0;
    for i := 0 to |creates|
      invariant s.Valid() && |ids| == i
      invariant CreateLoop(pages0, children0, order0, log0, s.pages, s.children, s.order, s.log, ids, wanted, contents)
    {
      var id := CreateOne(s, root, creates[i].val, githubURL, titleize, pages0, children0, order0, log0, ids, wanted, contents);
      ids := ids + [id];
    }
    CreatedAll(pages0, children0, s.pages, s.children, ids, creates, githubURL, root, titleize);
    ExtendsOf(log0, CreateLog(ids), 2);
  }

  /** The state after the creates that returned `ids`: those pages made, appended to the order, and their requests logged. */
  ghost predicate CreateLoop(pages0: map<string, Page>, children0: map<string, seq<Child>>, order0: seq<string>, log0: seq<Call>,
                             pages: map<string, Page>, children: map<string, seq<Child>>, order: seq<string>, log: seq<Call>,
                             ids: seq<string>, wanted: seq<Page>, contents: seq<seq<Value>>)
  {
    && CreatedSoFar(pages0, children0, pages, children, ids, wanted, contents)
    && order == order0 + ids
    && log == log0 + CreateLog(ids)
  }

  /** One create request of the phase: the next planned page, with `mkProps` properties and the local content. */
  method CreateOne(s: Store, root: string, doc: Doc, githubURL: string, titleize: string -> string,
                   ghost pages0: map<string, Page>, ghost children0: map<string, seq<Child>>,
                   ghost order0: seq<string>, ghost log0: seq<Call>,
                   ghost ids: seq<string>, ghost wanted: seq<Page>, ghost contents: seq<seq<Value>>)
    returns (id: string)
    requires s.Valid()
    requires CreateLoop(pages0, children0, order0, log0, s.pages, s.children, s.order, s.log, ids, wanted, contents)
    requires |ids| < |wanted| && |ids| < |contents|
    requires wanted[|ids|] == Page(PropertiesOf(githubURL, titleize, doc.frontMatter), Some(root), false)
    requires contents[|ids|] == doc.content
    modifies s
    ensures s.Valid()
    ensures CreateLoop(pages0, children0, order0, log0, s.pages, s.children, s.order, s.log, ids + [id], wanted, contents)
  {
    var properties := MkProps(githubURL, titleize, doc.frontMatter);
    id := s.Create(root, properties, doc.content);
    CreatedStep(pages0, children0, old(s.pages), old(s.children), ids, wanted, contents, id, s.children[id]);
    CreateLogStep(log0, ids, id);
    assert s.order == order0 + (ids + [id]);
  }

  /** The pages the planned updates name. */
  function PageIds(updates: seq<Entry<SearchResult>>): set<string> {
    set i | 0 <= i < |updates| :: updates[i].val.id
  }

  /** No two planned updates name the same page. */
  predicate DistinctPages(updates: seq<Entry<SearchResult>>) {
    forall i, j :: 0 <= i < j < |updates| ==> updates[i].val.id != updates[j].val.id
  }

  /**
   * What the update phase may change: no page appears, disappears, is
   * archived, restored or moved, and only the pages in `updated` may have
   * new properties or content.
   */
  ghost predicate UpdateFrame(pages0: map<string, Page>, children0: map<string, seq<Child>>,
                              pages: map<string, Page>, children: map<string, seq<Child>>, updated: set<string>)
  {
    && pages.Keys == pages0.Keys && children.Keys == children0.Keys
    && (forall p :: p in pages0 ==> pages[p].archived == pages0[p].archived && pages[p].parentDb == pages0[p].parentDb)
    && (forall p :: p in pages0 && p !in updated ==> pages[p] == pages0[p])
    && (forall p :: p in children0 && p !in updated ==> children[p] == children0[p])
  }

  /**
   * The state after the first `i` planned updates, against the state before
   * the phase: same pages and pages with children, no page archived or moved,
   * each of the first `i` pages live, only update requests sent, and (when no
   * two updates name the same page) page `j < i` holds properties `after[j]`
   * and, when those differ from the snapshot, content `contents[j]`, while
   * the pages of later updates are untouched.
   */
  ghost predicate UpdatedSoFar(pages0: map<string, Page>, children0: map<string, seq<Child>>, log0: seq<Call>,
                               pages: map<string, Page>, children: map<string, seq<Child>>, log: seq<Call>,
                               updates: seq<Entry<SearchResult>>, i: nat, after: seq<Props>, contents: seq<seq<Value>>)
  {
    && UpdateFrame(pages0, children0, pages, children, PageIds(updates))
    && (forall j :: 0 <= j < i && j < |updates| ==> updates[j].val.id in pages0 && !pages0[updates[j].val.id].archived)
    && Extends(log0, log, 3)
    && (DistinctPages(updates) ==>
      && (forall j :: 0 <= j < i && j < |updates| && j < |after| && j < |contents| ==>
           var id := updates[j].val.id;
           && id in pages && id in children
           && pages[id].properties == after[j]
           && (updates[j].val.properties != after[j] ==> Blocks(children[id]) == contents[j])
           && (updates[j].val.properties == after[j] ==> children[id] == children0[id]))
      && (forall j :: i <= j < |updates| && updates[j].val.id in pages0 ==>
           var id := updates[j].val.id;
           pages[id] == pages0[id] && (id in children0 ==> children[id] == children0[id])))
  }

  /** One successful `updatePage` keeps `UpdatedSoFar`, one update further. */
  lemma UpdatedStep(pages0: map<string, Page>, children0: map<string, seq<Child>>, log0: seq<Call>,
                    pages: map<string, Page>, children: map<string, seq<Child>>, log: seq<Call>,
                    pages': map<string, Page>, children': map<string, seq<Child>>, log': seq<Call>,
                    updates: seq<Entry<SearchResult>>, i: nat, after: seq<Props>, contents: seq<seq<Value>>)
    requires i < |updates| && i < |after| && i < |contents|
    requires UpdatedSoFar(pages0, children0, log0, pages, children, log, updates, i, after, contents)
    requires var id := updates[i].val.id;
      && id in pages && !pages[id].archived && id in children
      && id in pages' && pages' == pages[id := pages'[id]]
      && pages'[id].archived == pages[id].archived && pages'[id].parentDb == pages[id].parentDb
      && children'.Keys == children.Keys
      && (forall p :: p in children && p != id ==> children'[p] == children[p])
      && (pages'[id].properties == updates[i].val.properties ==> children' == children)
      && (pages'[id].properties != updates[i].val.properties ==> Blocks(children'[id]) == contents[i])
      && (DistinctPages(updates) ==> pages'[id].properties == after[i])
    requires Extends(log, log', 3)
    ensures UpdatedSoFar(pages0, children0, log0, pages', children', log', updates, i + 1, after, contents)
  {
    var id := updates[i].val.id;
    ExtendsTrans(log0, log, log', 3);
    assert id in PageIds(updates);
    forall p | p in pages0
      ensures pages'[p].archived == pages0[p].archived && pages'[p].parentDb == pages0[p].parentDb
    {
      if p == id {
      }
    }
    if DistinctPages(updates) {
      forall j | 0 <= j < i + 1 && j < |updates| && j < |after| && j < |contents|
        ensures var id' := updates[j].val.id;
          && id' in pages' && id' in children'
          && pages'[id'].properties == after[j]
          && (updates[j].val.properties != after[j] ==> Blocks(children'[id']) == contents[j])
          && (updates[j].val.properties == after[j] ==> children'[id'] == children0[id'])
      {
        if j < i {
          assert updates[j].val.id != id;
        }
      }
      forall j | i + 1 <= j < |updates| && updates[j].val.id in pages0
        ensures var id' := updates[j].val.id;
          pages'[id'] == pages0[id'] && (id' in children0 ==> children'[id'] == children0[id'])
      {
        assert updates[j].val.id != id;
      }
    }
  }

  /** The properties each planned update should leave on its page. */
  ghost function AfterProps(pages0: map<string, Page>, updates: seq<Entry<SearchResult>>, wiki: seq<Entry<Doc>>,
                            githubURL: string, titleize: string -> string): seq<Props>
    requires forall i :: 0 <= i < |updates| ==> HasKey(wiki, updates[i].key)
  {
    seq(|updates|, i requires 0 <= i < |updates| =>
      var id := updates[i].val.id;
      if id in pages0 then Merge(pages0[id].properties, PropertiesOf(githubURL, titleize, Find(wiki, updates[i].key).value.frontMatter)) else [])
  }

  /** The local content of each planned update. */
  ghost function UpdateContents(updates: seq<Entry<SearchResult>>, wiki: seq<Entry<Doc>>): seq<seq<Value>>
    requires forall i :: 0 <= i < |updates| ==> HasKey(wiki, updates[i].key)
  {
    seq(|updates|, i requires 0 <= i < |updates| => Find(wiki, updates[i].key).value.content)
  }

  /**
   * When no two planned updates name the same page, each updated page holds
   * its snapshot-time properties merged with those built from the local
   * front matter, and the local content exactly when the merge changed the
   * properties the search returned.
   */
  ghost predicate UpdatesApplied(pages0: map<string, Page>, children0: map<string, seq<Child>>,
                                 pages: map<string, Page>, children: map<string, seq<Child>>,
                                 updates: seq<Entry<SearchResult>>, wiki: seq<Entry<Doc>>, githubURL: string, titleize: string -> string)
    requires forall i :: 0 <= i < |updates| ==> HasKey(wiki, updates[i].key)
  {
    DistinctPages(updates) ==> forall i :: 0 <= i < |updates| ==>
      var id := updates[i].val.id;
      var doc := Find(wiki, updates[i].key).value;
      && id in pages0 && id in pages && id in children && id in children0
      && pages[id].properties == Merge(pages0[id].properties, PropertiesOf(githubURL, titleize, doc.frontMatter))
      && (updates[i].val.properties != pages[id].properties ==> Blocks(children[id]) == doc.content)
      && (updates[i].val.properties == pages[id].properties ==> children[id] == children0[id])
  }

  /** Once every update is done, each page holds its merged properties, and its local content when those changed. */
  lemma UpdatedAll(pages0: map<string, Page>, children0: map<string, seq<Child>>, log0: seq<Call>,
                   pages: map<string, Page>, children: map<string, seq<Child>>, log: seq<Call>,
                   updates: seq<Entry<SearchResult>>, wiki: seq<Entry<Doc>>, githubURL: string, titleize: string -> string)
    requires forall i :: 0 <= i < |updates| ==> HasKey(wiki, updates[i].key)
    requires UpdatedSoFar(pages0, children0, log0, pages, children, log, updates, |updates|,
                          AfterProps(pages0, updates, wiki, githubURL, titleize), UpdateContents(updates, wiki))
    ensures UpdatesApplied(pages0, children0, pages, children, updates, wiki, githubURL, titleize)
  {
    if !DistinctPages(updates) {
      return;
    }
    var after := AfterProps(pages0, updates, wiki, githubURL, titleize);
    var contents := UpdateContents(updates, wiki);
    forall i | 0 <= i < |updates|
      ensures var id := updates[i].val.id;
        var doc := Find(wiki, updates[i].key).value;
        && id in pages0 && id in pages && id in children && id in children0
        && pages[id].properties == Merge(pages0[id].properties, PropertiesOf(githubURL, titleize, doc.frontMatter))
        && (updates[i].val.properties != pages[id].properties ==> Blocks(children[id]) == doc.content)
        && (updates[i].val.properties == pages[id].properties ==> children[id] == children0[id])
    {
      assert after[i] == Merge(pages0[updates[i].val.id].properties, PropertiesOf(githubURL, titleize, Find(wiki, updates[i].key).value.frontMatter));
      assert contents[i] == Find(wiki, updates[i].key).value.content;
    }
  }

  /**
   * The update phase: for every planned update, the page's properties are
   * merged with those built from its local front matter (by `mkProps`); when
   * the result differs from the snapshot, its content is replaced by the
   * local blocks. Stops at the first unknown or archived page.
   */
  method UpdateAll(s: Store, updates: seq<Entry<SearchResult>>, wiki: seq<Entry<Doc>>, githubURL: string, titleize: string -> string) returns (ok: bool)
    requires s.Valid()
    requires forall i :: 0 <= i < |updates| ==> HasKey(wiki, updates[i].key)
    modifies s
    ensures s.Valid()
    ensures ok <==> forall i :: 0 <= i < |updates| ==> updates[i].val.id in old(s.pages) && !old(s.pages)[updates[i].val.id].archived
    ensures UpdateFrame(old(s.pages), old(s.children), s.pages, s.children, PageIds(updates))
    ensures s.order == old(s.order)
    ensures Extends(old(s.log), s.log, 3)
    ensures ok ==> UpdatesApplied(old(s.pages), old(s.children), s.pages, s.children, updates, wiki, githubURL, titleize)
  {
    ghost var after := AfterProps(s.pages, updates, wiki, githubURL, titleize);
    ghost var contents := UpdateContents(updates, wiki);
    ExtendsOf(s.log, [], 3);
    assert s.log + [] == s.log;
    for i := 0 to |updates|
      invariant s.Valid()
      invariant UpdatedSoFar(old(s.pages), old(s.children), old(s.log), s.pages, s.children, s.log, updates, i, after, contents)
      invariant s.order == old(s.order)
    {
      var r := updates[i].val;
      var doc := Find(wiki, updates[i].key).value;
      var properties := MkProps(githubURL, titleize, doc.frontMatter);
      ghost var pages := s.pages;
      ghost var children := s.children;
      ghost var log := s.log;
      ok := UpdatePage(s, r.properties, r.id, properties, doc.content);
      if !ok {
        assert !(r.id in old(s.pages) && !old(s.pages)[r.id].archived);
        ExtendsTrans(old(s.log), log, s.log, 3);
        return false;
      }
      if DistinctPages(updates) {
        assert pages[r.id] == old(s.pages)[r.id];
        assert s.pages[r.id].properties == after[i];
      }
      UpdatedStep(old(s.pages), old(s.children), old(s.log), pages, children, log, s.pages, s.children, s.log, updates, i, after, contents);
    }
    ok := true;
    UpdatedAll(old(s.pages), old(s.children), old(s.log), s.pages, s.children, s.log, updates, wiki, githubURL, titleize);
  }

  lemma SearchLogStep(items: seq<SearchResult>, size: nat, start: nat, log: seq<Call>)
    requires size > 0 && start <= |items|
    ensures var b := BatchAt(items, size, start);
      log + SearchLog(items, size, start) == (log + [Search(CursorOf(start))]) + if b.hasMore then SearchLog(items, size, b.nextCursor) else []
  {
  }

  /** The search as the indexing needs it: follows the cursors and collects every live page, in order. */
  method SearchAll(s: Store) returns (results: seq<SearchResult>)
    requires s.Valid()
    modifies s`log
    ensures results == Listing(s.pages, s.order)
    ensures s.log == old(s.log) + SearchLog(Listing(s.pages, s.order), s.pageSize, 0)
  {
    var next: Option<nat> := None;
    results := [];
    ghost var start: nat := 0;
    ghost var items := Listing(s.pages, s.order);
    PaginateAll(items, s.pageSize, 0);
    while true
      invariant start <= |items| && next == CursorOf(start)
      invariant results + Paginate(items, s.pageSize, start) == items
      invariant s.log + SearchLog(items, s.pageSize, start) == old(s.log) + SearchLog(items, s.pageSize, 0)
      decreases |items| - start
    {
      ghost var logBefore := s.log;
      var r := s.SearchPages(next);
      var batch := r.value;
      PaginateStep(items, s.pageSize, start, results);
      SearchLogStep(items, s.pageSize, start, logBefore);
      results := PushAll(results, batch.results);
      if batch.hasMore {
        next := Some(batch.nextCursor);
        start := batch.nextCursor;
      } else {
        break;
      }
    }
  }

  /** The search as written: one request, without a cursor, and only its first batch is read. */
  method SearchFirstBatch(s: Store) returns (results: seq<SearchResult>)
    requires s.Valid()
    modifies s`log
    ensures results == BatchAt(Listing(s.pages, s.order), s.pageSize, 0).results
    ensures s.log == old(s.log) + [Search(None)]
  {
    var r := s.SearchPages(None);
    results := r.value.results;
  }

  /**
   * With only the first search batch read, a local file whose page exists
   * but is listed after that batch is planned as a creation (so a duplicate
   * page is made), where the full listing plans it as an update of its page.
   */
  lemma FirstBatchRecreates<D>(wiki: seq<Entry<D>>, listing: seq<SearchResult>, size: nat, githubURL: string, root: string, k: string, j: nat)
    requires 0 < size <= j < |listing|
    requires HasKey(wiki, k)
    requires PageFor(listing[j], githubURL, k)
    requires forall i :: 0 <= i < size ==> !PageFor(listing[i], githubURL, k)
    ensures Find(PlanOf(wiki, Index(BatchAt(listing, size, 0).results, githubURL), root).creates, k) == Find(wiki, k)
    ensures Find(PlanOf(wiki, Index(listing, githubURL), root).creates, k) == None
    ensures Find(PlanOf(wiki, Index(listing, githubURL), root).updates, k).Some?
  {
    var first := BatchAt(listing, size, 0).results;
    NotIndexed(first, listing, size, githubURL, k);
    Indexed(listing, githubURL, k, j);
    PlanPartition(wiki, Index(first, githubURL), root, k);
    PlanPartition(wiki, Index(listing, githubURL), root, k);
  }

  /** A key no page of the first batch carries is not in the index built from that batch. */
  lemma NotIndexed(first: seq<SearchResult>, listing: seq<SearchResult>, size: nat, githubURL: string, k: string)
    requires 0 < size <= |listing| && first == listing[..size]
    requires forall i :: 0 <= i < size ==> !PageFor(listing[i], githubURL, k)
    ensures !HasKey(Index(first, githubURL), k)
  {
    assert forall j :: 0 <= j < |first| ==> !PageFor(first[j], githubURL, k);
    IndexLookup(first, githubURL, k);
  }

  /** A key some listed page carries is in the index. */
  lemma Indexed(listing: seq<SearchResult>, githubURL: string, k: string, j: nat)
    requires j < |listing| && PageFor(listing[j], githubURL, k)
    ensures HasKey(Index(listing, githubURL), k)
  {
    IndexLookup(listing, githubURL, k);
  }

  /** A log that only had searches, followed by requests in phase order, is in phase order. */
  lemma OrderedJoin(log0: seq<Call>, log1: seq<Call>, log2: seq<Call>, p: nat)
    requires OrderedSince(log0, log1, 0) && OrderedSince(log1, log2, p)
    ensures OrderedSince(log0, log2, p)
  {
    forall i | |log0| <= i < |log1| ensures log2[i] == log1[i] && log2[..|log0|] == log0 {
      assert log2[..|log1|][i] == log2[i];
      assert log2[..|log1|][..|log0|] == log2[..|log0|];
    }
    if |log0| == |log1| {
      assert log2[..|log0|] == log2[..|log1|];
    }
  }

  /**
   * The three phases of the sync, in their fixed order: archive the planned
   * deletions, create the planned pages, then update the planned pages. The
   * first request the workspace rejects ends the run with an API error.
   */
  method Execute(s: Store, plan: Plan<Doc>, wiki: seq<Entry<Doc>>, githubURL: string, root: string, titleize: string -> string)
    returns (r: Result<(), Exception>, created: seq<string>)
    requires s.Valid()
    requires forall i :: 0 <= i < |plan.updates| ==> HasKey(wiki, plan.updates[i].key) && plan.updates[i].val.id in s.pages
    modifies s
    ensures s.Valid()
    ensures r.Err? ==> r.error == ApiError
    ensures (forall i :: 0 <= i < |plan.deletes| ==> plan.deletes[i].key in old(s.pages))
         && (forall i :: 0 <= i < |plan.updates| ==>
               !old(s.pages)[plan.updates[i].val.id].archived && plan.updates[i].val.id !in KeysOf(plan.deletes))
         ==> r.Ok?
    ensures OrderedSince(old(s.log), s.log, 3)
    ensures s.order == old(s.order) + created
    ensures EarlierKept(old(s.pages), old(s.children), s.pages, s.children, KeysOf(plan.deletes), PageIds(plan.updates))
    ensures r.Ok? ==> Carried(old(s.pages), old(s.children), s.pages, s.children, created, plan, wiki, githubURL, root, titleize)
  {
    ghost var log0, pages0, children0 := s.log, s.pages, s.children;
    assert OrderedSince(log0, log0, 0) by { assert log0[..|log0|] == log0; }
    var ok := ArchiveAll(s, plan.deletes);
    OrderedThen(log0, log0, s.log, 0, 1);
    ghost var pages1, children1 := s.pages, s.children;
    ArchiveKept(pages0, children0, pages1, children1, KeysOf(plan.deletes), PageIds(plan.updates));
    if !ok {
      assert s.order == old(s.order) + [];
      return Err(ApiError), [];
    }
    DeletesDone(pages0, pages1, plan.deletes);
    ghost var log1 := s.log;
    created := CreateAll(s, plan.creates, githubURL, root, titleize);
    OrderedThen(log0, log1, s.log, 1, 2);
    ghost var log2, pages2, children2 := s.log, s.pages, s.children;
    if forall i :: 0 <= i < |plan.updates| ==> !pages0[plan.updates[i].val.id].archived && plan.updates[i].val.id !in KeysOf(plan.deletes) {
      UpdatesLive(pages0, pages1, children1, pages2, children2, plan.updates, KeysOf(plan.deletes));
    }
    ok := UpdateAll(s, plan.updates, wiki, githubURL, titleize);
    OrderedThen(log0, log2, s.log, 2, 3);
    LaterKept(pages0, children0, pages1, children1, pages2, children2, s.pages, s.children, KeysOf(plan.deletes), plan.updates);
    if !ok {
      return Err(ApiError), created;
    }
    CreatesKept(pages0, pages1, pages2, children2, s.pages, s.children, plan.updates, created, plan.creates, githubURL, root, titleize);
    UpdatesFromStart(pages0, children0, pages1, children1, pages2, children2, s.pages, s.children, plan.updates, wiki, githubURL, titleize);
    r := Ok(());
  }

  /** The plan was carried out in full: its deletions, creations and updates are all in place. */
  ghost predicate Carried(pages0: map<string, Page>, children0: map<string, seq<Child>>,
                          pages: map<string, Page>, children: map<string, seq<Child>>, created: seq<string>,
                          plan: Plan<Doc>, wiki: seq<Entry<Doc>>, githubURL: string, root: string, titleize: string -> string)
    requires forall i :: 0 <= i < |plan.updates| ==> HasKey(wiki, plan.updates[i].key)
  {
    && DeletesArchived(pages0, pages, KeysOf(plan.deletes))
    && CreatesApplied(pages0, pages, children, created, plan.creates, githubURL, root, titleize)
    && UpdatesApplied(pages0, children0, pages, children, plan.updates, wiki, githubURL, titleize)
  }

  /**
   * Every page that existed before keeps its parent; it is archived only if
   * it was already or is a planned delete, and stays archived if it was; its
   * properties and content are unchanged unless an update names it.
   */
  ghost predicate EarlierKept(pages0: map<string, Page>, children0: map<string, seq<Child>>,
                              pages: map<string, Page>, children: map<string, seq<Child>>, deleted: seq<string>, updated: set<string>)
  {
    && (forall p :: p in pages0 ==> p in pages && pages[p].parentDb == pages0[p].parentDb)
    && (forall p :: p in pages0 && pages[p].archived ==> pages0[p].archived || p in deleted)
    && (forall p :: p in pages0 && pages0[p].archived ==> pages[p].archived)
    && (forall p :: p in pages0 && p !in updated ==> pages[p].properties == pages0[p].properties)
    && (forall p :: p in children0 && p !in updated ==> p in children && children[p] == children0[p])
  }

  /** Every planned delete names an earlier page, and that page is now archived. */
  ghost predicate DeletesArchived(pages0: map<string, Page>, pages: map<string, Page>, deleted: seq<string>) {
    forall p :: p in deleted ==> p in pages0 && p in pages && pages[p].archived
  }

  /** When every planned delete names a known page, the archive phase leaves each of them archived. */
  lemma DeletesDone(pages0: map<string, Page>, pages1: map<string, Page>, deletes: seq<Entry<string>>)
    requires forall i :: 0 <= i < |deletes| ==> deletes[i].key in pages0
    requires pages1 == Archived(pages0, KeysOf(deletes))
    ensures DeletesArchived(pages0, pages1, KeysOf(deletes))
  {
    ArchivedPages(pages0, KeysOf(deletes));
  }

  /** The archive phase changes nothing but archived flags, and only those of planned deletes. */
  lemma ArchiveKept(pages0: map<string, Page>, children0: map<string, seq<Child>>,
                    pages1: map<string, Page>, children1: map<string, seq<Child>>, deleted: seq<string>, updated: set<string>)
    requires ArchiveFrame(pages0, pages1, deleted) && children1 == children0
    ensures pages1.Keys == pages0.Keys
    ensures EarlierKept(pages0, children0, pages1, children1, deleted, updated)
    ensures forall p :: p in pages0 ==> pages1[p].properties == pages0[p].properties
  {
    forall p | p in pages0
      ensures pages1[p].parentDb == pages0[p].parentDb && pages1[p].properties == pages0[p].properties
    {
      assert pages1[p] == pages0[p].(archived := pages1[p].archived);
    }
  }

  /**
   * The create phase leaves earlier pages as they were and the update phase
   * touches only the properties and content of the pages it names, so what
   * held after the archive phase still holds after both.
   */
  lemma LaterKept(pages0: map<string, Page>, children0: map<string, seq<Child>>,
                  pages1: map<string, Page>, children1: map<string, seq<Child>>,
                  pages2: map<string, Page>, children2: map<string, seq<Child>>,
                  pages3: map<string, Page>, children3: map<string, seq<Child>>,
                  deleted: seq<string>, updates: seq<Entry<SearchResult>>)
    requires EarlierKept(pages0, children0, pages1, children1, deleted, PageIds(updates))
    requires pages1.Keys == pages0.Keys && children0.Keys == pages0.Keys && children1 == children0
    requires PagesKept(pages1, children1, pages2, children2)
    requires UpdateFrame(pages2, children2, pages3, children3, PageIds(updates))
    ensures EarlierKept(pages0, children0, pages3, children3, deleted, PageIds(updates))
    ensures DeletesArchived(pages0, pages1, deleted) ==> DeletesArchived(pages0, pages3, deleted)
  {
  }

  /** A page to update that was live and not deleted is still live when the update phase starts. */
  lemma UpdatesLive(pages0: map<string, Page>, pages1: map<string, Page>, children1: map<string, seq<Child>>,
                    pages2: map<string, Page>, children2: map<string, seq<Child>>, updates: seq<Entry<SearchResult>>, deleted: seq<string>)
    requires ArchiveFrame(pages0, pages1, deleted) && PagesKept(pages1, children1, pages2, children2)
    requires forall i :: 0 <= i < |updates| ==> updates[i].val.id in pages0
    requires forall i :: 0 <= i < |updates| ==> !pages0[updates[i].val.id].archived && updates[i].val.id !in deleted
    ensures forall i :: 0 <= i < |updates| ==> updates[i].val.id in pages2 && !pages2[updates[i].val.id].archived
  {
  }

  /** Pages made in the create phase are not named by any update, so the update phase leaves them as created. */
  lemma CreatesKept(pages0: map<string, Page>, pages1: map<string, Page>, pages2: map<string, Page>, children2: map<string, seq<Child>>,
                    pages3: map<string, Page>, children3: map<string, seq<Child>>, updates: seq<Entry<SearchResult>>,
                    created: seq<string>, creates: seq<Entry<Doc>>, githubURL: string, root: string, titleize: string -> string)
    requires forall i :: 0 <= i < |updates| ==> updates[i].val.id in pages0
    requires pages1.Keys == pages0.Keys
    requires CreatesApplied(pages1, pages2, children2, created, creates, githubURL, root, titleize)
    requires UpdateFrame(pages2, children2, pages3, children3, PageIds(updates))
    ensures CreatesApplied(pages0, pages3, children3, created, creates, githubURL, root, titleize)
  {
    forall i | 0 <= i < |created|
      ensures created[i] !in PageIds(updates)
    {
      forall j | 0 <= j < |updates|
        ensures updates[j].val.id != created[i]
      {
      }
    }
  }

  /**
   * The update phase starts from the state the create phase left, which
   * agrees with the state before the run on every earlier page; so its
   * merges are those of the earlier properties.
   */
  lemma UpdatesFromStart(pages0: map<string, Page>, children0: map<string, seq<Child>>,
                         pages1: map<string, Page>, children1: map<string, seq<Child>>,
                         pages2: map<string, Page>, children2: map<string, seq<Child>>,
                         pages3: map<string, Page>, children3: map<string, seq<Child>>,
                         updates: seq<Entry<SearchResult>>, wiki: seq<Entry<Doc>>, githubURL: string, titleize: string -> string)
    requires forall i :: 0 <= i < |updates| ==> HasKey(wiki, updates[i].key) && updates[i].val.id in pages0
    requires children0.Keys == pages0.Keys && pages1.Keys == pages0.Keys && children1 == children0
    requires forall p :: p in pages0 ==> pages1[p].properties == pages0[p].properties
    requires PagesKept(pages1, children1, pages2, children2)
    requires UpdatesApplied(pages2, children2, pages3, children3, updates, wiki, githubURL, titleize)
    ensures UpdatesApplied(pages0, children0, pages3, children3, updates, wiki, githubURL, titleize)
  {
  }

  /** Results drawn from one listing of a workspace agree on every page. */
  lemma ListingAgrees(pages: map<string, Page>, order: seq<string>, results: seq<SearchResult>)
    requires forall i :: 0 <= i < |order| ==> order[i] in pages
    requires forall r :: r in results ==> r in Listing(pages, order)
    ensures SameIdSame(results)
  {
    ListingLive(pages, order);
    forall i, j | 0 <= i < |results| && 0 <= j < |results| && results[i].id == results[j].id
      ensures results[i] == results[j]
    {
      assert results[i] in results && results[j] in results;
    }
  }

  /**
   * A plan made against results drawn from a listing of a workspace fits that
   * workspace: every page it updates or archives exists, none it updates is
   * archived or also planned for deletion, and none is updated twice.
   */
  lemma PlanFits(pages: map<string, Page>, order: seq<string>, results: seq<SearchResult>,
                 wiki: seq<Entry<Doc>>, githubURL: string, root: string, plan: Plan<Doc>)
    requires forall i :: 0 <= i < |order| ==> order[i] in pages
    requires forall r :: r in results ==> r in Listing(pages, order)
    requires plan == PlanOf(wiki, Index(results, githubURL), root)
    ensures
      && (forall i :: 0 <= i < |plan.updates| ==> HasKey(wiki, plan.updates[i].key) && plan.updates[i].val.id in pages)
      && (forall i :: 0 <= i < |plan.deletes| ==> plan.deletes[i].key in pages)
      && (forall i :: 0 <= i < |plan.updates| ==>
            !pages[plan.updates[i].val.id].archived && plan.updates[i].val.id !in KeysOf(plan.deletes))
      && DistinctPages(plan.updates)
  {
    ListingLive(pages, order);
    ListingAgrees(pages, order, results);
    PlanConsistent(wiki, results, githubURL, root);
  }

  /**
   * The outcome of a successful sync from the workspace `pages0`/`children0`
   * with the local pages `wiki`, planned against the search results
   * `listing`: that plan was carried out. Pages planned for deletion are
   * archived, planned creations exist with their content, planned updates
   * hold their merged properties and new content, no page was updated twice,
   * and every other page is as it was.
   */
  ghost predicate Synced(pages0: map<string, Page>, children0: map<string, seq<Child>>, listing: seq<SearchResult>,
                         pages: map<string, Page>, children: map<string, seq<Child>>, created: seq<string>,
                         wiki: seq<Entry<Doc>>, githubURL: string, root: string, titleize: string -> string)
  {
    var plan := PlanOf(wiki, Index(listing, githubURL), root);
    && (forall i :: 0 <= i < |plan.updates| ==> HasKey(wiki, plan.updates[i].key))
    && DistinctPages(plan.updates)
    && Carried(pages0, children0, pages, children, created, plan, wiki, githubURL, root, titleize)
    && EarlierKept(pages0, children0, pages, children, KeysOf(plan.deletes), PageIds(plan.updates))
  }

  /** A plan made against the search results and carried out in full leaves the workspace synced with those results. */
  lemma RunDone(pages0: map<string, Page>, children0: map<string, seq<Child>>, listing: seq<SearchResult>,
                pages: map<string, Page>, children: map<string, seq<Child>>, created: seq<string>,
                wiki: seq<Entry<Doc>>, plan: Plan<Doc>, githubURL: string, root: string, titleize: string -> string)
    requires plan == PlanOf(wiki, Index(listing, githubURL), root)
    requires forall i :: 0 <= i < |plan.updates| ==> HasKey(wiki, plan.updates[i].key)
    requires DistinctPages(plan.updates)
    requires Carried(pages0, children0, pages, children, created, plan, wiki, githubURL, root, titleize)
    requires EarlierKept(pages0, children0, pages, children, KeysOf(plan.deletes), PageIds(plan.updates))
    ensures Synced(pages0, children0, listing, pages, children, created, wiki, githubURL, root, titleize)
  {
  }

  /**
   * `run`, with the search following its cursors: load every markdown file
   * under `rootDir`, then sync the loaded pages. All files are loaded before
   * the first request, so a file that fails to load ends the run with its
   * exception and no request sent. Otherwise the run succeeds with the plan
   * of the full listing carried out, and the new pages are listed last.
   */
  method Run(s: Store, rootDir: string, entries: seq<DirEntry>, read: string -> string, parse: string -> Option<Value>,
             toBlocks: string -> seq<Value>, githubURL: string, root: string, titleize: string -> string)
    returns (r: Result<(), Exception>, created: seq<string>)
    requires s.Valid()
    modifies s
    ensures s.Valid()
    ensures var loaded := LoadPages(MdFiles(rootDir, entries), Loading(read, parse, toBlocks));
      && (loaded.Err? ==> r == Err(loaded.error) && s.pages == old(s.pages) && s.children == old(s.children) && s.log == old(s.log))
      && (loaded.Ok? ==> r.Ok? && Synced(old(s.pages), old(s.children), Listing(old(s.pages), old(s.order)), s.pages, s.children, created,
                                         loaded.value, githubURL, root, titleize))
    ensures s.order == old(s.order) + created
    ensures OrderedSince(old(s.log), s.log, 3)
  {
    var files := MdFiles(rootDir, entries);
    var loaded := LoadAll(files, read, parse, toBlocks);
    if loaded.Err? {
      assert s.log[..|s.log|] == s.log;
      assert s.order == old(s.order) + [];
      return Err(loaded.error), [];
    }
    r, created := SyncPages(s, loaded.value, githubURL, root, titleize);
  }

  /**
   * The part of `run` after loading, with the search following its cursors:
   * list the whole workspace, plan against the listing, and carry the plan
   * out. The plan fits the listing it was made from, so the workspace accepts
   * every request: the sync succeeds, with its requests in phase order.
   */
  method SyncPages(s: Store, wiki: seq<Entry<Doc>>, githubURL: string, root: string, titleize: string -> string)
    returns (r: Result<(), Exception>, created: seq<string>)
    requires s.Valid()
    modifies s
    ensures s.Valid()
    ensures r.Ok? && Synced(old(s.pages), old(s.children), Listing(old(s.pages), old(s.order)), s.pages, s.children, created,
                            wiki, githubURL, root, titleize)
    ensures s.order == old(s.order) + created
    ensures OrderedSince(old(s.log), s.log, 3)
  {
    ghost var log0, pages0, children0, order0 := s.log, s.pages, s.children, s.order;
    var plan := SearchAndPlan(s, wiki, githubURL, root);
    ghost var log1 := s.log;
    ghost var listing := Listing(pages0, order0);
    PlanFits(pages0, order0, listing, wiki, githubURL, root, plan);
    r, created := Execute(s, plan, wiki, githubURL, root, titleize);
    RunDone(pages0, children0, listing, s.pages, s.children, created, wiki, plan, githubURL, root, titleize);
    OrderedJoin(log0, log1, s.log, 3);
  }

  /** The search over the whole workspace, the index of its pages, and the plan made against that index. */
  method SearchAndPlan(s: Store, wiki: seq<Entry<Doc>>, githubURL: string, root: string) returns (plan: Plan<Doc>)
    requires s.Valid()
    modifies s`log
    ensures plan == PlanOf(wiki, Index(Listing(s.pages, s.order), githubURL), root)
    ensures OrderedSince(old(s.log), s.log, 0)
  {
    ghost var log0 := s.log;
    assert log0[..|log0|] == log0;
    var results := SearchAll(s);
    SearchLogPhase(results, s.pageSize, 0);
    ExtendsOf(log0, SearchLog(results, s.pageSize, 0), 0);
    OrderedThen(log0, log0, s.log, 0, 0);
    var index := BuildIndex(results, githubURL);
    plan := PlanSync(wiki, index, root);
  }

  /**
   * `run` as written: the same as `Run`, but the sync plans against the first
   * search batch only. It still succeeds on every workspace, and carries out
   * the plan of that batch (see `FirstBatchRecreates` for what that plan
   * gets wrong when the workspace has more pages than one batch holds).
   */
  method RunFirstBatch(s: Store, rootDir: string, entries: seq<DirEntry>, read: string -> string, parse: string -> Option<Value>,
                       toBlocks: string -> seq<Value>, githubURL: string, root: string, titleize: string -> string)
    returns (r: Result<(), Exception>, created: seq<string>)
    requires s.Valid()
    modifies s
    ensures s.Valid()
    ensures var loaded := LoadPages(MdFiles(rootDir, entries), Loading(read, parse, toBlocks));
      && (loaded.Err? ==> r == Err(loaded.error) && s.pages == old(s.pages) && s.children == old(s.children) && s.log == old(s.log))
      && (loaded.Ok? ==> r.Ok? && Synced(old(s.pages), old(s.children), BatchAt(Listing(old(s.pages), old(s.order)), s.pageSize, 0).results,
                                         s.pages, s.children, created, loaded.value, githubURL, root, titleize))
    ensures s.order == old(s.order) + created
    ensures OrderedSince(old(s.log), s.log, 3)
  {
    var files := MdFiles(rootDir, entries);
    var loaded := LoadAll(files, read, parse, toBlocks);
    if loaded.Err? {
      assert s.log[..|s.log|] == s.log;
      assert s.order == old(s.order) + [];
      return Err(loaded.error), [];
    }
    r, created := SyncPagesFirstBatch(s, loaded.value, githubURL, root, titleize);
  }

  /** A plan made against the first search batch fits the workspace, as `PlanFits` states; `first` is that batch. */
  lemma FirstBatchFits(pages: map<string, Page>, order: seq<string>, size: nat,
                       wiki: seq<Entry<Doc>>, githubURL: string, root: string, plan: Plan<Doc>)
    returns (first: seq<SearchResult>)
    requires forall i :: 0 <= i < |order| ==> order[i] in pages
    requires size > 0
    requires plan == PlanOf(wiki, Index(BatchAt(Listing(pages, order), size, 0).results, githubURL), root)
    ensures first == BatchAt(Listing(pages, order), size, 0).results
    ensures
      && (forall i :: 0 <= i < |plan.updates| ==> HasKey(wiki, plan.updates[i].key) && plan.updates[i].val.id in pages)
      && (forall i :: 0 <= i < |plan.deletes| ==> plan.deletes[i].key in pages)
      && (forall i :: 0 <= i < |plan.updates| ==>
            !pages[plan.updates[i].val.id].archived && plan.updates[i].val.id !in KeysOf(plan.deletes))
      && DistinctPages(plan.updates)
  {
    var listing := Listing(pages, order);
    first := BatchAt(listing, size, 0).results;
    forall x | x in first ensures x in listing {
      var i :| 0 <= i < |first| && first[i] == x;
      assert listing[i] == x;
    }
    PlanFits(pages, order, first, wiki, githubURL, root, plan);
  }

  /** The part of `run` after loading, as written: plan against the first search batch and carry that plan out. */
  method SyncPagesFirstBatch(s: Store, wiki: seq<Entry<Doc>>, githubURL: string, root: string, titleize: string -> string)
    returns (r: Result<(), Exception>, created: seq<string>)
    requires s.Valid()
    modifies s
    ensures s.Valid()
    ensures r.Ok? && Synced(old(s.pages), old(s.children), BatchAt(Listing(old(s.pages), old(s.order)), s.pageSize, 0).results,
                            s.pages, s.children, created, wiki, githubURL, root, titleize)
    ensures s.order == old(s.order) + created
    ensures OrderedSince(old(s.log), s.log, 3)
  {
    ghost var log0, pages0, children0, order0 := s.log, s.pages, s.children, s.order;
    var plan := SearchAndPlanFirstBatch(s, wiki, githubURL, root);
    ghost var log1 := s.log;
    ghost var first := FirstBatchFits(pages0, order0, s.pageSize, wiki, githubURL, root, plan);
    r, created := Execute(s, plan, wiki, githubURL, root, titleize);
    RunDone(pages0, children0, first, s.pages, s.children, created, wiki, plan, githubURL, root, titleize);
    OrderedJoin(log0, log1, s.log, 3);
  }

  /** The search as written, one request and its first batch, the index of those pages, and the plan made against it. */
  method SearchAndPlanFirstBatch(s: Store, wiki: seq<Entry<Doc>>, githubURL: string, root: string) returns (plan: Plan<Doc>)
    requires s.Valid()
    modifies s`log
    ensures plan == PlanOf(wiki, Index(BatchAt(Listing(s.pages, s.order), s.pageSize, 0).results, githubURL), root)
    ensures OrderedSince(old(s.log), s.log, 0)
  {
    ghost var log0 := s.log;
    assert log0[..|log0|] == log0;
    var results := SearchFirstBatch(s);
    ExtendsOf(log0, [Search(None)], 0);
    OrderedThen(log0, log0, s.log, 0, 0);
    var index := BuildIndex(results, githubURL);
    plan := PlanSync(wiki, index, root);
  }
}
