/**
 * What the Notion API hands back: search results, and the batches a
 * paginated endpoint returns one request at a time. A cursor is the position
 * of the first item of the next batch.
 */
module Remote {
  import opened Wrappers
  import opened Properties

  /** One entry of a search response (`kind` is its `object` field): `parent.database_id` is `None` when the parent is not a database. */
  datatype SearchResult = SearchResult(id: string, kind: string, properties: Props, parentDb: Option<string>)

  /** One response of a paginated endpoint: `nextCursor` is meaningful only when `hasMore`. */
  datatype Batch<T> = Batch(results: seq<T>, hasMore: bool, nextCursor: nat)

  /** The batch of at most `size` items starting at cursor `start`. */
  function BatchAt<T>(items: seq<T>, size: nat, start: nat): (b: Batch<T>)
    requires size > 0 && start <= |items|
    ensures |b.results| <= size && start + |b.results| <= |items|
    ensures b.results == items[start..start + |b.results|]
    ensures b.hasMore <==> start + |b.results| < |items|
    ensures b.hasMore ==> |b.results| == size && b.nextCursor == start + size
  {
    if start + size < |items| then Batch(items[start..start + size], true, start + size)
    else Batch(items[start..], false, |items|)
  }

  /** Everything a client gets by following `next_cursor` from `start` until `has_more` is false. */
  function Paginate<T>(items: seq<T>, size: nat, start: nat): seq<T>
    requires size > 0 && start <= |items|
    decreases |items| - start
  {
    var b := BatchAt(items, size, start);
    b.results + if b.hasMore then Paginate(items, size, b.nextCursor) else []
  }

  /** The cursors of the requests after the first, each the previous response's `next_cursor`. */
  function Cursors<T>(items: seq<T>, size: nat, start: nat): seq<nat>
    requires size > 0 && start <= |items|
    decreases |items| - start
  {
    var b := BatchAt(items, size, start);
    if b.hasMore then [b.nextCursor] + Cursors(items, size, b.nextCursor) else []
  }

  /** Following the cursors to the end collects every item from `start` on, in order. */
  lemma {:induction false} PaginateAll<T>(items: seq<T>, size: nat, start: nat)
    requires size > 0 && start <= |items|
    ensures Paginate(items, size, start) == items[start..]
    decreases |items| - start
  {
    var b := BatchAt(items, size, start);
    if b.hasMore {
      PaginateAll(items, size, b.nextCursor);
      assert items[start..start + size] + items[start + size..] == items[start..];
    }
  }

  /** Reading only the first batch loses every item past the page size. */
  lemma FirstBatchIncomplete<T>(items: seq<T>, size: nat)
    requires 0 < size < |items|
    ensures BatchAt(items, size, 0).results == items[..size]
    ensures BatchAt(items, size, 0).results != items
  {
  }
}
