/**
 * The Notion database that both scripts talk to, replaced by an in-memory
 * store: the pages it holds in query order, the page size it answers
 * queries with, a log of the create and update calls it received, and an
 * oracle that decides which of those calls raise.
 */
module NotionStore {
  import opened Wrappers

  type PageId = string

  /**
   * A page property value in the shape the Notion API exchanges it. Title
   * and rich text hold the `content` of each of their text segments.
   */
  datatype PropertyValue =
    | Title(texts: seq<string>)
    | Select(name: string)
    | RichText(texts: seq<string>)
  {
    /** The property's type name as Notion spells it. */
    function Kind(): string {
      match this
      case Title(_) => "title"
      case Select(_) => "select"
      case RichText(_) => "rich_text"
    }

    /** The texts the value carries: the content of every segment, or a select's option name. */
    function Contents(): seq<string> {
      match this
      case Title(texts) => texts
      case Select(name) => [name]
      case RichText(texts) => texts
    }
  }

  type Properties = map<string, PropertyValue>

  datatype Page = Page(id: PageId, properties: Properties)

  /** One answer of `databases.query`: a batch of results and the continuation. */
  datatype Response = Response(results: seq<Page>, hasMore: bool, nextCursor: Option<nat>)

  /** A mutating request as the store received it. */
  datatype Call =
    | CreatePage(parent: string, properties: Properties)
    | UpdatePage(pageId: PageId, properties: Properties)

  type PageSize = n: nat | 0 < n witness 1

  function MaxIdLength(pages: seq<Page>): (m: nat)
    ensures forall i :: 0 <= i < |pages| ==> |pages[i].id| <= m
    decreases |pages|
  {
    if pages == [] then 0
    else
      var rest := MaxIdLength(pages[1..]);
      if |pages[0].id| > rest then |pages[0].id| else rest
  }

  /** The identifier Notion gives a new page: one that no page of the database carries yet. */
  function FreshId(pages: seq<Page>): (id: PageId)
    ensures forall i :: 0 <= i < |pages| ==> pages[i].id != id
  {
    seq(MaxIdLength(pages) + 1, _ => 'p')
  }

  /**
   * `pages.update`: Notion merges the given properties into those of the page
   * with that id; properties it was not given keep their values.
   */
  function Merged(pages: seq<Page>, id: PageId, properties: Properties): (r: seq<Page>)
    ensures |r| == |pages|
    ensures forall i :: 0 <= i < |pages| ==> r[i].id == pages[i].id
    ensures forall i :: 0 <= i < |pages| && pages[i].id != id ==> r[i] == pages[i]
    ensures forall i :: 0 <= i < |pages| && pages[i].id == id ==>
      r[i].properties == pages[i].properties + properties
  {
    seq(|pages|, i requires 0 <= i < |pages| =>
      if pages[i].id == id then Page(id, pages[i].properties + properties) else pages[i])
  }

  /** What a call that succeeds does to the database's pages. */
  function Perform(pages: seq<Page>, call: Call): seq<Page> {
    match call
    case CreatePage(_, properties) => pages + [Page(FreshId(pages), properties)]
    case UpdatePage(id, properties) => Merged(pages, id, properties)
  }

  /** The exception the store's call number `k` raises, if any. */
  function RaisedAt(rejection: map<nat, string>, k: nat): Option<string> {
    if k in rejection then Some(rejection[k]) else None
  }

  /** What a call does to the pages given whether it raised: nothing when it did. */
  function AfterCall(pages: seq<Page>, call: Call, failure: Option<string>): seq<Page> {
    if failure.None? then Perform(pages, call) else pages
  }

  /**
   * The pages after `calls` were issued in order, the j-th of them being the
   * store's call number `base + j`, which has an effect only if it does not raise.
   */
  function Applied(pages: seq<Page>, calls: seq<Call>, base: nat, rejection: map<nat, string>): seq<Page>
    decreases |calls|
  {
    if calls == [] then pages
    else
      var before := Applied(pages, calls[..|calls| - 1], base, rejection);
      AfterCall(before, calls[|calls| - 1], RaisedAt(rejection, base + |calls| - 1))
  }

  /**
   * Issuing one more call, the store's call number `k`: it has its effect on
   * the pages exactly when it does not raise.
   */
  lemma AppliedSnoc(pages: seq<Page>, calls: seq<Call>, call: Call, base: nat, rejection: map<nat, string>, k: nat)
    requires k == base + |calls|
    ensures Applied(pages, calls + [call], base, rejection) ==
      AfterCall(Applied(pages, calls, base, rejection), call, RaisedAt(rejection, k))
  {
    var longer := calls + [call];
    assert longer[..|longer| - 1] == calls;
    assert longer[|longer| - 1] == call;
  }

  /** Where a query with `cursor` starts: the first page when there is no cursor. */
  function Start(pages: seq<Page>, cursor: Option<nat>): nat {
    if cursor.None? then 0 else Min(cursor.value, |pages|)
  }

  /**
   * The answer to `databases.query` over `pages`: at most `pageSize` pages,
   * the ones that follow the cursor in order (from the first page when there
   * is no cursor); while pages remain after them the answer says so and
   * carries the cursor of the next batch, which starts right after this one.
   */
  function Batch(pages: seq<Page>, pageSize: PageSize, cursor: Option<nat>): (r: Response)
    ensures |r.results| <= pageSize
    ensures r.hasMore <==> r.nextCursor.Some?
    ensures Start(pages, cursor) + |r.results| <= |pages|
    ensures r.results == pages[Start(pages, cursor)..Start(pages, cursor) + |r.results|]
    ensures r.hasMore <==> Start(pages, cursor) + |r.results| < |pages|
    ensures r.hasMore ==> |r.results| == pageSize && r.nextCursor == Some(Start(pages, cursor) + |r.results|)
  {
    var start := Start(pages, cursor);
    var end := Min(start + pageSize, |pages|);
    Response(pages[start..end], end < |pages|, if end < |pages| then Some(end) else None)
  }

  class Store {
    /** How many results one query returns at most. */
    const pageSize: PageSize
    /** `rejection[k]` is the text of the exception the k-th create or update call raises; the others succeed. */
    const rejection: map<nat, string>
    /** The database's pages, in the order queries return them. */
    var pages: seq<Page>
    /** Every create and update call received, in order. */
    var calls: seq<Call>

    constructor (pageSize: PageSize, rejection: map<nat, string>, pages: seq<Page>)
      ensures this.pageSize == pageSize && this.rejection == rejection
      ensures this.pages == pages && calls == []
    {
      this.pageSize := pageSize;
      this.rejection := rejection;
      this.pages := pages;
      calls := [];
    }

    /**
     * `databases.query`: the batch of at most `pageSize` pages that starts at the
     * cursor (at the first page when there is none); while pages remain after
     * the batch, the answer says so and carries the cursor of the next one.
     */
    function Query(cursor: Option<nat>): Response
      reads this
    {
      Batch(pages, pageSize, cursor)
    }

    /** `pages.create` under `parent`; returns the exception's text when it raises. */
    method Create(parent: string, properties: Properties) returns (failure: Option<string>)
      modifies this
      ensures calls == old(calls) + [CreatePage(parent, properties)]
      ensures failure == RaisedAt(rejection, |old(calls)|)
      ensures pages == AfterCall(old(pages), CreatePage(parent, properties), failure)
    {
      failure := RaisedAt(rejection, |calls|);
      if failure.None? {
        pages := Perform(pages, CreatePage(parent, properties));
      }
      calls := calls + [CreatePage(parent, properties)];
    }

    /** `pages.update` of the page `pageId`; returns the exception's text when it raises. */
    method Update(pageId: PageId, properties: Properties) returns (failure: Option<string>)
      modifies this
      ensures calls == old(calls) + [UpdatePage(pageId, properties)]
      ensures failure == RaisedAt(rejection, |old(calls)|)
      ensures pages == AfterCall(old(pages), UpdatePage(pageId, properties), failure)
    {
      failure := RaisedAt(rejection, |calls|);
      if failure.None? {
        pages := Perform(pages, UpdatePage(pageId, properties));
      }
      calls := calls + [UpdatePage(pageId, properties)];
    }
  }
}
