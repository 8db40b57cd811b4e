/**
 Page content and the cache in front of it: reads fill a page's entry, writes delete it after they commit.
 */
module CmsCache {
  import opened Outcomes
  import opened TextOrder

  /** A block's page never changes; its key is its row's identity, unique over all pages. */
  datatype Block = Block(page: string, value: string, order: int, isSystem: bool, isActive: bool)

  datatype Entry = Entry(key: string, block: Block)

  datatype State = State(table: map<string, Block>, cache: map<string, seq<Entry>>)

  datatype Error = KeyTaken | NotFound | Protected

  datatype Event =
    | Create(key: string, block: Block, deleted: bool)
    | Update(key: string, value: string, order: int, isActive: bool, deleted: bool)
    | Delete(key: string, deleted: bool)
    | Read(page: string, rows: seq<Entry>, found: bool, stored: bool)
    | Expire(page: string)

  // ---------------------------------------------------------------- the ordered projection of one page

  predicate EntryBefore(a: Entry, b: Entry) {
    a.block.order < b.block.order || (a.block.order == b.block.order && Less(a.key, b.key))
  }

  predicate Ordered(rows: seq<Entry>) {
    forall i, j :: 0 <= i < j < |rows| ==> EntryBefore(rows[i], rows[j])
  }

  predicate OnPage(table: map<string, Block>, page: string, e: Entry) {
    e.key in table && table[e.key] == e.block && e.block.page == page
  }

  /** `rows` are the blocks of a page, each once, in (display_order, key) order. */
  ghost predicate IsProjection(table: map<string, Block>, page: string, rows: seq<Entry>) {
    Ordered(rows) && forall e :: e in rows <==> OnPage(table, page, e)
  }

  ghost predicate IsActiveProjection(table: map<string, Block>, page: string, rows: seq<Entry>) {
    Ordered(rows) && forall e :: e in rows <==> OnPage(table, page, e) && e.block.isActive
  }

  lemma BeforeIsStrict(a: Entry, b: Entry, c: Entry)
    ensures !EntryBefore(a, a)
    ensures EntryBefore(a, b) && EntryBefore(b, c) ==> EntryBefore(a, c)
    ensures a.key != b.key ==> EntryBefore(a, b) || EntryBefore(b, a)
  {
    LessIsTotal(a.key, b.key);
    LessIsTotal(a.key, a.key);
    if Less(a.key, b.key) && Less(b.key, c.key) { LessIsTransitive(a.key, b.key, c.key); }
  }

  /** There is only one such listing, so "the cache holds the projection" says what it holds. */
  lemma {:induction false} OrderedSameElements(a: seq<Entry>, b: seq<Entry>)
    requires Ordered(a) && Ordered(b) && forall e :: e in a <==> e in b
    ensures a == b
    decreases |a|
  {
    HeadIsElement(b);
    if a != [] {
      assert a[0] in b && b != [];
      FirstIsFirst(a, b);
      forall e ensures e in a[1..] <==> e in b[1..] { InTail(a, e); InTail(b, e); }
      OrderedSameElements(a[1..], b[1..]);
    }
  }

  lemma HeadIsElement(rows: seq<Entry>)
    ensures rows != [] ==> rows[0] in rows
  {
  }

  lemma FirstIsFirst(a: seq<Entry>, b: seq<Entry>)
    requires Ordered(a) && Ordered(b) && a != [] && b != [] && forall e :: e in a <==> e in b
    ensures a[0] == b[0]
  {
    assert a[0] in b && b[0] in a;
    BeforeIsStrict(a[0], b[0], a[0]);
  }

  lemma InTail(a: seq<Entry>, e: Entry)
    requires Ordered(a) && a != []
    ensures e in a[1..] <==> e in a && e != a[0]
  {
    BeforeIsStrict(a[0], a[0], a[0]);
    assert a == [a[0]] + a[1..];
  }

  function Insert(e: Entry, rows: seq<Entry>): seq<Entry> {
    if rows == [] || EntryBefore(e, rows[0]) then [e] + rows else [rows[0]] + Insert(e, rows[1..])
  }

  lemma {:induction false} InsertKeepsOrder(e: Entry, rows: seq<Entry>)
    requires Ordered(rows) && forall r :: r in rows ==> r.key != e.key
    ensures Ordered(Insert(e, rows))
    ensures forall r :: r in Insert(e, rows) <==> r == e || r in rows
  {
    if rows == [] {
    } else if EntryBefore(e, rows[0]) {
      forall j | 0 <= j < |rows| ensures EntryBefore(e, rows[j]) { BeforeIsStrict(e, rows[0], rows[j]); }
    } else {
      BeforeIsStrict(e, rows[0], e);
      InsertKeepsOrder(e, rows[1..]);
      var tail := Insert(e, rows[1..]);
      assert forall j :: 0 <= j < |tail| ==> tail[j] in tail;
      assert rows == [rows[0]] + rows[1..];
    }
  }

  /** The page query. */
  method Fetch(table: map<string, Block>, page: string) returns (rows: seq<Entry>)
    ensures IsProjection(table, page, rows)
  {
    rows := [];
    var left := table.Keys;
    while left != {}
      invariant left <= table.Keys
      invariant Ordered(rows)
      invariant forall e :: e in rows <==> OnPage(table, page, e) && e.key !in left
      decreases |left|
    {
      var key :| key in left;
      if table[key].page == page {
        InsertKeepsOrder(Entry(key, table[key]), rows);
        rows := Insert(Entry(key, table[key]), rows);
      }
      left := left - {key};
      hide Ordered, Insert;
    }
  }

  function ActiveOnly(rows: seq<Entry>): seq<Entry> {
    if rows == [] then []
    else ActiveOnly(rows[..|rows| - 1]) + if rows[|rows| - 1].block.isActive then [rows[|rows| - 1]] else []
  }

  lemma {:induction false} ActiveOnlyFilters(rows: seq<Entry>)
    requires Ordered(rows)
    ensures Ordered(ActiveOnly(rows))
    ensures forall e :: e in ActiveOnly(rows) <==> e in rows && e.block.isActive
  {
    if rows != [] {
      var most, last := rows[..|rows| - 1], rows[|rows| - 1];
      ActiveOnlyFilters(most);
      assert rows == most + [last];
      assert forall e :: e in most ==> EntryBefore(e, last);
      var kept := ActiveOnly(most);
      assert forall i :: 0 <= i < |kept| ==> kept[i] in kept;
    }
  }

  // ---------------------------------------------------------------- calls

  function Uncached(cache: map<string, seq<Entry>>, page: string, deleted: bool): map<string, seq<Entry>> {
    if deleted then cache - {page} else cache
  }

  /** Each call as one step. `deleted`, `found` and `stored` say whether the cache answered. */
  function Step(s: State, e: Event): State {
    match e
    case Create(key, block, deleted) =>
      if key in s.table then s
      else State(s.table[key := block.(isSystem := false)], Uncached(s.cache, block.page, deleted))
    case Update(key, value, order, isActive, deleted) =>
      if key !in s.table then s
      else State(s.table[key := s.table[key].(value := value, order := order, isActive := isActive)], Uncached(s.cache, s.table[key].page, deleted))
    case Delete(key, deleted) =>
      if key !in s.table || s.table[key].isSystem then s
      else State(s.table - {key}, Uncached(s.cache, s.table[key].page, deleted))
    case Read(page, rows, found, stored) =>
      if (found && page in s.cache) || !stored then s else s.(cache := s.cache[page := rows])
    case Expire(page) => s.(cache := s.cache - {page})
  }

  /** The call commits a change to what is on the page. */
  predicate Changes(s: State, e: Event, page: string) {
    match e
    case Create(key, block, _) => key !in s.table && block.page == page
    case Update(key, value, order, isActive, _) =>
      key in s.table && s.table[key].page == page && s.table[key] != s.table[key].(value := value, order := order, isActive := isActive)
    case Delete(key, _) => key in s.table && !s.table[key].isSystem && s.table[key].page == page
    case _ => false
  }

  /** A listing of a page is still right after a call exactly if the call changed nothing on that page. */
  lemma ListingOutdatedExactly(s: State, e: Event, page: string, rows: seq<Entry>)
    requires IsProjection(s.table, page, rows)
    ensures IsProjection(Step(s, e).table, page, rows) <==> !Changes(s, e, page)
  {
    var after := Step(s, e).table;
    if e.Create? && Changes(s, e, page) {
      var added := Entry(e.key, after[e.key]);
      assert OnPage(after, page, added) && !OnPage(s.table, page, added);
    } else if e.Update? && Changes(s, e, page) {
      var was := Entry(e.key, s.table[e.key]);
      assert OnPage(s.table, page, was) && !OnPage(after, page, was);
    } else if e.Delete? && Changes(s, e, page) {
      var was := Entry(e.key, s.table[e.key]);
      assert OnPage(s.table, page, was) && !OnPage(after, page, was);
    } else {
      assert forall x :: OnPage(after, page, x) <==> OnPage(s.table, page, x);
    }
  }

  // ---------------------------------------------------------------- coherence

  ghost predicate Coherent(s: State) {
    forall page :: page in s.cache ==> IsProjection(s.table, page, s.cache[page])
  }

  /** The cache server does as asked when a write deletes an entry, and a read's query sees the current table. */
  ghost predicate Orderly(s: State, e: Event) {
    && (e.Create? || e.Update? || e.Delete? ==> e.deleted)
    && (e.Read? ==> IsProjection(s.table, e.page, e.rows))
  }

  function PageOf(s: State, e: Event): string {
    match e
    case Create(_, block, _) => block.page
    case Update(key, _, _, _, _) => if key in s.table then s.table[key].page else ""
    case Delete(key, _) => if key in s.table then s.table[key].page else ""
    case Read(page, _, _, _) => page
    case Expire(page) => page
  }

  lemma ChangesOnlyItsPage(s: State, e: Event, page: string)
    requires Changes(s, e, page)
    ensures page == PageOf(s, e)
  {
  }

  lemma StepKeepsCoherent(s: State, e: Event)
    requires Coherent(s) && Orderly(s, e)
    ensures Coherent(Step(s, e))
  {
    var after := Step(s, e);
    forall page | page in after.cache ensures IsProjection(after.table, page, after.cache[page]) {
      if page in s.cache && after.cache[page] == s.cache[page] {
        ListingOutdatedExactly(s, e, page, s.cache[page]);
      }
    }
  }

  /**
   When a write's delete does not reach the cache, coherence survives exactly if the page was not cached, or
   the write changed nothing on it.
   */
  lemma LostDeleteExactly(s: State, e: Event)
    requires Coherent(s) && (e.Create? || e.Update? || e.Delete?) && !e.deleted
    ensures Coherent(Step(s, e)) <==> PageOf(s, e) !in s.cache || !Changes(s, e, PageOf(s, e))
  {
    var after := Step(s, e);
    assert after.cache == s.cache;
    forall page | page in s.cache ensures IsProjection(after.table, page, s.cache[page]) <==> !Changes(s, e, page) {
      ListingOutdatedExactly(s, e, page, s.cache[page]);
    }
    hide IsProjection, Step;
    forall page | Changes(s, e, page) { ChangesOnlyItsPage(s, e, page); }
  }

  /** A read that stores what it fetched after another call has committed: right exactly if that call left the page alone. */
  lemma LateStoreExactly(s: State, e: Event, page: string, rows: seq<Entry>)
    requires Coherent(s) && Orderly(s, e) && IsProjection(s.table, page, rows)
    ensures Coherent(Step(s, e).(cache := Step(s, e).cache[page := rows])) <==> !Changes(s, e, page)
  {
    StepKeepsCoherent(s, e);
    ListingOutdatedExactly(s, e, page, rows);
    hide IsProjection, Changes;
    var stored := Step(s, e).cache[page := rows];
    assert page in stored && stored[page] == rows;
    hide Step;
  }

  ghost predicate OrderlyRun(s: State, events: seq<Event>)
    decreases |events|
  {
    events != [] ==> Orderly(s, events[0]) && OrderlyRun(Step(s, events[0]), events[1..])
  }

  function Run(s: State, events: seq<Event>): State
    decreases |events|
  {
    if events == [] then s else Run(Step(s, events[0]), events[1..])
  }

  /** After every orderly run whatever is cached for a page is that page's projection of the table. */
  lemma {:induction false} RunKeepsCoherent(s: State, events: seq<Event>)
    requires Coherent(s) && OrderlyRun(s, events)
    ensures Coherent(Run(s, events))
    decreases |events|
  {
    hide Coherent, Step, Orderly;
    if events != [] {
      StepKeepsCoherent(s, events[0]);
      RunKeepsCoherent(Step(s, events[0]), events[1..]);
    }
  }

  // ---------------------------------------------------------------- as they run

  class Cms {
    var table: map<string, Block>
    var cache: map<string, seq<Entry>>

    ghost function View(): State
      reads this
    {
      State(table, cache)
    }

    constructor (seeded: map<string, Block>)
      ensures View() == State(seeded, map[]) && Coherent(View())
    {
      table, cache := seeded, map[];
    }

    /** A read is as good as a query, whether or not the cache answers or takes the result. */
    method GetBlocks(page: string, activeOnly: bool, found: bool, stored: bool) returns (blocks: seq<Entry>)
      requires Coherent(View())
      modifies this`cache
      ensures if activeOnly then IsActiveProjection(table, page, blocks) else IsProjection(table, page, blocks)
      ensures forall e :: e in blocks <==>
        e.key in table && table[e.key] == e.block && e.block.page == page && (activeOnly ==> e.block.isActive)
      ensures forall i, j :: 0 <= i < j < |blocks| ==>
        blocks[i].block.order < blocks[j].block.order
        || (blocks[i].block.order == blocks[j].block.order && Less(blocks[i].key, blocks[j].key))
      ensures Coherent(View())
      ensures found && page in old(cache) ==> cache == old(cache)
      ensures !(found && page in old(cache)) && stored ==> page in cache && cache == old(cache)[page := cache[page]]
      ensures !(found && page in old(cache)) && !stored ==> cache == old(cache)
    {
      var rows: seq<Entry>;
      if found && page in cache {
        rows := cache[page];
      } else {
        rows := Fetch(table, page);
        if stored { cache := cache[page := rows]; }
      }
      ActiveOnlyFilters(rows);
      blocks := if activeOnly then ActiveOnly(rows) else rows;
    }

    method Invalidate(page: string)
      modifies this`cache
      ensures cache == old(cache) - {page}
    {
      cache := cache - {page};
    }

    method CreateBlock(key: string, block: Block) returns (failure: Option<Error>)
      requires Coherent(View())
      modifies this
      ensures failure == if key in old(table) then Some(KeyTaken) else None
      ensures View() == Step(old(View()), Create(key, block, true)) && Coherent(View())
      ensures if failure.Some? then table == old(table) && cache == old(cache)
              else && table == old(table)[key := Block(block.page, block.value, block.order, false, block.isActive)]
                   && cache == old(cache) - {block.page}
    {
      StepKeepsCoherent(View(), Create(key, block, true));
      hide Coherent;
      if key in table { return Some(KeyTaken); }
      table := table[key := block.(isSystem := false)];
      Invalidate(block.page);
      failure := None;
    }

    method UpdateBlock(key: string, value: string, order: int, isActive: bool) returns (failure: Option<Error>)
      requires Coherent(View())
      modifies this
      ensures failure == if key in old(table) then None else Some(NotFound)
      ensures View() == Step(old(View()), Update(key, value, order, isActive, true)) && Coherent(View())
      ensures if failure.Some? then table == old(table) && cache == old(cache)
              else && table == old(table)[key := Block(old(table)[key].page, value, order, old(table)[key].isSystem, isActive)]
                   && cache == old(cache) - {old(table)[key].page}
    {
      StepKeepsCoherent(View(), Update(key, value, order, isActive, true));
      hide Coherent;
      if key !in table { return Some(NotFound); }
      table := table[key := table[key].(value := value, order := order, isActive := isActive)];
      Invalidate(table[key].page);
      failure := None;
    }

    method DeleteBlock(key: string) returns (failure: Option<Error>)
      requires Coherent(View())
      modifies this
      ensures failure == if key !in old(table) then Some(NotFound) else if old(table)[key].isSystem then Some(Protected) else None
      ensures View() == Step(old(View()), Delete(key, true)) && Coherent(View())
      ensures if failure.Some? then table == old(table) && cache == old(cache)
              else && table.Keys == old(table).Keys - {key} && (forall k :: k in table ==> table[k] == old(table)[k])
                   && cache == old(cache) - {old(table)[key].page}
    {
      StepKeepsCoherent(View(), Delete(key, true));
      hide Coherent;
      if key !in table { return Some(NotFound); }
      if table[key].isSystem { return Some(Protected); }
      var page := table[key].page;
      table := table - {key};
      Invalidate(page);
      failure := None;
    }
  }
}
