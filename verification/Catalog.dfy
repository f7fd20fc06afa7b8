/**
 Reading the driver catalog page by page while the server may change it between any two requests.
 A run is driven by the server's catalog at each request; the client restarts whenever the
 fingerprint it started with changes.
 */
module Catalog {
  import opened Common

  datatype Driver = Driver(typeId: string, commandCount: nat, schema: Option<nat>)

  /** What the server holds at one moment. */
  datatype Served = Served(fingerprint: string, drivers: seq<Driver>)

  datatype Page = Page(fingerprint: string, drivers: seq<Driver>, nextCursor: nat)

  datatype Catalog = Catalog(fingerprint: string, drivers: seq<Driver>)

  /** What one request meets: the server's catalog, or a call that raises. */
  datatype Reply = Serves(at: Served) | Raises

  type Server = (Served, nat) -> Page

  /** The wire carries only a driver's identity; schemas are attached on the host. */
  function Bare(d: Driver): Driver {
    d.(schema := None)
  }

  function BareAll(ds: seq<Driver>): (r: seq<Driver>)
    ensures |r| == |ds| && forall i :: 0 <= i < |ds| ==> r[i] == Bare(ds[i])
  {
    seq(|ds|, i requires 0 <= i < |ds| => Bare(ds[i]))
  }

  /** `FakeCoreState.handler` for the catalog: the first driver alone, then the others. */
  function FakePage(c: Served, cursor: nat): Page {
    if cursor == 0 && |c.drivers| > 1 then Page(c.fingerprint, BareAll(c.drivers[..1]), 1)
    else if cursor >= 1 then Page(c.fingerprint, if c.drivers == [] then [] else BareAll(c.drivers[1..]), 0)
    else Page(c.fingerprint, BareAll(c.drivers), 0)
  }

  /**
   The contract of a paging server on the cursors it hands out itself: the page carries the current
   fingerprint and a slice that starts at the cursor; cursor 0 ends the list.
   */
  predicate PagesFaithfully(serve: Server, c: Served, cursor: nat) {
    var p := serve(c, cursor);
    && p.fingerprint == c.fingerprint
    && (cursor <= |c.drivers| ==>
          if p.nextCursor == 0 then p.drivers == BareAll(c.drivers[cursor..])
          else cursor <= p.nextCursor <= |c.drivers| && p.drivers == BareAll(c.drivers[cursor..p.nextCursor]))
  }

  ghost predicate FaithfulServer(serve: Server, cursors: set<nat>) {
    && 0 in cursors
    && forall c, k | k in cursors ::
         PagesFaithfully(serve, c, k) && (serve(c, k).nextCursor != 0 ==> serve(c, k).nextCursor in cursors)
  }

  lemma FakeServerIsFaithful()
    ensures FaithfulServer(FakePage, {0, 1})
  {
    forall c: Served, k: nat | k in {0, 1}
      ensures PagesFaithfully(FakePage, c, k)
    {
      assert c.drivers[0..] == c.drivers;
    }
  }

  // ----- the client

  /** One pass over the pages: what was gathered so far and where to continue. */
  datatype Pass = Pass(fingerprint: Option<string>, drivers: seq<Driver>, cursor: nat)

  const RESTART: Pass := Pass(None, [], 0)

  datatype Result = Got(catalog: Catalog, used: nat) | Failed | Unfinished

  function Merge(p: Pass, page: Page): Pass {
    Pass(Some(page.fingerprint), p.drivers + page.drivers, page.nextCursor)
  }

  /** `get_catalog` without its cache, against the replies still to come. */
  function Fetch(serve: Server, p: Pass, replies: seq<Reply>): Result
    decreases |replies|
  {
    if replies == [] then Unfinished
    else if replies[0].Raises? then Failed
    else
      var page := serve(replies[0].at, p.cursor);
      if p.fingerprint.Some? && p.fingerprint.value != page.fingerprint then
        Used(Fetch(serve, RESTART, replies[1..]))
      else if page.nextCursor == 0 then
        Got(Catalog(page.fingerprint, p.drivers + page.drivers), 1)
      else Used(Fetch(serve, Merge(p, page), replies[1..]))
  }

  function Used(r: Result): Result {
    if r.Got? then Got(r.catalog, r.used + 1) else r
  }

  /** Schemas by driver type, attached to whatever the server listed. */
  function Attach(c: Catalog, schemas: map<string, nat>): Catalog {
    c.(drivers := seq(|c.drivers|, i requires 0 <= i < |c.drivers| =>
      var d := c.drivers[i];
      if d.typeId in schemas then d.(schema := Some(schemas[d.typeId])) else d))
  }

  /** A driver keeps its place, name and commands, and gets the schema filed under its own name, if there is one. */
  lemma EachDriverGetsItsSchema(c: Catalog, schemas: map<string, nat>, i: nat)
    requires i < |c.drivers|
    ensures var (a, d) := (Attach(c, schemas), c.drivers[i]);
            && a.fingerprint == c.fingerprint && |a.drivers| == |c.drivers|
            && a.drivers[i].typeId == d.typeId && a.drivers[i].commandCount == d.commandCount
            && (d.typeId in schemas ==> a.drivers[i].schema == Some(schemas[d.typeId]))
            && (d.typeId !in schemas ==> a.drivers[i].schema == d.schema)
  {
  }

  /** Whether a fetch meets a changed fingerprint between two of its pages and starts over. */
  predicate StartsOver(serve: Server, p: Pass, replies: seq<Reply>)
    decreases |replies|
  {
    && replies != [] && replies[0].Serves?
    && var page := serve(replies[0].at, p.cursor);
       || (p.fingerprint.Some? && p.fingerprint.value != page.fingerprint)
       || (page.nextCursor != 0 && StartsOver(serve, Merge(p, page), replies[1..]))
  }

  class CatalogClient {
    var cache: Option<Catalog>
    const schemas: map<string, nat>

    constructor (schemas: map<string, nat>)
      ensures cache == None && this.schemas == schemas
    {
      cache := None;
      this.schemas := schemas;
    }

    /** `invalidate_catalog` */
    method Invalidate(fingerprint: Option<string>)
      modifies this`cache
      ensures cache == if fingerprint.None? || (old(cache).Some? && old(cache).value.fingerprint != fingerprint.value)
                       then None else old(cache)
    {
      if fingerprint.None? || (cache.Some? && cache.value.fingerprint != fingerprint.value) {
        cache := None;
      }
    }

    /** `get_catalog`; `replies` is what the server holds at each request, as far as this run gets. */
    method GetCatalog(forceRefresh: bool, serve: Server, replies: seq<Reply>) returns (r: Result)
      modifies this`cache
      ensures !forceRefresh && old(cache).Some? ==> r == Got(old(cache).value, 0) && cache == old(cache)
      ensures forceRefresh || old(cache).None? ==>
                match Fetch(serve, RESTART, replies)
                case Got(c, used) => r == Got(Attach(c, schemas), used) && cache == Some(r.catalog)
                case other => r == other && cache == if StartsOver(serve, RESTART, replies) then None else old(cache)
    {
      if !forceRefresh && cache.Some? {
        return Got(cache.value, 0);
      }
      var pass := RESTART;
      var i := 0;
      while i < |replies|
        invariant 0 <= i <= |replies|
        invariant Fetch(serve, RESTART, replies) == UsedBefore(i, Fetch(serve, pass, replies[i..]))
        invariant StartsOver(serve, RESTART, replies) ==> cache == None || StartsOver(serve, pass, replies[i..])
        invariant !StartsOver(serve, RESTART, replies) ==> cache == old(cache) && !StartsOver(serve, pass, replies[i..])
      {
        if replies[i].Raises? {
          return Failed;
        }
        var page := serve(replies[i].at, pass.cursor);
        i := i + 1;
        if pass.fingerprint.Some? && page.fingerprint != pass.fingerprint.value {
          cache := None;
          pass := RESTART;
          continue;
        }
        pass := Merge(pass, page);
        if page.nextCursor == 0 {
          var catalog := Attach(Catalog(page.fingerprint, pass.drivers), schemas);
          cache := Some(catalog);
          return Got(catalog, i);
        }
      }
      r := Unfinished;
    }
  }

  function UsedBefore(n: nat, r: Result): Result {
    if r.Got? then Got(r.catalog, r.used + n) else r
  }

  // ----- no torn catalog

  /** Equal fingerprints mean equal driver lists, among everything the server ever holds; schemas do not travel. */
  predicate FingerprintsIdentify(replies: seq<Reply>) {
    forall i, j | 0 <= i < |replies| && 0 <= j < |replies| && replies[i].Serves? && replies[j].Serves? ::
      replies[i].at.fingerprint == replies[j].at.fingerprint ==>
        BareAll(replies[i].at.drivers) == BareAll(replies[j].at.drivers)
  }

  /** `c` is the whole of what the server held, under that fingerprint, at request `i`. */
  predicate CompleteAt(c: Catalog, replies: seq<Reply>, i: nat) {
    i < |replies| && replies[i].Serves?
    && c.fingerprint == replies[i].at.fingerprint && c.drivers == BareAll(replies[i].at.drivers)
  }

  /** The gathered part is the beginning of the list that belongs to the pass's fingerprint. */
  ghost predicate Gathered(p: Pass, replies: seq<Reply>, cursors: set<nat>) {
    && p.cursor in cursors
    && (p.fingerprint.None? ==> p == RESTART)
    && (p.fingerprint.Some? ==>
          forall i :: 0 <= i < |replies| && replies[i].Serves? && replies[i].at.fingerprint == p.fingerprint.value ==>
            p.cursor <= |replies[i].at.drivers| && p.drivers == BareAll(replies[i].at.drivers[..p.cursor]))
  }

  lemma BareSplit(ds: seq<Driver>, a: nat, b: nat)
    requires a <= b <= |ds|
    ensures BareAll(ds[..a]) + BareAll(ds[a..b]) == BareAll(ds[..b])
    ensures BareAll(ds[..a]) + BareAll(ds[a..]) == BareAll(ds)
  {
  }

  lemma BarePrefix(a: seq<Driver>, b: seq<Driver>, k: nat)
    requires BareAll(a) == BareAll(b) && k <= |a|
    ensures |a| == |b| && BareAll(a[..k]) == BareAll(b[..k])
  {
    assert forall i :: 0 <= i < |a| ==> BareAll(a)[i] == BareAll(b)[i];
  }

  /** The page's part of the list is the same in every catalog with its fingerprint. */
  lemma PrefixIsShared(replies: seq<Reply>, k: nat)
    requires FingerprintsIdentify(replies) && replies != [] && replies[0].Serves? && k <= |replies[0].at.drivers|
    ensures forall i | 0 <= i < |replies| && replies[i].Serves?
                       && replies[i].at.fingerprint == replies[0].at.fingerprint ::
              k <= |replies[i].at.drivers|
              && BareAll(replies[i].at.drivers[..k]) == BareAll(replies[0].at.drivers[..k])
  {
    forall i | 0 <= i < |replies| && replies[i].Serves? && replies[i].at.fingerprint == replies[0].at.fingerprint
      ensures k <= |replies[i].at.drivers|
              && BareAll(replies[i].at.drivers[..k]) == BareAll(replies[0].at.drivers[..k])
    {
      BarePrefix(replies[0].at.drivers, replies[i].at.drivers, k);
    }
  }

  /** One page taken in keeps the pass a beginning of its list. */
  lemma GatherOne(serve: Server, cursors: set<nat>, p: Pass, replies: seq<Reply>)
    requires FaithfulServer(serve, cursors) && replies != [] && replies[0].Serves?
    requires FingerprintsIdentify(replies) && Gathered(p, replies, cursors)
    requires p.fingerprint.Some? ==> p.fingerprint.value == serve(replies[0].at, p.cursor).fingerprint
    ensures var page := serve(replies[0].at, p.cursor);
            && page.fingerprint == replies[0].at.fingerprint
            && (page.nextCursor == 0 ==> p.drivers + page.drivers == BareAll(replies[0].at.drivers))
            && (page.nextCursor != 0 ==> Gathered(Merge(p, page), replies, cursors))
  {
    var c := replies[0].at;
    var page := serve(c, p.cursor);
    assert PagesFaithfully(serve, c, p.cursor);
    assert p.cursor <= |c.drivers| && p.drivers == BareAll(c.drivers[..p.cursor]);
    if page.nextCursor == 0 {
      BareSplit(c.drivers, p.cursor, p.cursor);
    } else {
      BareSplit(c.drivers, p.cursor, page.nextCursor);
      PrefixIsShared(replies, page.nextCursor);
    }
  }

  /**
   However the catalog changes between requests, a catalog that is returned is complete: it is the
   whole list, in order, that the server held at the last request, under that one fingerprint.
   */
  lemma {:induction false} FetchIsNeverTorn(serve: Server, cursors: set<nat>, p: Pass, replies: seq<Reply>)
    requires FaithfulServer(serve, cursors) && FingerprintsIdentify(replies) && Gathered(p, replies, cursors)
    ensures var r := Fetch(serve, p, replies);
            r.Got? ==> r.used >= 1 && CompleteAt(r.catalog, replies, r.used - 1)
    decreases |replies|
  {
    if replies != [] && replies[0].Serves? {
      var page := serve(replies[0].at, p.cursor);
      var rest := replies[1..];
      assert PagesFaithfully(serve, replies[0].at, p.cursor);
      if p.fingerprint.Some? && p.fingerprint.value != page.fingerprint {
        FetchIsNeverTorn(serve, cursors, RESTART, rest);
      } else {
        GatherOne(serve, cursors, p, replies);
        if page.nextCursor != 0 {
          GatheredLater(Merge(p, page), replies, cursors);
          FetchIsNeverTorn(serve, cursors, Merge(p, page), rest);
        }
      }
    }
  }

  lemma GatheredLater(p: Pass, replies: seq<Reply>, cursors: set<nat>)
    requires replies != [] && Gathered(p, replies, cursors)
    ensures Gathered(p, replies[1..], cursors)
  {
  }

  /** The same for the client's result, schemas attached: drivers, order and fingerprint are the server's. */
  lemma ReturnedCatalogIsComplete(serve: Server, cursors: set<nat>, replies: seq<Reply>, schemas: map<string, nat>)
    requires FaithfulServer(serve, cursors) && FingerprintsIdentify(replies)
    requires Fetch(serve, RESTART, replies).Got?
    ensures var r := Fetch(serve, RESTART, replies);
            var c := Attach(r.catalog, schemas);
            && 1 <= r.used <= |replies| && replies[r.used - 1].Serves?
            && c.fingerprint == replies[r.used - 1].at.fingerprint
            && BareAll(c.drivers) == BareAll(replies[r.used - 1].at.drivers)
  {
    FetchIsNeverTorn(serve, cursors, RESTART, replies);
  }

  // ----- the fake Core: when a list can be torn, exactly, and when a fetch ends

  ghost predicate DrawnFrom(replies: seq<Reply>, held: iset<Served>) {
    forall i :: 0 <= i < |replies| && replies[i].Serves? ==> replies[i].at in held
  }

  /** No fetch against a fake Core that moves among `held` returns a torn list. */
  ghost predicate NeverTorn(held: iset<Served>) {
    forall replies: seq<Reply> | DrawnFrom(replies, held) :: Untorn(replies)
  }

  predicate Untorn(replies: seq<Reply>) {
    var r := Fetch(FakePage, RESTART, replies);
    r.Got? ==> r.used >= 1 && CompleteAt(r.catalog, replies, r.used - 1)
  }

  /** Catalogs under one fingerprint agree on their first driver, as soon as one of them needs two pages. */
  ghost predicate HeadsAgree(held: iset<Served>) {
    forall a, b | a in held && b in held && a.fingerprint == b.fingerprint && |a.drivers| > 1 ::
      b.drivers != [] && Bare(a.drivers[0]) == Bare(b.drivers[0])
  }

  /** A pass of the client against the fake Core: at the start, or after the first page of `a`. */
  predicate AfterFirstPage(p: Pass, a: Served) {
    |a.drivers| > 1 && p == Pass(Some(a.fingerprint), BareAll(a.drivers[..1]), 1)
  }

  lemma ReplacedHead<T>(x: T, s: seq<T>)
    requires s != []
    ensures [x] + s[1..] == s <==> x == s[0]
  {
    assert ([x] + s[1..])[0] == x;
    assert s == [s[0]] + s[1..];
  }

  lemma HeadAndTail(a: Served, b: Served)
    requires |a.drivers| > 1 && b.drivers != []
    ensures BareAll(a.drivers[..1]) + BareAll(b.drivers[1..]) == BareAll(b.drivers)
       <==> Bare(a.drivers[0]) == Bare(b.drivers[0])
  {
    hide Bare;
    var whole := BareAll(b.drivers);
    assert BareAll(a.drivers[..1]) == [Bare(a.drivers[0])];
    assert BareAll(b.drivers[1..]) == whole[1..];
    ReplacedHead(Bare(a.drivers[0]), whole);
  }

  lemma {:induction false} AgreeingHeadsNeverTear(held: iset<Served>, p: Pass, a: Served, replies: seq<Reply>)
    requires HeadsAgree(held) && DrawnFrom(replies, held)
    requires p == RESTART || (a in held && AfterFirstPage(p, a))
    ensures var r := Fetch(FakePage, p, replies);
            r.Got? ==> r.used >= 1 && CompleteAt(r.catalog, replies, r.used - 1)
    decreases |replies|
  {
    if replies != [] && replies[0].Serves? {
      var b, rest := replies[0].at, replies[1..];
      var page := FakePage(b, p.cursor);
      assert b in held;
      if p != RESTART && a.fingerprint != b.fingerprint {
        AgreeingHeadsNeverTear(held, RESTART, a, rest);
      } else if p != RESTART {
        HeadAndTail(a, b);
      } else if page.nextCursor != 0 {
        assert [] + BareAll(b.drivers[..1]) == BareAll(b.drivers[..1]);
        AgreeingHeadsNeverTear(held, Merge(p, page), b, rest);
      } else {
        assert [] + BareAll(b.drivers) == BareAll(b.drivers);
      }
    }
  }

  lemma TwoPagesOf(a: Served, b: Served)
    requires a.fingerprint == b.fingerprint && |a.drivers| > 1
    ensures Fetch(FakePage, RESTART, [Serves(a), Serves(b)])
         == Got(Catalog(a.fingerprint, BareAll(a.drivers[..1]) + FakePage(b, 1).drivers), 2)
  {
    var replies := [Serves(a), Serves(b)];
    assert replies[1..] == [Serves(b)];
    assert [] + BareAll(a.drivers[..1]) == BareAll(a.drivers[..1]);
  }

  /**
   The exact condition under which the fake Core's catalog, however it changes, is never returned
   torn: it is enough, and necessary, that catalogs sharing a fingerprint agree on the first driver.
   */
  lemma NeverTornExactly(held: iset<Served>)
    ensures NeverTorn(held) <==> HeadsAgree(held)
  {
    if HeadsAgree(held) {
      forall replies: seq<Reply> | DrawnFrom(replies, held) ensures Untorn(replies) {
        AgreeingHeadsNeverTear(held, RESTART, Served("", []), replies);
      }
    } else {
      var a, b :| a in held && b in held && a.fingerprint == b.fingerprint && |a.drivers| > 1
                  && !(b.drivers != [] && Bare(a.drivers[0]) == Bare(b.drivers[0]));
      TwoPagesOf(a, b);
      var replies := [Serves(a), Serves(b)];
      if b.drivers != [] {
        HeadAndTail(a, b);
      } else {
        assert |BareAll(a.drivers[..1])| == 1;
      }
      assert DrawnFrom(replies, held) && !Untorn(replies);
    }
  }

  /** A history that breaks the condition: one fingerprint, two lists, and a list that never existed is returned. */
  lemma ReusedFingerprintTears()
    ensures var (a, b, x) := (Driver("a", 0, None), Driver("b", 0, None), Driver("x", 0, None));
            var replies := [Serves(Served("f", [a, b])), Serves(Served("f", [x, x]))];
            Fetch(FakePage, RESTART, replies) == Got(Catalog("f", [a, x]), 2)
  {
    var (a, b, x) := (Driver("a", 0, None), Driver("b", 0, None), Driver("x", 0, None));
    TwoPagesOf(Served("f", [a, b]), Served("f", [x, x]));
    assert [a, b][..1] == [a] && [x, x][1..] == [x];
    assert BareAll([a]) + BareAll([x]) == [a, x];
  }

  /** Where a client of the fake Core can be: at the start, or behind a first page. */
  predicate FakePass(p: Pass) {
    p == RESTART || (p.fingerprint.Some? && p.cursor == 1)
  }

  lemma {:induction false} EndsOnceSteady(p: Pass, before: seq<Reply>, c: Served, after: seq<Reply>)
    requires FakePass(p) && forall i :: 0 <= i < |before| ==> before[i].Serves?
    ensures var r := Fetch(FakePage, p, before + [Serves(c), Serves(c), Serves(c)] + after);
            r.Got? && 1 <= r.used <= |before| + 3
    decreases |before|
  {
    var three := [Serves(c), Serves(c), Serves(c)];
    var replies := before + three + after;
    if before != [] {
      var page := FakePage(before[0].at, p.cursor);
      assert replies[0] == before[0] && replies[1..] == before[1..] + three + after;
      EndsOnceSteady(RESTART, before[1..], c, after);
      if p == RESTART && page.nextCursor != 0 {
        EndsOnceSteady(Merge(p, page), before[1..], c, after);
      }
    } else {
      var rest, last := replies[1..], replies[1..][1..];
      assert replies[0] == rest[0] == last[0] == Serves(c);
      assert Fetch(FakePage, Merge(RESTART, FakePage(c, 0)), last).Got? || |c.drivers| <= 1;
      assert Fetch(FakePage, Merge(RESTART, FakePage(c, 0)), rest).Got? || |c.drivers| <= 1;
    }
  }

  /**
   From any point of a fetch, whatever the fake Core held before: once it answers three requests in a
   row from one catalog the fetch is over, and if it was not over before, that catalog is returned.
   */
  lemma SteadyFakeServerIsRead(held: iset<Served>, before: seq<Reply>, c: Served, after: seq<Reply>)
    requires forall i :: 0 <= i < |before| ==> before[i].Serves?
    requires HeadsAgree(held) && DrawnFrom(before + [Serves(c), Serves(c), Serves(c)] + after, held)
    ensures var r := Fetch(FakePage, RESTART, before + [Serves(c), Serves(c), Serves(c)] + after);
            && r.Got? && r.used <= |before| + 3
            && (r.used > |before| ==> r.catalog == Catalog(c.fingerprint, BareAll(c.drivers)))
  {
    var replies := before + [Serves(c), Serves(c), Serves(c)] + after;
    EndsOnceSteady(RESTART, before, c, after);
    AgreeingHeadsNeverTear(held, RESTART, c, replies);
    var r := Fetch(FakePage, RESTART, replies);
    assert r.used > |before| ==> replies[r.used - 1] == Serves(c);
  }

  /** A call that raises ends the fetch at once, unless it was over before; nothing but that fails it. */
  lemma {:induction false} RaisingFailsExactly(serve: Server, p: Pass, before: seq<Reply>, after: seq<Reply>)
    requires forall i :: 0 <= i < |before| ==> before[i].Serves?
    ensures !Fetch(serve, p, before).Failed?
    ensures Fetch(serve, p, before + [Raises] + after)
         == if Fetch(serve, p, before).Got? then Fetch(serve, p, before) else Failed
    decreases |before|
  {
    var replies := before + [Raises] + after;
    if before != [] {
      var page := serve(before[0].at, p.cursor);
      assert replies[0] == before[0] && replies[1..] == before[1..] + [Raises] + after;
      RaisingFailsExactly(serve, RESTART, before[1..], after);
      RaisingFailsExactly(serve, Merge(p, page), before[1..], after);
    }
  }

  /** From a fake Core that holds still, a catalog costs one request, or two if it has more than one driver. */
  lemma SteadyFetchCosts(c: Served, after: seq<Reply>)
    ensures Fetch(FakePage, RESTART, [Serves(c), Serves(c)] + after)
         == Got(Catalog(c.fingerprint, BareAll(c.drivers)), if |c.drivers| > 1 then 2 else 1)
  {
    var replies := [Serves(c), Serves(c)] + after;
    var rest := replies[1..];
    assert replies[0] == Serves(c) == rest[0];
    assert [] + BareAll(c.drivers) == BareAll(c.drivers);
    if |c.drivers| > 1 {
      assert [] + BareAll(c.drivers[..1]) == BareAll(c.drivers[..1]);
      HeadAndTail(c, c);
    }
  }

  /** The cache of an earlier catalog is dropped before a new one arrives exactly when the first two pages disagree. */
  lemma CacheIsDroppedExactly(replies: seq<Reply>)
    ensures StartsOver(FakePage, RESTART, replies)
       <==> && |replies| >= 2 && replies[0].Serves? && replies[1].Serves? && |replies[0].at.drivers| > 1
            && replies[0].at.fingerprint != replies[1].at.fingerprint
  {
    if |replies| >= 2 {
      assert replies[1..][0] == replies[1];
    }
  }
}
