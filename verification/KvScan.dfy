/** The paging scan iterator of util/redis_ext/kvscan.go, over a server that answers each request by its cursor. */
module KvScan {
  /** A reply to one scan command: a page and the cursor of the next request, or an error. */
  datatype Reply = Page(items: seq<string>, cursor: string) | Failed

  /** The reply to request number `n` with a given cursor. */
  type Server = (nat, string) -> Reply

  predicate Ends(r: Reply) { r.Failed? || r.cursor == "0" }

  /** From request `n` on, each sent with the cursor of the reply before it, some reply within `limit` is the last. */
  predicate EndsWithin(server: Server, n: nat, cursor: string, limit: nat)
    decreases limit
  {
    limit > 0 && var r := server(n, cursor); Ends(r) || EndsWithin(server, n + 1, r.cursor, limit - 1)
  }

  function ItemsOf(r: Reply): seq<string> { if r.Page? then r.items else [] }

  /** The pages of that chain of requests; an error has no items. */
  function PagesFrom(server: Server, n: nat, cursor: string, limit: nat): seq<seq<string>>
    decreases limit
  {
    if limit == 0 then []
    else
      var r := server(n, cursor);
      [ItemsOf(r)] + (if Ends(r) then [] else PagesFrom(server, n + 1, r.cursor, limit - 1))
  }

  /** The pages of a chain of replies. */
  function PagesOf(replies: seq<Reply>): seq<seq<string>> {
    seq(|replies|, i requires 0 <= i < |replies| => if replies[i].Page? then replies[i].items else [])
  }

  /** Replies of the server, each to the cursor of the one before. */
  predicate Chained(server: Server, n: nat, cursor: string, replies: seq<Reply>)
    decreases |replies|
  {
    && replies != [] && replies[0] == server(n, cursor)
    && (|replies| > 1 ==> replies[0].Page? && Chained(server, n + 1, replies[0].cursor, replies[1..]))
  }

  /**
   * Following the cursors gives the pages of the whole chain: up to the first failure or the first reply with
   * cursor "0", whatever pages are empty on the way.
   */
  lemma {:induction false} PagesAreThoseOfTheChain(
      server: Server, n: nat, cursor: string, replies: seq<Reply>, limit: nat)
    requires Chained(server, n, cursor, replies) && |replies| <= limit
    requires forall k :: 0 <= k < |replies| - 1 ==> replies[k].Page? && replies[k].cursor != "0"
    requires replies[|replies| - 1].Failed? || replies[|replies| - 1].cursor == "0"
    ensures EndsWithin(server, n, cursor, limit) && PagesFrom(server, n, cursor, limit) == PagesOf(replies)
    decreases |replies|
  {
    if |replies| > 1 {
      var tail := replies[1..];
      assert tail[|tail| - 1] == replies[|replies| - 1];
      PagesAreThoseOfTheChain(server, n + 1, replies[0].cursor, tail, limit - 1);
      assert PagesOf(replies) == [ItemsOf(replies[0])] + PagesOf(tail);
    }
  }

  /** Any sufficient limit gives the same pages. */
  lemma {:induction false} LimitIsNoMatter(server: Server, n: nat, cursor: string, limit: nat, more: nat)
    requires EndsWithin(server, n, cursor, limit) && limit <= more
    ensures EndsWithin(server, n, cursor, more)
    ensures PagesFrom(server, n, cursor, limit) == PagesFrom(server, n, cursor, more)
    decreases limit
  {
    var r := server(n, cursor);
    if !Ends(r) { LimitIsNoMatter(server, n + 1, r.cursor, limit - 1, more - 1); }
  }

  // ---------------------------------------------------------------- pages, items and pairs

  /** All items of the pages, in order. */
  function Flatten(pages: seq<seq<string>>): seq<string> {
    if pages == [] then [] else pages[0] + Flatten(pages[1..])
  }

  /** The pairs of a page; an odd item at its end has the empty value. */
  function PagePairs(page: seq<string>): seq<(string, string)> {
    if page == [] then []
    else if |page| == 1 then [(page[0], "")]
    else [(page[0], page[1])] + PagePairs(page[2..])
  }

  function Pairs(pages: seq<seq<string>>): seq<(string, string)> {
    if pages == [] then [] else PagePairs(pages[0]) + Pairs(pages[1..])
  }

  /** The consecutive pairs of a sequence, without the last item of an odd one. */
  function Consecutive(items: seq<string>): seq<(string, string)> {
    if |items| < 2 then [] else [(items[0], items[1])] + Consecutive(items[2..])
  }

  /** Pair number `k` is made of the items number `2k` and `2k + 1`. */
  lemma {:induction false} ConsecutiveAt(items: seq<string>, k: nat)
    ensures |Consecutive(items)| == |items| / 2
    ensures k < |items| / 2 ==> Consecutive(items)[k] == (items[2 * k], items[2 * k + 1])
  {
    if |items| >= 2 {
      ConsecutiveAt(items[2..], if k > 0 then k - 1 else 0);
      assert k > 0 && k < |items| / 2 ==> items[2..][2 * (k - 1)] == items[2 * k];
    }
  }

  function SkipEmpty(pages: seq<seq<string>>): seq<seq<string>> {
    if pages != [] && pages[0] == [] then SkipEmpty(pages[1..]) else pages
  }

  lemma {:induction false} SkippingLosesNothing(pages: seq<seq<string>>)
    ensures Flatten(SkipEmpty(pages)) == Flatten(pages) && Pairs(SkipEmpty(pages)) == Pairs(pages)
  {
    if pages != [] && pages[0] == [] {
      var tail := pages[1..];
      assert pages == [[]] + tail;
      FlattenCons([], tail);
      SkippingLosesNothing(tail);
    }
  }

  lemma FlattenCons(page: seq<string>, pages: seq<seq<string>>)
    ensures Flatten([page] + pages) == page + Flatten(pages) && Pairs([page] + pages) == PagePairs(page) + Pairs(pages)
  {
    assert ([page] + pages)[1..] == pages;
  }

  lemma SkipCons(page: seq<string>, pages: seq<seq<string>>)
    ensures SkipEmpty([page] + pages) == if page == [] then SkipEmpty(pages) else [page] + pages
  {
    assert ([page] + pages)[1..] == pages;
  }

  // ---------------------------------------------------------------- when pages give the consecutive pairs

  ghost predicate EvenPages(pages: seq<seq<string>>) { forall k :: 0 <= k < |pages| ==> |pages[k]| % 2 == 0 }

  lemma {:induction false} ConsecutiveConcat(p: seq<string>, q: seq<string>)
    requires |p| % 2 == 0
    ensures Consecutive(p + q) == PagePairs(p) + Consecutive(q)
  {
    if p == [] {
      assert p + q == q;
    } else {
      ConsecutiveConcat(p[2..], q);
      assert (p + q)[2..] == p[2..] + q;
    }
  }

  function OddPages(pages: seq<seq<string>>): nat {
    if pages == [] then 0 else |pages[0]| % 2 + OddPages(pages[1..])
  }

  lemma {:induction false} PagePairsLength(page: seq<string>)
    ensures 2 * |PagePairs(page)| == |page| + |page| % 2
  {
    if |page| > 1 { PagePairsLength(page[2..]); }
  }

  lemma {:induction false} PairsLength(pages: seq<seq<string>>)
    ensures 2 * |Pairs(pages)| == |Flatten(pages)| + OddPages(pages)
    ensures OddPages(pages) == 0 <==> EvenPages(pages)
  {
    if pages != [] {
      PagePairsLength(pages[0]);
      PairsLength(pages[1..]);
      assert EvenPages(pages) <==> |pages[0]| % 2 == 0 && EvenPages(pages[1..]) by {
        assert pages == [pages[0]] + pages[1..];
      }
    }
  }

  lemma {:induction false} EvenPagesPairUp(pages: seq<seq<string>>)
    requires EvenPages(pages)
    ensures Pairs(pages) == Consecutive(Flatten(pages))
  {
    if pages != [] {
      ConsecutiveConcat(pages[0], Flatten(pages[1..]));
      EvenPagesPairUp(pages[1..]);
    }
  }

  /** The pairs page by page are the consecutive pairs of all items exactly when every page has an even length. */
  lemma PairsAreConsecutive(pages: seq<seq<string>>)
    ensures Pairs(pages) == Consecutive(Flatten(pages)) <==> EvenPages(pages)
  {
    if EvenPages(pages) { EvenPagesPairUp(pages); }
    PairsLength(pages);
    ConsecutiveAt(Flatten(pages), 0);
  }

  // ---------------------------------------------------------------- the iterator

  class KvScanIterator {
    const server: Server
    /** The cursor argument of the command, and how many commands were sent. */
    var cursorArg: string
    var requests: nat
    var page: seq<string>
    var cursor: string
    var failed: bool
    var pos: nat
    /** Within so many requests the chain ends. */
    ghost var limit: nat

    ghost predicate Valid()
      reads this
    {
      pos <= |page| + 1 && (!failed && cursor != "0" ==> EndsWithin(server, requests, cursor, limit))
    }

    /** The pages not fetched yet. */
    ghost function Unfetched(): seq<seq<string>>
      reads this
    {
      if cursor == "0" then [] else PagesFrom(server, requests, cursor, limit)
    }

    function PageFrom(i: nat): seq<string>
      reads this
    {
      if i <= |page| then page[i..] else []
    }

    /** What is left of the current page, and the pages behind it. */
    ghost function Ahead(): seq<seq<string>>
      reads this
    {
      if failed then [] else [PageFrom(pos)] + Unfetched()
    }

    /** The current item is the first one of these pages, which are all that is left. */
    ghost predicate IsAt(pages: seq<seq<string>>)
      reads this
    {
      !failed && 0 < pos <= |page| && pages == [PageFrom(pos - 1)] + Unfetched()
    }

    /** Sends the command with `start` and reads the first reply. */
    constructor (server: Server, start: string, ghost limit: nat)
      requires EndsWithin(server, 0, start, limit)
      ensures Valid() && this.server == server
      ensures SkipEmpty(Ahead()) == SkipEmpty(PagesFrom(server, 0, start, limit))
    {
      this.server, this.limit, cursorArg, requests, pos := server, limit - 1, start, 1, 0;
      var reply := server(0, start);
      if reply.Page? {
        page, cursor, failed := reply.items, reply.cursor, false;
      } else {
        page, cursor, failed := [], "", true;
      }
      new;
      assert PageFrom(0) == ItemsOf(reply);
      SkipCons(ItemsOf(reply), []);
    }

    /** The next page is asked for with the cursor of the last reply. */
    method Fetch() returns (ok: bool)
      requires Valid() && !failed && cursor != "0"
      modifies this
      ensures Valid() && failed == !ok && limit < old(limit)
      ensures ok ==> pos == 1 && [page] + Unfetched() == old(Unfetched())
      ensures !ok ==> SkipEmpty(old(Unfetched())) == []
    {
      cursorArg := cursor;
      var reply := server(requests, cursorArg);
      requests := requests + 1;
      limit := limit - 1;
      if reply.Failed? {
        SkipCons([], []);
        failed := true;
        return false;
      }
      page, cursor := reply.items, reply.cursor;
      pos := 1;
      return true;
    }

    /**
     * Moves to the next item, fetching pages as needed, empty ones included. It answers true exactly while items
     * are to come, and once it has answered false it does so for ever.
     */
    method Next() returns (more: bool)
      requires Valid()
      modifies this
      ensures Valid() && more == (SkipEmpty(old(Ahead())) != [])
      ensures more ==> IsAt(SkipEmpty(old(Ahead())))
      ensures !more ==> SkipEmpty(Ahead()) == []
    {
      hide EndsWithin, PagesFrom, SkipEmpty;
      NothingToSkip();
      if failed {
        return false;
      }
      SkipCons(PageFrom(pos), Unfetched());
      if pos < |page| {
        pos := pos + 1;
        return true;
      }
      while true
        invariant Valid() && !failed && pos >= |page| && SkipEmpty(Unfetched()) == SkipEmpty(old(Ahead()))
        decreases limit
      {
        if cursor == "0" {
          assert PageFrom(pos) == [] && Unfetched() == [];
          SkipCons(PageFrom(pos), Unfetched());
          return false;
        }
        var ok := Fetch();
        if !ok {
          return false;
        }
        SkipCons(page, Unfetched());
        if |page| > 0 {
          assert PageFrom(0) == page;
          return true;
        }
      }
    }

    function Val(): string
      reads this
    {
      if !failed && 0 < pos <= |page| then page[pos - 1] else ""
    }

    /** The current item as a key, and the one after it, if the page has one, as its value; moves onto that one. */
    method KeyVal() returns (k: string, v: string)
      requires Valid()
      modifies this`pos
      ensures Valid() && k == old(Val()) && Unfetched() == old(Unfetched())
      ensures pos == if !failed && 0 < old(pos) <= |page| then old(pos) + 1 else old(pos)
      ensures v == if !failed && 0 < old(pos) < |page| then page[old(pos)] else ""
    {
      k, v := "", "";
      if !failed && 0 < pos <= |page| {
        k := page[pos - 1];
        pos := pos + 1;
        if pos <= |page| {
          v := page[pos - 1];
        }
      }
    }
  }

  lemma NothingToSkip()
    ensures SkipEmpty([]) == []
  {}

  // ---------------------------------------------------------------- the loops around it

  /** One item is read off the current page, and the loop goes on with what is ahead then. */
  lemma OneItemLess(page: seq<string>, tail: seq<seq<string>>)
    requires page != []
    ensures var ahead := SkipEmpty([page[1..]] + tail);
      Flatten([page] + tail) == [page[0]] + Flatten(ahead) && |Flatten(ahead)| < |Flatten([page] + tail)|
  {
    hide SkipEmpty, Flatten;
    FlattenCons(page, tail);
    FlattenCons(page[1..], tail);
    SkippingLosesNothing([page[1..]] + tail);
    assert page + Flatten(tail) == [page[0]] + (page[1..] + Flatten(tail));
  }

  function BehindPair(page: seq<string>): seq<string> { if |page| > 1 then page[2..] else [] }

  lemma OnePairLess(page: seq<string>, tail: seq<seq<string>>)
    requires page != []
    ensures var ahead := SkipEmpty([BehindPair(page)] + tail);
      && Pairs([page] + tail) == [(page[0], if |page| > 1 then page[1] else "")] + Pairs(ahead)
      && |Flatten(ahead)| < |Flatten([page] + tail)|
  {
    hide SkipEmpty, Flatten, Pairs;
    var rest := BehindPair(page);
    FlattenCons(page, tail);
    FlattenCons(rest, tail);
    SkippingLosesNothing([rest] + tail);
    assert PagePairs(page) == [(page[0], if |page| > 1 then page[1] else "")] + PagePairs(rest);
  }

  lemma NoPages()
    ensures Flatten([]) == [] && Pairs([]) == []
  {}

  /** The loop around Next and Val yields exactly the pages' items, in order, and then Next is false for ever. */
  method ScanAll(server: Server, start: string, ghost limit: nat) returns (items: seq<string>, it: KvScanIterator)
    requires EndsWithin(server, 0, start, limit)
    ensures items == Flatten(PagesFrom(server, 0, start, limit))
    ensures it.Valid() && SkipEmpty(it.Ahead()) == []
  {
    hide EndsWithin, PagesFrom, SkipEmpty, Flatten, KvScanIterator.Unfetched;
    NoPages();
    it := new KvScanIterator(server, start, limit);
    SkippingLosesNothing(PagesFrom(server, 0, start, limit));
    items := [];
    ghost var pages := SkipEmpty(it.Ahead());
    var more := it.Next();
    while more
      invariant it.Valid() && more == (pages != [])
      invariant items + Flatten(pages) == Flatten(PagesFrom(server, 0, start, limit))
      invariant if more then it.IsAt(pages) else SkipEmpty(it.Ahead()) == []
      decreases |Flatten(pages)|
    {
      ghost var page := it.PageFrom(it.pos - 1);
      OneItemLess(page, it.Unfetched());
      assert page[1..] == it.PageFrom(it.pos);
      items := items + [it.Val()];
      pages := SkipEmpty(it.Ahead());
      more := it.Next();
    }
  }

  /** The loop around Next and KeyVal yields exactly the pairs of each page, page by page. */
  method ScanPairs(server: Server, start: string, ghost limit: nat) returns (pairs: seq<(string, string)>)
    requires EndsWithin(server, 0, start, limit)
    ensures pairs == Pairs(PagesFrom(server, 0, start, limit))
  {
    hide EndsWithin, PagesFrom, SkipEmpty, Flatten, Pairs, KvScanIterator.Unfetched;
    NoPages();
    var it := new KvScanIterator(server, start, limit);
    SkippingLosesNothing(PagesFrom(server, 0, start, limit));
    pairs := [];
    ghost var pages := SkipEmpty(it.Ahead());
    var more := it.Next();
    while more
      invariant it.Valid() && more == (pages != [])
      invariant pairs + Pairs(pages) == Pairs(PagesFrom(server, 0, start, limit))
      invariant more ==> it.IsAt(pages)
      decreases |Flatten(pages)|
    {
      ghost var page := it.PageFrom(it.pos - 1);
      OnePairLess(page, it.Unfetched());
      var k, v := it.KeyVal();
      assert BehindPair(page) == it.PageFrom(it.pos);
      pairs := pairs + [(k, v)];
      pages := SkipEmpty(it.Ahead());
      more := it.Next();
    }
  }
}
