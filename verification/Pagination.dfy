/** The loops that read a listing page by page, and the refresh of the organisation's members. */
module Pagination {
  import opened Wrappers

  const HTTP_OK: int := 200

  datatype Page<T> = Page(items: seq<T>, status: int, nextPage: nat)

  /** What the service answers when asked for a page; None is an error of the request itself. */
  type Listing<!T> = nat -> Option<Page<T>>

  predicate Readable<T>(listing: Listing<T>, page: nat) {
    listing(page).Some? && listing(page).value.status == 200
  }

  /** Page numbers only grow, up to `last`. */
  ghost predicate Increasing<T>(listing: Listing<T>, last: nat) {
    forall p: nat :: p <= last && listing(p).Some? && listing(p).value.nextPage != 0 ==> p < listing(p).value.nextPage <= last
  }

  predicate LinksTo<T>(listing: Listing<T>, page: nat, next: nat) {
    Readable(listing, page) && next != 0 && listing(page).value.nextPage == next
  }

  /** `pages` starts at the first page and follows the links of readable pages. */
  ghost predicate IsChain<T>(listing: Listing<T>, pages: seq<nat>) {
    && pages != [] && pages[0] == 0
    && forall j, k :: 0 <= j < k < |pages| && k == j + 1 ==> LinksTo(listing, pages[j], pages[k])
  }

  /** A chain that reaches the page without a successor. */
  ghost predicate IsWhole<T>(listing: Listing<T>, pages: seq<nat>) {
    IsChain(listing, pages) && Readable(listing, pages[|pages| - 1]) && listing(pages[|pages| - 1]).value.nextPage == 0
  }

  function ItemsOf<T>(listing: Listing<T>, page: nat): seq<T> {
    if listing(page).Some? then listing(page).value.items else []
  }

  predicate StandsAt<T(==)>(part: seq<T>, start: nat, all: seq<T>) {
    start + |part| <= |all| && all[start..start + |part|] == part
  }

  /** `all` is the items of `pages` one page after the other; those of page `k` begin at `starts[k]`. */
  ghost predicate Concatenates<T>(listing: Listing<T>, pages: seq<nat>, starts: seq<nat>, all: seq<T>) {
    && |starts| == |pages| + 1 && starts[0] == 0 && starts[|pages|] == |all|
    && (forall k :: 0 <= k < |pages| ==> starts[k + 1] == starts[k] + |ItemsOf(listing, pages[k])|)
    && forall k :: 0 <= k < |pages| ==> StandsAt(ItemsOf(listing, pages[k]), starts[k], all)
  }

  lemma StandsMore<T>(part: seq<T>, start: nat, all: seq<T>, items: seq<T>)
    ensures StandsAt(part, start, all) ==> StandsAt(part, start, all + items)
    ensures StandsAt(items, |all|, all + items)
  {
    if StandsAt(part, start, all) {
      assert (all + items)[start..start + |part|] == all[start..start + |part|];
    }
  }

  lemma ConcatenatesMore<T>(listing: Listing<T>, pages: seq<nat>, starts: seq<nat>, all: seq<T>, page: nat)
    requires Concatenates(listing, pages, starts, all)
    ensures
      var more := all + ItemsOf(listing, page);
      Concatenates(listing, pages + [page], starts + [|more|], more)
  {
    var items := ItemsOf(listing, page);
    var more := all + items;
    var pages', starts' := pages + [page], starts + [|more|];
    forall k | 0 <= k < |pages'|
      ensures starts'[k + 1] == starts'[k] + |ItemsOf(listing, pages'[k])|
      ensures StandsAt(ItemsOf(listing, pages'[k]), starts'[k], more)
    {
      if k < |pages| {
        StandsMore(ItemsOf(listing, pages[k]), starts[k], all, items);
      } else {
        StandsMore(items, |all|, all, items);
      }
    }
  }

  lemma ChainMore<T>(listing: Listing<T>, read: seq<nat>, page: nat, next: nat)
    requires IsChain(listing, read + [page]) && LinksTo(listing, page, next)
    ensures IsChain(listing, read + [page] + [next])
  {
  }

  /** The pages determine the whole: nothing is lost, repeated or out of order. */
  lemma ConcatenationIsUnique<T>(
      listing: Listing<T>, pages: seq<nat>, starts: seq<nat>, all: seq<T>, starts': seq<nat>, all': seq<T>)
    requires Concatenates(listing, pages, starts, all) && Concatenates(listing, pages, starts', all')
    ensures starts == starts' && all == all'
  {
    forall n | 0 <= n < |starts|
      ensures starts[n] == starts'[n]
    {
      StartsAgree(listing, pages, starts, all, starts', all', n);
    }
    assert starts == starts';
    forall x | 0 <= x < |all|
      ensures all[x] == all'[x]
    {
      ItemAgrees(listing, pages, starts, all, all', x);
    }
  }

  lemma ItemAgrees<T>(
      listing: Listing<T>, pages: seq<nat>, starts: seq<nat>, all: seq<T>, all': seq<T>, x: nat)
    requires Concatenates(listing, pages, starts, all) && Concatenates(listing, pages, starts, all') && x < |all|
    ensures all[x] == all'[x]
  {
    var k := PageOf(listing, pages, starts, all, x, |pages|);
    StandsTwice(ItemsOf(listing, pages[k]), starts[k], all, all', x);
  }

  lemma StandsTwice<T>(part: seq<T>, start: nat, a: seq<T>, b: seq<T>, x: nat)
    requires StandsAt(part, start, a) && StandsAt(part, start, b) && start <= x < start + |part|
    ensures a[x] == b[x]
  {
    assert a[x] == a[start..start + |part|][x - start] && b[x] == b[start..start + |part|][x - start];
  }

  lemma {:induction false} StartsAgree<T>(
      listing: Listing<T>, pages: seq<nat>, starts: seq<nat>, all: seq<T>, starts': seq<nat>, all': seq<T>, n: nat)
    requires Concatenates(listing, pages, starts, all) && Concatenates(listing, pages, starts', all') && n <= |pages|
    ensures starts[n] == starts'[n]
  {
    if n > 0 {
      StartsAgree(listing, pages, starts, all, starts', all', n - 1);
      assert starts[n - 1 + 1] == starts'[n - 1 + 1];
    }
  }

  /** The page among the first `n` that holds position `x`. */
  lemma {:induction false} PageOf<T>(
      listing: Listing<T>, pages: seq<nat>, starts: seq<nat>, all: seq<T>, x: nat, n: nat) returns (k: nat)
    requires Concatenates(listing, pages, starts, all) && n <= |pages| && x < starts[n]
    ensures k < n && starts[k] <= x < starts[k + 1]
  {
    k := n - 1;
    if x < starts[k] {
      k := PageOf(listing, pages, starts, all, x, k);
    }
  }

  /** A listing has at most one whole chain. */
  lemma {:induction false} ChainsAgree<T>(listing: Listing<T>, a: seq<nat>, b: seq<nat>, k: nat)
    requires IsChain(listing, a) && IsChain(listing, b) && k < |a| && k < |b|
    ensures a[..k + 1] == b[..k + 1]
  {
    if k > 0 {
      ChainsAgree(listing, a, b, k - 1);
      assert a[..k + 1] == a[..k] + [a[k]] && b[..k + 1] == b[..k] + [b[k]];
      assert a[..k][k - 1] == b[..k][k - 1];
    }
  }

  lemma EndsOrLinks<T>(listing: Listing<T>, pages: seq<nat>, n: nat)
    requires IsChain(listing, pages) && 0 < n <= |pages|
    ensures n == |pages| || (Readable(listing, pages[n - 1]) && listing(pages[n - 1]).value.nextPage != 0)
  {
    if n < |pages| {
      assert LinksTo(listing, pages[n - 1], pages[n]);
    }
  }

  lemma WholeChainIsUnique<T>(listing: Listing<T>, a: seq<nat>, b: seq<nat>)
    requires IsWhole(listing, a) && IsChain(listing, b) && (IsWhole(listing, b) || !Readable(listing, b[|b| - 1]))
    ensures a == b
  {
    var n := if |a| < |b| then |a| else |b|;
    ChainsAgree(listing, a, b, n - 1);
    assert a[..n][n - 1] == b[..n][n - 1];
    assert a[n - 1] == b[n - 1];
    EndsOrLinks(listing, a, n);
    EndsOrLinks(listing, b, n);
    assert a[..n] == a && b[..n] == b;
  }

  /** Every item of every page, in order, or an error and none of them. */
  method ListAll<T>(listing: Listing<T>, ghost last: nat)
    returns (r: Result<seq<T>, string>, ghost pages: seq<nat>, ghost starts: seq<nat>)
    requires Increasing(listing, last)
    ensures r.Ok? <==> exists whole :: IsWhole(listing, whole)
    ensures r.Ok? ==> IsWhole(listing, pages) && Concatenates(listing, pages, starts, r.value)
  {
    var page: nat := 0;
    var all := [];
    ghost var read: seq<nat> := [];
    pages, starts := [0], [0];
    while true
      invariant page <= last && pages == read + [page] && IsChain(listing, pages)
      invariant Concatenates(listing, read, starts, all)
      decreases last - page
    {
      var answer := listing(page);
      if answer.None? {
        NotWhole(listing, pages);
        return Err("request failed"), pages, starts;
      }
      ConcatenatesMore(listing, read, starts, all, page);
      all := all + answer.value.items;
      starts := starts + [|all|];
      if answer.value.status != HTTP_OK {
        NotWhole(listing, pages);
        return Err("unexpected status"), pages, starts;
      }
      if answer.value.nextPage == 0 {
        break;
      }
      ChainMore(listing, read, page, answer.value.nextPage);
      page, read := answer.value.nextPage, pages;
      pages := pages + [page];
    }
    assert IsWhole(listing, pages);
    r := Ok(all);
  }

  /** A chain that ends at an unreadable page excludes any whole chain. */
  lemma NotWhole<T>(listing: Listing<T>, pages: seq<nat>)
    requires IsChain(listing, pages) && !Readable(listing, pages[|pages| - 1])
    ensures !exists whole :: IsWhole(listing, whole)
  {
    forall whole | IsWhole(listing, whole)
      ensures false
    {
      WholeChainIsUnique(listing, whole, pages);
    }
  }

  class OrgDirectory {
    var orgMembers: seq<string>

    constructor ()
      ensures orgMembers == []
    {
      orgMembers := [];
    }

    /** The members become the complete listing, or stay as they were; never a part of the listing. */
    method RefreshMembers(listing: Listing<string>, ghost last: nat) returns (ghost pages: seq<nat>, ghost starts: seq<nat>)
      requires Increasing(listing, last)
      modifies this
      ensures (!exists whole :: IsWhole(listing, whole)) ==> orgMembers == old(orgMembers)
      ensures (exists whole :: IsWhole(listing, whole)) ==>
        IsWhole(listing, pages) && Concatenates(listing, pages, starts, orgMembers)
    {
      var members;
      members, pages, starts := ListAll(listing, last);
      if members.Ok? {
        orgMembers := members.value;
      }
    }
  }
}
