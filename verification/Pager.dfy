/** The capped pagers: the generic one of the posture scanner (`apps/scanner-cspm/src/cloud.fetch.ts`)
    and the one that feeds asset archival (`apps/asset-service/src/connectors/azure.connector.ts`). */
module Pager {
  import opened Core

  const MAX_PAGES := 20

  /** A page: what it delivers, the provider's own mark that it is cut short, and the continuation. */
  datatype Page<T> = Page(items: seq<T>, truncated: bool, next: Option<string>)

  /** How call number `n` with a continuation is answered; `None` is an exception.  Answers may change
      from call to call. */
  type Fetch<!T> = (nat, Option<string>) -> Option<Page<T>>

  /** A listing as its consumer sees it: what was delivered, and whether it ended normally or threw. */
  datatype Stream<T> = Stream(items: seq<T>, completes: bool)

  /** An empty continuation counts as none. */
  predicate Continues<T>(p: Page<T>) { p.next.Some? && p.next.value != "" }

  // ----- the pagers -----

  /** What is delivered from page number `page` on. */
  function PagedFrom<T>(fetch: Fetch<T>, page: nat, token: Option<string>): Stream<T>
    requires 1 <= page <= MAX_PAGES
    decreases MAX_PAGES - page
  {
    match fetch(page, token)
    case None => Stream([], false)
    case Some(p) =>
      if p.truncated && !Continues(p) then Stream([], false)
      else if !Continues(p) then Stream(p.items, true)
      else if page == MAX_PAGES then Stream(p.items, false)
      else Prepend(p.items, PagedFrom(fetch, page + 1, p.next))
  }

  function Prepend<T>(items: seq<T>, rest: Stream<T>): Stream<T> { Stream(items + rest.items, rest.completes) }

  lemma {:induction false} PrependTwice<T>(a: seq<T>, b: seq<T>, rest: Stream<T>)
    ensures Prepend(a, Prepend(b, rest)) == Prepend(a + b, rest)
  {
    assert a + (b + rest.items) == a + b + rest.items;
  }

  function Paged<T>(fetch: Fetch<T>): Stream<T> { PagedFrom(fetch, 1, None) }

  method WalkPages<T>(fetch: Fetch<T>) returns (r: Stream<T>, calls: nat)
    ensures r == Paged(fetch) && calls <= MAX_PAGES
  {
    var token: Option<string> := None;
    var delivered: seq<T> := [];
    calls := 0;
    var page := 1;
    while page <= MAX_PAGES
      invariant 1 <= page <= MAX_PAGES && calls == page - 1
      invariant Paged(fetch) == Prepend(delivered, PagedFrom(fetch, page, token))
      decreases MAX_PAGES - page
    {
      var body := fetch(page, token);
      calls := calls + 1;
      if body == None {
        return Stream(delivered, false), calls;
      }
      var p := body.value;
      if p.truncated && !Continues(p) {
        return Stream(delivered, false), calls;
      }
      ghost var before := delivered;
      delivered := delivered + p.items;
      if !Continues(p) {
        return Stream(delivered, true), calls;
      }
      if page == MAX_PAGES {
        return Stream(delivered, false), calls;
      }
      PrependTwice(before, p.items, PagedFrom(fetch, page + 1, p.next));
      token := p.next;
      page := page + 1;
    }
    assert false;
    r := Stream(delivered, false);
  }

  /** The continuation of an Azure answer: its link without surrounding white space, if any is left. */
  function NextLink(link: Option<string>): Option<string> {
    if link.Some? && Trim(link.value) != "" then Some(Trim(link.value)) else None
  }

  /** White space around a link does not matter, and a link of nothing else is none. */
  lemma {:induction false} NextLinkExactly(before: string, link: string, after: string)
    requires (forall c :: c in before || c in after ==> IsSpace(c))
    requires link != "" ==> !IsSpace(link[0]) && !IsSpace(link[|link| - 1])
    ensures NextLink(Some(before + link + after)) == if link == "" then None else Some(link)
  {
    hide Trim;
    TrimIs(before, link, after);
  }

  /** An Azure answer: the assets on it and the raw link. */
  datatype Answer<T> = Answer(items: seq<T>, link: Option<string>)

  /** One Azure request as a fetch: the address is checked before it is requested. */
  function AzureFetch<T>(allow: string -> Option<string>, get: (nat, string) -> Option<Answer<T>>, first: string): Fetch<T> {
    (n: nat, token: Option<string>) =>
      match allow(if token.Some? then token.value else first)
      case None => None
      case Some(url) => (match get(n, url) case None => None case Some(a) => Some(Page(a.items, false, NextLink(a.link))))
  }

  /** What one Azure request contributes. */
  lemma {:induction false} AzureFrom<T>(
    allow: string -> Option<string>, get: (nat, string) -> Option<Answer<T>>, first: string, page: nat, token: Option<string>)
    requires 1 <= page <= MAX_PAGES
    ensures var fetch := AzureFetch(allow, get, first);
      var url := allow(if token.Some? then token.value else first);
      PagedFrom(fetch, page, token) ==
        if url.None? || get(page, url.value).None? then Stream([], false)
        else
          var a := get(page, url.value).value;
          var link := NextLink(a.link);
          if link.None? then Stream(a.items, true)
          else if page == MAX_PAGES then Stream(a.items, false)
          else Prepend(a.items, PagedFrom(fetch, page + 1, link))
  {
  }

  /** The Azure pager checks the next address before it notices the cap. */
  method PagedGet<T>(allow: string -> Option<string>, get: (nat, string) -> Option<Answer<T>>, first: string)
    returns (r: Stream<T>, calls: nat)
    ensures r == Paged(AzureFetch(allow, get, first)) && calls <= MAX_PAGES
  {
    hide PagedFrom, NextLink, AzureFetch;
    calls := 0;
    var delivered: seq<T> := [];
    var url := allow(first);
    AzureFrom(allow, get, first, 1, None);
    if url == None {
      return Stream(delivered, false), calls;
    }
    ghost var token: Option<string> := None;
    ghost var fetch := AzureFetch(allow, get, first);
    var page := 1;
    while page <= MAX_PAGES
      invariant 1 <= page <= MAX_PAGES && calls == page - 1
      invariant url.Some? && url == allow(if token.Some? then token.value else first)
      invariant Paged(fetch) == Prepend(delivered, PagedFrom(fetch, page, token))
      decreases MAX_PAGES - page
    {
      AzureFrom(allow, get, first, page, token);
      var json := get(page, url.value);
      calls := calls + 1;
      if json == None {
        return Stream(delivered, false), calls;
      }
      ghost var before := delivered;
      delivered := delivered + json.value.items;
      var link := NextLink(json.value.link);
      if link == None {
        return Stream(delivered, true), calls;
      }
      url := allow(link.value);
      if page == MAX_PAGES {
        return Stream(delivered, false), calls;
      }
      PrependTwice(before, json.value.items, PagedFrom(fetch, page + 1, link));
      AzureFrom(allow, get, first, page + 1, link);
      if url == None {
        return Stream(delivered, false), calls;
      }
      token := link;
      page := page + 1;
    }
    assert false;
    r := Stream(delivered, false);
  }

  // ----- complete listings -----

  /** There is another page: the provider gave a continuation that is not empty. */
  predicate HasNext<T>(p: Page<T>) {
    match p.next
    case None => false
    case Some(token) => token != ""
  }

  /** The pages of a listing that ran to its end: each is the answer to the continuation of the one
      before it, and only the last has none and is not marked as cut short. */
  ghost predicate CompleteListing<T(!new)>(fetch: Fetch<T>, pages: seq<Page<T>>) {
    && pages != []
    && (forall i :: 0 <= i < |pages| ==> Answers(fetch, pages, i))
    && (forall i :: 0 <= i < |pages| ==> HasNext(pages[i]) == (i < |pages| - 1))
    && !pages[|pages| - 1].truncated
  }

  predicate Answers<T(==)>(fetch: Fetch<T>, pages: seq<Page<T>>, i: nat)
    requires i < |pages|
  {
    fetch(i + 1, if i == 0 then None else pages[i - 1].next) == Some(pages[i])
  }

  function Contents<T>(pages: seq<Page<T>>): seq<T> {
    if pages == [] then [] else pages[0].items + Contents(pages[1..])
  }

  /** The same from page number `page` on. */
  ghost predicate CompleteFrom<T(!new)>(fetch: Fetch<T>, page: nat, token: Option<string>, pages: seq<Page<T>>)
    decreases |pages|
  {
    && pages != [] && fetch(page, token) == Some(pages[0])
    && if |pages| == 1 then !Continues(pages[0]) && !pages[0].truncated
       else Continues(pages[0]) && CompleteFrom(fetch, page + 1, pages[0].next, pages[1..])
  }

  lemma {:induction false} FromIsComplete<T(!new)>(fetch: Fetch<T>, pages: seq<Page<T>>, i: nat)
    requires i < |pages|
    requires CompleteFrom(fetch, i + 1, if i == 0 then None else pages[i - 1].next, pages[i..])
    ensures forall j :: i <= j < |pages| ==> Answers(fetch, pages, j) && HasNext(pages[j]) == (j < |pages| - 1)
    ensures !pages[|pages| - 1].truncated
    decreases |pages| - i
  {
    if i + 1 < |pages| {
      assert pages[i..][1..] == pages[i + 1..];
      FromIsComplete(fetch, pages, i + 1);
    }
  }

  lemma {:induction false} CompleteIsFrom<T(!new)>(fetch: Fetch<T>, pages: seq<Page<T>>, i: nat)
    requires i < |pages| && CompleteListing(fetch, pages)
    ensures CompleteFrom(fetch, i + 1, if i == 0 then None else pages[i - 1].next, pages[i..])
    decreases |pages| - i
  {
    assert Answers(fetch, pages, i);
    if i + 1 < |pages| {
      CompleteIsFrom(fetch, pages, i + 1);
      assert pages[i..][1..] == pages[i + 1..];
    }
  }

  /** A complete listing within the cap is delivered whole. */
  lemma {:induction false} DeliversFrom<T(!new)>(fetch: Fetch<T>, page: nat, token: Option<string>, pages: seq<Page<T>>)
    requires 1 <= page <= MAX_PAGES && CompleteFrom(fetch, page, token, pages) && |pages| <= MAX_PAGES - page + 1
    ensures PagedFrom(fetch, page, token) == Stream(Contents(pages), true)
    decreases |pages|
  {
    if |pages| > 1 {
      DeliversFrom(fetch, page + 1, pages[0].next, pages[1..]);
    } else {
      assert Contents(pages[1..]) == [];
      assert Contents(pages) == pages[0].items;
    }
  }

  /** What ends normally was a complete listing within the cap. */
  lemma {:induction false} DeliveredFrom<T(!new)>(fetch: Fetch<T>, page: nat, token: Option<string>)
    returns (pages: seq<Page<T>>)
    requires 1 <= page <= MAX_PAGES && PagedFrom(fetch, page, token).completes
    ensures CompleteFrom(fetch, page, token, pages) && |pages| <= MAX_PAGES - page + 1
    decreases MAX_PAGES - page
  {
    var p := fetch(page, token).value;
    pages := [p];
    if Continues(p) {
      var rest := DeliveredFrom(fetch, page + 1, p.next);
      pages := [p] + rest;
      assert pages[1..] == rest;
    }
  }

  /** A pager ends normally exactly when the listing ends within the cap, and then it has delivered
      all pages of the listing in order; otherwise it throws. */
  lemma {:induction false} CompletesExactly<T(!new)>(fetch: Fetch<T>)
    ensures Paged(fetch).completes <==> exists pages :: CompleteListing(fetch, pages) && |pages| <= 20
    ensures forall pages :: CompleteListing(fetch, pages) && |pages| <= 20 ==>
      Paged(fetch).items == Contents(pages)
  {
    if Paged(fetch).completes {
      var pages := DeliveredFrom(fetch, 1, None);
      assert pages[0..] == pages;
      FromIsComplete(fetch, pages, 0);
      assert CompleteListing(fetch, pages);
    }
    forall pages | CompleteListing(fetch, pages) && |pages| <= MAX_PAGES
      ensures Paged(fetch) == Stream(Contents(pages), true)
    {
      CompleteIsFrom(fetch, pages, 0);
      assert pages[0..] == pages;
      DeliversFrom(fetch, 1, None, pages);
    }
  }

  /** A listing that breaks off at page number `page` or later: after `pages` comes an exception, or a page
      that is marked as cut short and has no continuation, or the cap. */
  ghost predicate BreaksOff<T(!new)>(fetch: Fetch<T>, page: nat, token: Option<string>, pages: seq<Page<T>>)
    decreases |pages|
  {
    if pages == [] then
      page == 21 || fetch(page, token).None? || (fetch(page, token).value.truncated && !HasNext(fetch(page, token).value))
    else
      fetch(page, token) == Some(pages[0]) && HasNext(pages[0]) && BreaksOff(fetch, page + 1, pages[0].next, pages[1..])
  }

  lemma {:induction false} BreaksOffFrom<T(!new)>(fetch: Fetch<T>, page: nat, token: Option<string>) returns (pages: seq<Page<T>>)
    requires 1 <= page <= MAX_PAGES && !PagedFrom(fetch, page, token).completes
    ensures BreaksOff(fetch, page, token, pages) && PagedFrom(fetch, page, token).items == Contents(pages)
    decreases MAX_PAGES - page
  {
    pages := [];
    if fetch(page, token).Some? && HasNext(fetch(page, token).value) {
      var p := fetch(page, token).value;
      if page < MAX_PAGES {
        pages := BreaksOffFrom(fetch, page + 1, p.next);
      }
      assert ([p] + pages)[1..] == pages;
      assert BreaksOff(fetch, page + 1, p.next, pages);
      pages := [p] + pages;
      assert Contents(pages) == p.items + Contents(pages[1..]);
    }
  }

  /** A listing that does not come to its end within the cap is delivered up to where it breaks off, and
      nothing of the page on which it does. */
  lemma {:induction false} DeliversUntilBreak<T(!new)>(fetch: Fetch<T>)
    requires !Paged(fetch).completes
    ensures exists pages :: BreaksOff(fetch, 1, None, pages) && Paged(fetch).items == Contents(pages)
  {
    hide BreaksOff, PagedFrom;
    var pages := BreaksOffFrom(fetch, 1, None);
  }

  // ----- a connector that runs several pagers in turn -----

  function InTurn<T>(listings: seq<Fetch<T>>): Stream<T> {
    if listings == [] then Stream([], true)
    else
      var first := Paged(listings[0]);
      if first.completes then Prepend(first.items, InTurn(listings[1..])) else first
  }

  /** The connector ends normally exactly when every one of its listings ends within the cap. */
  lemma {:induction false} InTurnCompletesExactly<T(!new)>(listings: seq<Fetch<T>>)
    ensures InTurn(listings).completes <==> forall i :: 0 <= i < |listings| ==> Paged(listings[i]).completes
    decreases |listings|
  {
    if listings != [] && Paged(listings[0]).completes {
      InTurnCompletesExactly(listings[1..]);
      assert forall i :: 1 <= i < |listings| ==> listings[i] == listings[1..][i - 1];
    }
  }
}
