/** The scraper process: its two persisted documents, the requests it sends, and the loops that
    scrape the watchlist, diff the results against the last baseline and notify. */
module Server {
  import opened Wrappers
  import opened Text
  import opened Listings
  import opened Watchlist

  /** The extraction loop of `scrapeFinn`: walk the page's containers and push a record for each
      one with a title and a link. */
  method CollectItems(containers: seq<Container>, url: string) returns (items: seq<Item>)
    ensures items == Extract(containers, url)
  {
    items := [];
    var i := 0;
    while i < |containers|
      invariant 0 <= i <= |containers|
      invariant items == Extract(containers[..i], url)
    {
      var c := containers[i];
      if c.title != "" && c.href.Some? && c.href.value != "" {
        items := items + [ItemOf(c, url)];
      }
      ExtractStep(containers, i, url);
      i := i + 1;
    }
    assert containers[..i] == containers;
  }

  /** The diff loop of one `runScraper` step: push each tagged record whose link the prior
      baseline did not have. */
  method CollectNew(enriched: seq<Listing>, previousLinks: set<string>) returns (newListings: seq<Listing>)
    ensures newListings == Fresh(enriched, previousLinks)
  {
    newListings := [];
    var j := 0;
    while j < |enriched|
      invariant 0 <= j <= |enriched|
      invariant newListings == Fresh(enriched[..j], previousLinks)
    {
      var result := enriched[j];
      if result.link !in previousLinks {
        newListings := newListings + [result];
      }
      assert enriched[..j + 1][..j] == enriched[..j];
      j := j + 1;
    }
    assert enriched[..j] == enriched;
  }

  /** The requests one cycle over `searches` sends to the site, in order. */
  function CycleGets(hostname: string -> Option<string>, searches: seq<Search>): (r: seq<string>)
    ensures |r| <= |searches|
    ensures forall i :: 0 <= i < |r| ==> Admits(hostname(r[i]))
  {
    if searches == [] then []
    else CycleGets(hostname, searches[..|searches| - 1]) + Gets(hostname, searches[|searches| - 1].url)
  }

  /** Taking one more watchlist entry adds that entry's records, new listings and request at the end. */
  lemma CycleStep(hostname: string -> Option<string>, pages: string -> Response, entries: seq<Search>, i: nat,
                  seen: set<string>)
    requires i < |entries|
    ensures var batch := Enrich(Scrape(hostname, pages, entries[i].url), entries[i]);
      Harvest(hostname, pages, entries[..i + 1]) == Harvest(hostname, pages, entries[..i]) + batch &&
      Fresh(Harvest(hostname, pages, entries[..i + 1]), seen) ==
        Fresh(Harvest(hostname, pages, entries[..i]), seen) + Fresh(batch, seen)
    ensures CycleGets(hostname, entries[..i + 1]) == CycleGets(hostname, entries[..i]) + Gets(hostname, entries[i].url)
  {
    assert entries[..i + 1][..i] == entries[..i];
    FreshAppend(Harvest(hostname, pages, entries[..i]),
                Enrich(Scrape(hostname, pages, entries[i].url), entries[i]), seen);
  }

  class FinnScraper {
    /** DISCORD_WEBHOOK_URL. */
    const webhook: Option<string>
    /** How the WHATWG URL parser reads a URL: its hostname, or None when it throws. */
    const hostname: string -> Option<string>

    /** searches.json: the watchlist. */
    var searches: seq<Search>
    /** results.json: the baseline of the last completed cycle. */
    var results: seq<Listing>
    /** The URLs fetched from the site, in the order of the requests. */
    var requested: seq<string>
    /** The notifications posted to the webhook, in order, with their outcome. */
    var posted: seq<Delivery>

    /** A process started over the two documents as they are on disk (empty when absent). */
    constructor (webhook: Option<string>, hostname: string -> Option<string>,
                 searches: seq<Search>, results: seq<Listing>)
      ensures this.webhook == webhook && this.hostname == hostname
      ensures this.searches == searches && this.results == results
      ensures requested == [] && posted == []
    {
      this.webhook := webhook;
      this.hostname := hostname;
      this.searches := searches;
      this.results := results;
      requested := [];
      posted := [];
    }

    /** `scrapeFinn(url)`, with `pages` standing for what the site answers. A URL that does not
        parse or fails the domain gate is dropped before any request is sent. */
    method ScrapeFinn(url: string, pages: string -> Response) returns (items: seq<Item>)
      modifies this`requested
      ensures items == Scrape(hostname, pages, url)
      ensures requested == old(requested) + Gets(hostname, url)
    {
      var host := hostname(url);
      if host.None? || !EndsWith(host.value, FinnDomain) {
        return [];
      }
      requested := requested + [url];
      match pages(url)
      case FetchFailed =>
        items := [];
      case Page(containers) =>
        items := CollectItems(containers, url);
    }

    /** `sendDiscordNotification`: post the listing's message; a failed delivery is swallowed. */
    method SendDiscordNotification(listing: Listing, accepts: string -> bool)
      modifies this`posted
      ensures posted == old(posted) + [Delivery(Message(listing), accepts(Message(listing)))]
    {
      var content := Message(listing);
      var delivered := accepts(content);
      posted := posted + [Delivery(content, delivered)];
    }

    /** The notification loop of `runScraper`: one post per new listing, in order; a failed
        delivery does not stop the ones after it. */
    method NotifyAll(newListings: seq<Listing>, accepts: string -> bool)
      modifies this`posted
      ensures posted == old(posted) + Attempts(newListings, accepts)
    {
      var k := 0;
      while k < |newListings|
        invariant 0 <= k <= |newListings|
        invariant posted == old(posted) + Attempts(newListings[..k], accepts)
      {
        SendDiscordNotification(newListings[k], accepts);
        AttemptsStep(newListings, k, accepts);
        k := k + 1;
      }
      assert newListings[..k] == newListings;
    }

    /** The watchlist loop of `runScraper`: scrape each entry in order, tag its records with the
        entry, append them to the cycle's results and the unseen ones to the new listings. */
    method ScrapeAll(entries: seq<Search>, previousLinks: set<string>, pages: string -> Response)
      returns (allResults: seq<Listing>, newListings: seq<Listing>)
      modifies this`requested
      ensures allResults == Harvest(hostname, pages, entries)
      ensures newListings == Fresh(allResults, previousLinks)
      ensures requested == old(requested) + CycleGets(hostname, entries)
    {
      allResults, newListings := [], [];
      var i := 0;
      while i < |entries|
        invariant 0 <= i <= |entries|
        invariant allResults == Harvest(hostname, pages, entries[..i])
        invariant newListings == Fresh(allResults, previousLinks)
        invariant requested == old(requested) + CycleGets(hostname, entries[..i])
      {
        var entry := entries[i];
        var scraped := ScrapeFinn(entry.url, pages);
        var enriched := Enrich(scraped, entry);
        var unseen := CollectNew(enriched, previousLinks);
        CycleStep(hostname, pages, entries, i, previousLinks);
        newListings := newListings + unseen;
        allResults := allResults + enriched;
        i := i + 1;
      }
      assert entries[..i] == entries;
    }

    /** `runScraper`: one cycle. The prior links are read once; every entry is scraped in watchlist
        order; the cycle's records are diffed against the prior links; each new listing is posted
        when a webhook is configured; the cycle's records replace the baseline. */
    method RunScraper(pages: string -> Response, accepts: string -> bool)
      modifies this`results, this`requested, this`posted
      ensures results == Harvest(hostname, pages, searches)
      ensures requested == old(requested) + CycleGets(hostname, searches)
      ensures posted == old(posted) +
        if NotifyEnabled(webhook) then Attempts(Fresh(results, LinksOf(old(results))), accepts) else []
    {
      var previousLinks := LinksOf(results);
      var allResults, newListings := ScrapeAll(searches, previousLinks, pages);
      if |newListings| > 0 && NotifyEnabled(webhook) {
        NotifyAll(newListings, accepts);
      } else if NotifyEnabled(webhook) {
        assert Attempts(newListings, accepts) == [];
      }
      results := allResults;
    }

    /** The body of `POST /add`: vet the URL, name the search, append it when its URL is new. */
    method Add(rawUrl: Option<string>, rawName: Option<string>, n: nat) returns (outcome: Outcome<AddError>)
      requires n < 1000
      modifies this`searches
      ensures var r := AddSearch(old(searches), hostname, rawUrl, rawName, n);
        (r.Failure? ==> outcome == Fail(r.error) && searches == old(searches)) &&
        (r.Success? ==> outcome == Pass && searches == r.value)
    {
      match Vet(hostname, rawUrl)
      case Failure(e) =>
        return Fail(e);
      case Success(u) =>
        var name := DefaultName(rawName, n);
        if !Watched(searches, u) {
          searches := searches + [Search(name, u)];
        }
        outcome := Pass;
    }

    /** The body of `POST /remove`: drop every entry whose URL is `url`. */
    method Remove(url: string)
      modifies this`searches
      ensures searches == Without(old(searches), url)
    {
      searches := Without(searches, url);
    }
  }
}
