/** What one scrape cycle computes: the domain gate, the records extracted from a results page,
    their tagging with the search they came from, the diff against the last baseline and the
    notification text. Everything here is a value; the loops that build these values live in
    module Server. */
module Listings {
  import opened Wrappers
  import opened Text

  /** The suffix every accepted hostname ends with. */
  const FinnDomain := "finn.no"
  /** The origin a relative listing link is resolved against. */
  const FinnOrigin := "https://www.finn.no"

  /** The domain gate: the URL parsed (`Some`) and its hostname ends with `FinnDomain`. */
  predicate Admits(host: Option<string>)
  {
    host.Some? && EndsWith(host.value, FinnDomain)
  }

  /** The gate is a bare suffix test, so a look-alike hostname such as "evilfinn.no" passes it. */
  lemma SuffixGateAdmitsLookalike()
    ensures Admits(Some("evilfinn.no"))
    ensures !Admits(Some("finn.no.example.com"))
  {
    assert "evilfinn.no"[4..] == FinnDomain;
  }

  /** One `article.sf-search-ad` element as the HTML parser reads it: the trimmed text of its title
      anchor, that anchor's `href` attribute if there is one, and the trimmed text of its price. */
  datatype Container = Container(title: string, href: Option<string>, price: string)

  /** What the site answered to a GET of a search URL. */
  datatype Response = Page(containers: seq<Container>) | FetchFailed

  /** A listing as extracted from a page; `url` is the search URL that was scraped. */
  datatype Item = Item(title: string, price: string, link: string, url: string)

  /** A listing tagged with the watchlist entry it was found by: the persisted record. */
  datatype Listing = Listing(title: string, price: string, link: string, url: string,
                             searchUrl: string, searchName: string)

  /** A named search URL on the watchlist. */
  datatype Search = Search(name: string, url: string)

  /** One notification the webhook was sent, and whether the delivery went through. */
  datatype Delivery = Delivery(content: string, delivered: bool)

  /** A link that already starts with "http" is kept; any other is resolved against `FinnOrigin`. */
  function Absolute(link: string): (r: string)
    ensures StartsWith(r, "http")
    ensures StartsWith(link, "http") ==> r == link
    ensures !StartsWith(link, "http") ==> r == FinnOrigin + link
  {
    if StartsWith(link, "http") then link
    else
      assert (FinnOrigin + link)[..4] == "http";
      FinnOrigin + link
  }

  /** The rule tests only the letters "http" and adds no "/": a relative href that starts with those
      letters is kept, and one without a leading slash is glued onto the host name. */
  lemma PrefixRuleIsTextual()
    ensures Absolute("httpdocs/help.html") == "httpdocs/help.html"
    ensures Absolute("item/1") == "https://www.finn.noitem/1"
    ensures Absolute("/item/1") == "https://www.finn.no/item/1"
  {
    assert "httpdocs/help.html"[..4] == "http";
    assert "item/1"[..4][0] != "http"[0];
    assert "/item/1"[..4][0] != "http"[0];
  }

  lemma AbsoluteIdempotent(link: string)
    ensures Absolute(Absolute(link)) == Absolute(link)
  {
  }

  /** A container yields a record exactly when its title and its href are both non-empty. */
  predicate Yields(c: Container)
  {
    c.title != "" && c.href.Some? && c.href.value != ""
  }

  /** What every extracted record satisfies: scraped from `url`, a non-empty title, a link that starts with "http". */
  predicate WellFormed(it: Item, url: string)
  {
    it.url == url && it.title != "" && StartsWith(it.link, "http")
  }

  /** A record copies a container: the same title, the same price (an empty one stays empty) and the
      container's href, normalised by `Absolute`, as its link. */
  predicate Copies(it: Item, c: Container)
  {
    it.title == c.title && it.price == c.price && c.href.Some? && it.link == Absolute(c.href.value)
  }

  /** The record a yielding container produces for search URL `url`. */
  function ItemOf(c: Container, url: string): (it: Item)
    requires Yields(c)
    ensures Copies(it, c)
    ensures WellFormed(it, url)
  {
    Item(c.title, c.price, Absolute(c.href.value), url)
  }

  /** The records of a page: one per yielding container, in container order. Defined on the last
      container, the way the extraction loop grows its list. */
  function Extract(cs: seq<Container>, url: string): (r: seq<Item>)
    ensures |r| <= |cs|
  {
    if cs == [] then []
    else
      var last := cs[|cs| - 1];
      Extract(cs[..|cs| - 1], url) + (if Yields(last) then [ItemOf(last, url)] else [])
  }

  /** One more container appends its record, if it yields one, at the end. */
  lemma ExtractStep(cs: seq<Container>, i: nat, url: string)
    requires i < |cs|
    ensures Extract(cs[..i + 1], url) == Extract(cs[..i], url) + if Yields(cs[i]) then [ItemOf(cs[i], url)] else []
  {
    assert cs[..i + 1][..i] == cs[..i];
  }

  /** Where record `k` of a page comes from: the records of all but the last container, or else the
      last container's own record. */
  lemma ExtractIndex(cs: seq<Container>, url: string, k: nat)
    requires cs != [] && k < |Extract(cs, url)|
    ensures var front := cs[..|cs| - 1];
      (k < |Extract(front, url)| ==> Extract(cs, url)[k] == Extract(front, url)[k]) &&
      (k >= |Extract(front, url)| ==> Yields(cs[|cs| - 1]) && Extract(cs, url)[k] == ItemOf(cs[|cs| - 1], url))
  {
  }

  /** Every record is the record of a yielding container of the page, container `i`. */
  lemma {:induction false} ExtractProvenance(cs: seq<Container>, url: string, k: nat) returns (i: nat)
    requires k < |Extract(cs, url)|
    ensures i < |cs| && Yields(cs[i]) && Extract(cs, url)[k] == ItemOf(cs[i], url)
  {
    var front := cs[..|cs| - 1];
    ExtractIndex(cs, url, k);
    if k < |Extract(front, url)| {
      i := ExtractProvenance(front, url, k);
      assert front[i] == cs[i];
      assert Extract(cs, url)[k] == Extract(front, url)[k];
    } else {
      i := |cs| - 1;
    }
  }

  /** Every extracted record was scraped from `url`, has a non-empty title and a link that starts with "http". */
  lemma ExtractWellFormed(cs: seq<Container>, url: string, k: nat)
    requires k < |Extract(cs, url)|
    ensures WellFormed(Extract(cs, url)[k], url)
  {
    var i := ExtractProvenance(cs, url, k);
  }

  /** A single container contributes one record if it yields and none otherwise. */
  lemma ExtractOne(c: Container, url: string)
    ensures Extract([c], url) == if Yields(c) then [ItemOf(c, url)] else []
  {
    assert [c][..0] == [];
  }

  /** Extraction distributes over concatenation: output order follows container order. */
  lemma {:induction false} ExtractAppend(a: seq<Container>, b: seq<Container>, url: string)
    ensures Extract(a + b, url) == Extract(a, url) + Extract(b, url)
    decreases |b|
  {
    if b == [] {
      assert a + b == a;
    } else {
      var b' := b[..|b| - 1];
      assert (a + b)[..|a + b| - 1] == a + b';
      ExtractAppend(a, b', url);
    }
  }

  /** A page whose containers all yield gives one record per container. */
  lemma {:induction false} ExtractAllYield(cs: seq<Container>, url: string)
    requires forall i :: 0 <= i < |cs| ==> Yields(cs[i])
    ensures |Extract(cs, url)| == |cs|
  {
    if cs != [] {
      var n := |cs|;
      var front := cs[..n - 1];
      assert forall i :: 0 <= i < |front| ==> front[i] == cs[i];
      ExtractAllYield(front, url);
      ExtractStep(cs, n - 1, url);
      assert cs[..n] == cs;
    }
  }

  /** A page where no container yields gives no records. */
  lemma {:induction false} ExtractNoneYield(cs: seq<Container>, url: string)
    requires forall i :: 0 <= i < |cs| ==> !Yields(cs[i])
    ensures Extract(cs, url) == []
  {
    if cs != [] {
      var n := |cs|;
      var front := cs[..n - 1];
      assert forall i :: 0 <= i < |front| ==> front[i] == cs[i];
      ExtractNoneYield(front, url);
      ExtractStep(cs, n - 1, url);
      assert cs[..n] == cs;
    }
  }

  /** What `scrapeFinn(url)` returns, given how URLs parse and what the site answers: nothing when
      the URL does not parse, its host fails the gate or the fetch fails; the page's records otherwise. */
  function Scrape(hostname: string -> Option<string>, pages: string -> Response, url: string): (r: seq<Item>)
    ensures !Admits(hostname(url)) ==> r == []
    ensures pages(url).FetchFailed? ==> r == []
    ensures Admits(hostname(url)) && pages(url).Page? ==> r == Extract(pages(url).containers, url)
  {
    if !Admits(hostname(url)) then []
    else match pages(url)
      case FetchFailed => []
      case Page(cs) => Extract(cs, url)
  }

  /** The GETs `scrapeFinn(url)` issues: one, and only when the gate admits the URL. */
  function Gets(hostname: string -> Option<string>, url: string): (r: seq<string>)
    ensures |r| <= 1 && (r != [] <==> Admits(hostname(url)))
    ensures forall i :: 0 <= i < |r| ==> r[i] == url
  {
    if Admits(hostname(url)) then [url] else []
  }

  /** `l` is `it` extended with the URL and name of entry `e`, its other fields unchanged. */
  predicate Tagged(l: Listing, it: Item, e: Search)
  {
    l.title == it.title && l.price == it.price && l.link == it.link && l.url == it.url &&
    l.searchUrl == e.url && l.searchName == e.name
  }

  /** The listing an item becomes once tagged with watchlist entry `e` (`{...r, searchUrl, searchName}`). */
  function Tag(it: Item, e: Search): (l: Listing)
    ensures Tagged(l, it, e)
  {
    Listing(it.title, it.price, it.link, it.url, e.url, e.name)
  }

  /** The `enriched` map of one cycle step: each item tagged with its entry, order kept. */
  function Enrich(items: seq<Item>, e: Search): (r: seq<Listing>)
    ensures |r| == |items|
    ensures forall i :: 0 <= i < |r| ==> Tagged(r[i], items[i], e)
  {
    seq(|items|, i requires 0 <= i < |items| => Tag(items[i], e))
  }

  /** All records of one cycle over `searches`, entry by entry in watchlist order. */
  function Harvest(hostname: string -> Option<string>, pages: string -> Response, searches: seq<Search>): (r: seq<Listing>)
  {
    if searches == [] then []
    else
      var e := searches[|searches| - 1];
      Harvest(hostname, pages, searches[..|searches| - 1]) + Enrich(Scrape(hostname, pages, e.url), e)
  }

  /** The harvest of a watchlist is the concatenation of the harvests of its parts. */
  lemma {:induction false} HarvestAppend(hostname: string -> Option<string>, pages: string -> Response,
                                         a: seq<Search>, b: seq<Search>)
    ensures Harvest(hostname, pages, a + b) == Harvest(hostname, pages, a) + Harvest(hostname, pages, b)
    decreases |b|
  {
    if b == [] {
      assert a + b == a;
    } else {
      var b' := b[..|b| - 1];
      var e := b[|b| - 1];
      assert (a + b)[..|a + b| - 1] == a + b';
      assert (a + b)[|a + b| - 1] == e;
      calc {
        Harvest(hostname, pages, a + b);
        Harvest(hostname, pages, a + b') + Enrich(Scrape(hostname, pages, e.url), e);
        { HarvestAppend(hostname, pages, a, b'); }
        Harvest(hostname, pages, a) + Harvest(hostname, pages, b') + Enrich(Scrape(hostname, pages, e.url), e);
      }
    }
  }

  /** One entry's share of the harvest: its scraped records, tagged with it. */
  lemma HarvestOne(hostname: string -> Option<string>, pages: string -> Response, e: Search)
    ensures Harvest(hostname, pages, [e]) == Enrich(Scrape(hostname, pages, e.url), e)
  {
    assert [e][..0] == [];
  }

  /** Every harvested record is normalised and comes from entry `j` of the watchlist, whose URL it
      was scraped from and whose name and URL it carries. */
  lemma {:induction false} HarvestProvenance(hostname: string -> Option<string>, pages: string -> Response,
                                             searches: seq<Search>, k: nat) returns (j: nat)
    requires k < |Harvest(hostname, pages, searches)|
    ensures var l := Harvest(hostname, pages, searches)[k];
      StartsWith(l.link, "http") && l.title != "" && Admits(hostname(l.url)) &&
      j < |searches| && searches[j].url == l.searchUrl == l.url && searches[j].name == l.searchName
  {
    var n := |searches|;
    var front := Harvest(hostname, pages, searches[..n - 1]);
    var e := searches[n - 1];
    var items := Scrape(hostname, pages, e.url);
    assert Harvest(hostname, pages, searches) == front + Enrich(items, e);
    if k < |front| {
      j := HarvestProvenance(hostname, pages, searches[..n - 1], k);
      assert searches[j] == searches[..n - 1][j];
      assert Harvest(hostname, pages, searches)[k] == front[k];
    } else {
      j := n - 1;
      assert Harvest(hostname, pages, searches)[k] == Enrich(items, e)[k - |front|];
      assert Tagged(Enrich(items, e)[k - |front|], items[k - |front|], e);
      ExtractWellFormed(pages(e.url).containers, e.url, k - |front|);
    }
  }

  /** The identities of a baseline: the set of its records' links. */
  function LinksOf(records: seq<Listing>): (r: set<string>)
    ensures forall i :: 0 <= i < |records| ==> records[i].link in r
    ensures forall link :: link in r ==> exists i :: 0 <= i < |records| && records[i].link == link
  {
    set i | 0 <= i < |records| :: records[i].link
  }

  /** The new listings of a cycle: the records whose link is not in the prior baseline's link set
      `seen`, in encounter order. Defined on the last record, as the diff loop grows its list. */
  function Fresh(all: seq<Listing>, seen: set<string>): (r: seq<Listing>)
    ensures |r| <= |all|
    ensures forall i :: 0 <= i < |r| ==> r[i].link !in seen
  {
    if all == [] then []
    else
      var last := all[|all| - 1];
      Fresh(all[..|all| - 1], seen) + (if last.link !in seen then [last] else [])
  }

  /** The diff distributes over concatenation, so it keeps encounter order. */
  lemma {:induction false} FreshAppend(a: seq<Listing>, b: seq<Listing>, seen: set<string>)
    ensures Fresh(a + b, seen) == Fresh(a, seen) + Fresh(b, seen)
    decreases |b|
  {
    if b == [] {
      assert a + b == a;
    } else {
      var b' := b[..|b| - 1];
      assert (a + b)[..|a + b| - 1] == a + b';
      FreshAppend(a, b', seen);
    }
  }

  /** One record is new exactly when its link was not seen. */
  lemma FreshOne(x: Listing, seen: set<string>)
    ensures Fresh([x], seen) == if x.link !in seen then [x] else []
  {
    assert [x][..0] == [];
  }

  /** A record is among the new listings if and only if it is in the cycle's results and its link
      is not in the prior baseline. */
  lemma {:induction false} FreshMembership(all: seq<Listing>, seen: set<string>, x: Listing)
    ensures x in Fresh(all, seen) <==> x in all && x.link !in seen
  {
    if all != [] {
      var front := all[..|all| - 1];
      FreshMembership(front, seen, x);
      assert all == front + [all[|all| - 1]];
    }
  }

  /** The seen set is fixed for the whole cycle, so records that share a link nobody saw before are
      all new: nothing in the cycle's own results is deduplicated. */
  lemma {:induction false} FreshKeepsUnseen(all: seq<Listing>, seen: set<string>)
    requires forall i :: 0 <= i < |all| ==> all[i].link !in seen
    ensures Fresh(all, seen) == all
  {
    if all != [] {
      FreshKeepsUnseen(all[..|all| - 1], seen);
    }
  }

  /** Against the links of the cycle's own results nothing is new. */
  lemma {:induction false} FreshAgainstItself(all: seq<Listing>)
    ensures Fresh(all, LinksOf(all)) == []
  {
    var seen := LinksOf(all);
    forall x ensures x !in Fresh(all, seen) {
      FreshMembership(all, seen, x);
    }
    if Fresh(all, seen) != [] {
      assert Fresh(all, seen)[0] in Fresh(all, seen);
    }
  }

  /** A listing dropped from one cycle's baseline is new again when a later cycle finds it. */
  lemma Rediscovered(baseline: seq<Listing>, later: seq<Listing>, x: Listing)
    requires x in later && forall i :: 0 <= i < |baseline| ==> baseline[i].link != x.link
    ensures x in Fresh(later, LinksOf(baseline))
  {
    FreshMembership(later, LinksOf(baseline), x);
  }

  /** Two listings over three cycles: with A already known, a page with A and B makes only B new;
      a later page with just A makes nothing new and drops B from the baseline; when B comes back
      afterwards it is new once more. */
  lemma DiffScenario(a: Listing, b: Listing)
    requires a.link != b.link
    ensures Fresh([a, b], LinksOf([a])) == [b]
    ensures Fresh([a], LinksOf([a, b])) == []
  {
    var known := LinksOf([a]);
    assert [a][0] == a;
    assert a.link in known && b.link !in known;
    assert [a, b][..1] == [a] && [a][..0] == [];
    FreshAgainstItself([a]);
    assert Fresh([a], known) == [];
    assert [a, b][1].link in LinksOf([a, b]);
  }

  /** JavaScript's `s || fallback` on strings: the empty string is falsy. */
  function OrElse(s: string, fallback: string): (r: string)
    requires fallback != ""
    ensures r != ""
    ensures s != "" ==> r == s
    ensures s == "" ==> r == fallback
  {
    if s != "" then s else fallback
  }

  const NewBadge := "\U{1F195} **"
  const LinkBadge := "\n\U{1F517} <"

  /** The header line: the search name, or "New Listing" when it is empty, in bold. */
  function Header(l: Listing): string
  {
    NewBadge + OrElse(l.searchName, "New Listing") + "**\n"
  }

  /** The middle line: the title in bold, then the price, or "No price" when it is empty. */
  function Body(l: Listing): string
  {
    "**" + l.title + "** - " + OrElse(l.price, "No price")
  }

  /** The header names the search, or says "New Listing" for a nameless one, between the badge and
      the closing bold marker; the middle line holds the bold title, then the price or "No price". */
  lemma MessageLines(l: Listing)
    ensures StartsWith(Header(l), NewBadge) && EndsWith(Header(l), "**\n")
    ensures l.searchName != "" ==> Header(l)[|NewBadge|..|Header(l)| - 3] == l.searchName
    ensures l.searchName == "" ==> Header(l) == NewBadge + "New Listing" + "**\n"
    ensures StartsWith(Body(l), "**" + l.title + "** - ")
    ensures EndsWith(Body(l), if l.price == "" then "No price" else l.price)
  {
    var h := Header(l);
    var name := OrElse(l.searchName, "New Listing");
    assert h[..|NewBadge|] == NewBadge;
    assert h[|h| - 3..] == "**\n";
    assert h[|NewBadge|..|h| - 3] == name;
    var b := Body(l);
    var head := "**" + l.title + "** - ";
    assert b[..|head|] == head;
    assert b[|b| - |OrElse(l.price, "No price")|..] == OrElse(l.price, "No price");
  }

  /** The Discord message for one new listing: header line, title-and-price line, link line. */
  function Message(l: Listing): (r: string)
    ensures |r| == |Header(l)| + |Body(l)| + |LinkBadge + l.link + ">"|
    ensures StartsWith(r, Header(l))
    ensures EndsWith(r, LinkBadge + l.link + ">")
    ensures r[|Header(l)|..|r| - |LinkBadge + l.link + ">"|] == Body(l)
  {
    var r := Header(l) + Body(l) + (LinkBadge + l.link + ">");
    assert r[..|Header(l)|] == Header(l);
    assert r[|r| - |LinkBadge + l.link + ">"|..] == LinkBadge + l.link + ">";
    assert r[|Header(l)|..|r| - |LinkBadge + l.link + ">"|] == Body(l);
    r
  }

  /** `d` is the post of `l`'s message, with the outcome the webhook gives that message. */
  predicate Announces(d: Delivery, l: Listing, accepts: string -> bool)
  {
    d.content == Message(l) && d.delivered == accepts(d.content)
  }

  /** Sending each new listing once, in order, whatever the webhook answers. */
  function Attempts(ls: seq<Listing>, accepts: string -> bool): (r: seq<Delivery>)
    ensures |r| == |ls|
    ensures forall i :: 0 <= i < |r| ==> Announces(r[i], ls[i], accepts)
  {
    seq(|ls|, i requires 0 <= i < |ls| => Delivery(Message(ls[i]), accepts(Message(ls[i]))))
  }

  /** One more listing appends its post at the end. */
  lemma AttemptsStep(ls: seq<Listing>, k: nat, accepts: string -> bool)
    requires k < |ls|
    ensures Attempts(ls[..k + 1], accepts) ==
      Attempts(ls[..k], accepts) + [Delivery(Message(ls[k]), accepts(Message(ls[k])))]
  {
    var a := Attempts(ls[..k + 1], accepts);
    var b := Attempts(ls[..k], accepts) + [Delivery(Message(ls[k]), accepts(Message(ls[k])))];
    forall i | 0 <= i < |a| ensures a[i] == b[i] {
      assert ls[..k + 1][i] == ls[i];
      if i < k {
        assert ls[..k][i] == ls[i];
      }
    }
  }

  /** Whether a webhook URL is configured: JavaScript truthiness of the environment variable. */
  predicate NotifyEnabled(webhook: Option<string>)
  {
    webhook.Some? && webhook.value != ""
  }
}
