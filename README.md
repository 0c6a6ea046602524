# finn-scraper, modelled in Dafny

finn-scraper watches finn.no search pages. On each cycle it scrapes every search on its watchlist
and tags each listing found with the search it came from. It compares the cycle's listings with
the listings saved by the previous cycle and posts a Discord message for each listing whose link is
new. It then saves the cycle's listings as the new baseline. Two HTTP handlers add a search to the
watchlist and remove one. This project models all of that as it is written in
`finn-scraper/server.js`, in five modules:

- `Wrappers` (Wrappers.dfy): `Option`, `Result`, `Outcome`.
- `Text` (Text.dfy): JavaScript's `trim` with ECMAScript's exact whitespace set (used by `/add`),
  plus `startsWith`/`endsWith` and the decimal notation of a number.
- `Listings` (Listings.dfy): the pure part of a cycle, as values:
  - the domain gate (`Admits`) and link normalisation (`Absolute`);
  - extraction of records from a page's listing containers (`Extract`);
  - tagging with the originating search (`Enrich`) and the whole cycle's records (`Harvest`);
  - the diff against the prior baseline's links (`Fresh`) and the Discord message (`Message`).
- `Watchlist` (Watchlist.dfy): the logic of `/add` and `/remove`: URL normalisation, vetting, the
  default name, append-if-absent and filtering out.
- `Server` (Server.dfy): class `FinnScraper`.
  - Its fields are the two JSON documents (`searches`, `results`) and a log of every GET sent to the
    site (`requested`) and every webhook post (`posted`).
  - Its methods are the loops of `scrapeFinn` and `runScraper`, `sendDiscordNotification`, and the
    bodies of the `/add` and `/remove` handlers.
  - Each method's postcondition ties the new state to the functions of `Listings` and `Watchlist`.

The foreign collaborators are parameters of the model:
- The WHATWG URL parser is the class constant `hostname: string -> Option<string>`; `None` means
  that `new URL` throws.
- What the site answers during a cycle is `pages: string -> Response`. A `Response` is a page of
  containers or a failed fetch. A container is the trimmed title text, the `href` (if any) and
  the trimmed price text of one `article.sf-search-ad`.
- Whether Discord accepts a post is `accepts: string -> bool`.
- `DISCORD_WEBHOOK_URL` is `webhook: Option<string>`. It counts as configured when it is present
  and non-empty, as JavaScript truthiness has it.
- `Math.floor(Math.random() * 1000)` is an input `n < 1000`.

Behaviour the model states outright:
- The domain gate is a plain suffix test on the hostname. It admits look-alike hosts such as
  `evilfinn.no` (`Listings.SuffixGateAdmitsLookalike`). The model keeps this behaviour.
- The baseline is replaced by each cycle's records, not merged with the old one. So a listing that
  disappears and later comes back is reported as new again (`Listings.Rediscovered`,
  `Listings.DiffScenario`).
- The set of prior links is fixed for the whole cycle. Two records in one cycle that share an
  unseen link are both new (`Listings.FreshKeepsUnseen`).

Behaviour of the code worth noting:
- A listing's link is not always an absolute URL. server.js:59 keeps any href that starts with the
  letters `http` and puts `https://www.finn.no` in front of any other without adding a `/`, so
  `item/1` becomes `https://www.finn.noitem/1` (`Listings.PrefixRuleIsTextual`).
- `/remove` (server.js:159-160) compares the submitted URL as it is, with no trim and no `https://`
  prefix, while `/add` stores the normalised URL. Removing `finn.no/x` after adding it removes
  nothing (`Watchlist.RemoveIsLiteral`).
- `/add` prefixes `https://` whenever the trimmed URL is non-empty and does not start with the
  letters `http` (server.js:139); an empty URL is left empty and then fails to parse.
- Unique watchlist URLs are enforced only by `/add`; a hand-edited `searches.json` is not checked.
  The model therefore proves that `/add` and `/remove` preserve uniqueness, not that it always holds.
- `runScraper` has no run lock, so a run from the timer and one from `/run` can overlap.

## Model

| member | source | states |
|---|---|---|
| `Text.Trim` | finn-scraper/server.js:136-137 | the result has no whitespace at either end and is no longer than the input |
| `Text.TrimShape` | finn-scraper/server.js:136-137 | the input is a whitespace run, its trimmed form, and another whitespace run |
| `Text.TrimIdempotent` | finn-scraper/server.js:136-137 | trimming twice is trimming once |
| `Text.StartsWith` | finn-scraper/server.js:59 | JavaScript's `startsWith`: the prefix is no longer than the text and equals its leading part (also `/add`'s scheme test, line 139) |
| `Text.EndsWith` | finn-scraper/server.js:42 | JavaScript's `endsWith`: the suffix is no longer than the text and equals its trailing part (also the gate of `/add`, line 141) |
| `Text.Decimal` | finn-scraper/server.js:148 | a number's decimal text is non-empty, all digits, with no leading zero |
| `Text.DecimalRoundTrip` | finn-scraper/server.js:148 | reading the decimal text back gives the number |
| `Text.DecimalInjective` | finn-scraper/server.js:148 | distinct numbers have distinct decimal texts |
| `Listings.SuffixGateAdmitsLookalike` | finn-scraper/server.js:42 | the `endsWith("finn.no")` gate admits `evilfinn.no` and refuses `finn.no.example.com` |
| `Listings.Absolute` | finn-scraper/server.js:59 | a link that starts with "http" is kept as it is; any other becomes `https://www.finn.no` followed by the link; either way the result starts with "http" |
| `Listings.PrefixRuleIsTextual` | finn-scraper/server.js:59 | the rule tests only the letters `http` and adds no `/`: `httpdocs/help.html` is kept, `item/1` becomes `https://www.finn.noitem/1`, `/item/1` becomes `https://www.finn.no/item/1` |
| `Listings.AbsoluteIdempotent` | finn-scraper/server.js:59 | normalising a normalised link changes nothing |
| `Listings.ItemOf` | finn-scraper/server.js:53-61 | a container's record keeps its title and its price (an empty price stays empty), has the normalised href as its link and the scraped search URL, so its title is non-empty and its link starts with "http" |
| `Listings.Admits` | finn-scraper/server.js:41-42 | the gate: the URL parses and its hostname ends with `finn.no` (`/add` uses the same test at line 141) |
| `Listings.Yields` | finn-scraper/server.js:55 | a container yields a record exactly when its title and its href are both non-empty |
| `Listings.Extract` | finn-scraper/server.js:50-63 | a page gives no more records than it has containers |
| `Listings.ExtractProvenance` | finn-scraper/server.js:50-63 | every record is the record of a qualifying container of the page |
| `Listings.ExtractWellFormed` | finn-scraper/server.js:55-61 | every record has a non-empty title, a link that starts with "http" and the search URL |
| `Listings.ExtractStep` | finn-scraper/server.js:50-62 | one more container appends its record at the end, if it yields one |
| `Listings.ExtractOne` | finn-scraper/server.js:55-62 | one container gives exactly one record when its title and href are non-empty and none otherwise; an empty price still gives a record |
| `Listings.ExtractAppend` | finn-scraper/server.js:50-63 | extraction distributes over concatenation, so output order is container order |
| `Listings.ExtractAllYield` | finn-scraper/server.js:50-63 | a page whose containers all qualify gives one record per container |
| `Listings.ExtractNoneYield` | finn-scraper/server.js:50-63 | a page where no container qualifies gives no records |
| `Listings.Scrape` | finn-scraper/server.js:39-72 | an unparsable URL, a host outside finn.no or a failed fetch gives no records; otherwise the page's extraction |
| `Listings.Gets` | finn-scraper/server.js:41-46 | `scrapeFinn` sends a GET for the URL exactly when the gate admits it, and at most one |
| `Listings.Tag` | finn-scraper/server.js:84-88 | a tagged record keeps the item's fields and adds the entry's URL and name |
| `Listings.Enrich` | finn-scraper/server.js:84-88 | one tagged record per item, in order, with the item's fields unchanged and the entry's URL and name added |
| `Listings.Harvest` | finn-scraper/server.js:79-97 | the cycle's `allResults`: each watchlist entry's scrape tagged with that entry, concatenated in watchlist order |
| `Listings.HarvestAppend` | finn-scraper/server.js:82-97 | the records of a watchlist are the concatenation, in watchlist order, of the records of its parts |
| `Listings.HarvestOne` | finn-scraper/server.js:83-88 | one entry contributes its scraped records, tagged with its URL and name |
| `Listings.HarvestProvenance` | finn-scraper/server.js:82-97 | every record of a cycle has a non-empty title, a link that starts with "http" and an admitted search URL, and carries the URL and name of the watchlist entry it was scraped from |
| `Listings.LinksOf` | finn-scraper/server.js:77 | the link set holds exactly the links of the baseline's records |
| `Listings.Fresh` | finn-scraper/server.js:90-94 | the new listings are no more than the cycle's records, and none of their links was in the prior baseline |
| `Listings.FreshAppend` | finn-scraper/server.js:82-96 | the diff distributes over concatenation, so new listings keep encounter order |
| `Listings.FreshOne` | finn-scraper/server.js:91-93 | a single record is new exactly when its link is unseen |
| `Listings.FreshMembership` | finn-scraper/server.js:77-94 | a record is new if and only if it is among the cycle's records and its link is not in the prior baseline |
| `Listings.FreshKeepsUnseen` | finn-scraper/server.js:77-94 | the link set is not updated during the cycle: when no link was seen, every record is new, duplicates included |
| `Listings.FreshAgainstItself` | finn-scraper/server.js:77-94 | against the cycle's own links nothing is new |
| `Listings.Rediscovered` | finn-scraper/server.js:77-105 | a listing whose link is not in the saved baseline is new when a later cycle finds it |
| `Listings.DiffScenario` | finn-scraper/server.js:77-105 | with A known, A and B make B alone new; with A and B known, A alone makes nothing new |
| `Listings.OrElse` | finn-scraper/server.js:111-112 | JavaScript's or-operator on strings: the value when it is non-empty, the fallback otherwise |
| `Listings.Header` | finn-scraper/server.js:111 | the header line: the new-badge, the search name or "New Listing", the closing bold marker and a newline (its shape is proved in `Listings.MessageLines`) |
| `Listings.Body` | finn-scraper/server.js:112 | the middle line: the bold title, ` - `, then the price or "No price" (its shape is proved in `Listings.MessageLines`) |
| `Listings.MessageLines` | finn-scraper/server.js:111-112 | the header starts with the new-badge and ends with `**` and a newline, holds exactly the search name in between when it is non-empty and "New Listing" otherwise; the middle line starts with the bold title and ` - ` and ends with the price, or with "No price" when the price is empty |
| `Listings.Message` | finn-scraper/server.js:110-114 | the message is the header line (search name or "New Listing"), then the bold title with the price or "No price", then the link line ending in the link |
| `Listings.NotifyEnabled` | finn-scraper/server.js:99 | notifications are sent only when the webhook setting is present and non-empty, JavaScript's truthiness of a string |
| `Listings.Attempts` | finn-scraper/server.js:100-102 | one delivery per new listing, in order, each carrying that listing's message and its own outcome |
| `Listings.AttemptsStep` | finn-scraper/server.js:100-102 | one more listing appends exactly its own post at the end |
| `Watchlist.NormalizeUrl` | finn-scraper/server.js:136-139 | the URL is trimmed, ends with the trimmed input, is empty only if that is, starts with "http" otherwise, and is the trimmed input unchanged exactly when that is empty or starts with "http"; whenever it differs from the trimmed input, it is `https://` followed by that input |
| `Watchlist.NormalizeIdempotent` | finn-scraper/server.js:136-139 | normalising a normalised URL changes nothing |
| `Watchlist.AddError.Reason` | finn-scraper/server.js:142-145 | the text of the 400 answer: "URL must be from finn.no" for a foreign host, "Invalid URL" for a URL that is missing or does not parse |
| `Watchlist.Vet` | finn-scraper/server.js:138-146 | accepted exactly when the normalised URL is present, parses and has a finn.no host; "Invalid URL" exactly when it is missing or does not parse; "must be from finn.no" exactly when its host fails the gate |
| `Watchlist.VettedIsScraped` | finn-scraper/server.js:41-42 | an accepted URL is one that `scrapeFinn` fetches |
| `Watchlist.DefaultName` | finn-scraper/server.js:137-148 | the name is never empty: the trimmed name when it is non-blank, "Search #" and the draw otherwise |
| `Watchlist.PlaceholdersDiffer` | finn-scraper/server.js:148 | different draws give different placeholder names |
| `Watchlist.Watched` | finn-scraper/server.js:151 | `searches.find` succeeds: some entry has exactly the URL |
| `Watchlist.UrlCount` | finn-scraper/server.js:151 | the count is zero exactly when no entry has the URL |
| `Watchlist.UrlCountUnique` | finn-scraper/server.js:151-154 | with unique URLs, at most one entry has a given URL |
| `Watchlist.UrlCountAppend` | finn-scraper/server.js:152 | counts add up over concatenation |
| `Watchlist.AppendIfAbsent` | finn-scraper/server.js:151-154 | the URL is watched afterwards; the list is unchanged if it was watched, otherwise the one new entry is appended at the end |
| `Watchlist.AddSearch` | finn-scraper/server.js:135-154 | `/add` fails exactly when vetting fails, with vetting's reason |
| `Watchlist.AddSearchAppendsOnce` | finn-scraper/server.js:140-154 | an accepted add has an admitted host; it leaves the list unchanged when the URL is watched, and otherwise appends exactly `{name, url}` |
| `Watchlist.AppendIfAbsentKeepsInvariants` | finn-scraper/server.js:151-154 | appending an admitted entry when its URL is absent keeps URLs unique and admitted |
| `Watchlist.AddSearchKeepsInvariants` | finn-scraper/server.js:140-154 | adding keeps URLs unique and keeps every URL admitted by the gate |
| `Watchlist.AddSearchIdempotent` | finn-scraper/server.js:151-154 | adding the same URL again under any name changes nothing, and exactly one entry then has that URL |
| `Watchlist.Without` | finn-scraper/server.js:160 | no entry keeps the URL, every entry with another URL is kept, and nothing new appears |
| `Watchlist.WithoutAppend` | finn-scraper/server.js:160 | removal distributes over concatenation, so survivors keep their order |
| `Watchlist.WithoutAbsent` | finn-scraper/server.js:160 | removing an unwatched URL changes nothing and is not an error |
| `Watchlist.WithoutIdempotent` | finn-scraper/server.js:160 | removing twice is removing once |
| `Watchlist.UniqueSplit` | finn-scraper/server.js:151-154 | a list has unique URLs exactly when its tail has and its head's URL is not in the tail |
| `Watchlist.WithoutKeepsUnique` | finn-scraper/server.js:160 | removal keeps URLs unique |
| `Watchlist.WithoutKeepsAdmitted` | finn-scraper/server.js:160 | removal keeps every URL admitted by the gate |
| `Watchlist.RemoveIsLiteral` | finn-scraper/server.js:159-160 | `/remove` matches the submitted text exactly: after `/add` stored `finn.no/x` as `https://finn.no/x`, removing `finn.no/x` keeps the entry |
| `Watchlist.RemoveUndoesAdd` | finn-scraper/server.js:151-160 | removing the stored (normalised) URL just added gives the list with that URL removed, as before the add; the URL as typed need not match, see `Watchlist.RemoveIsLiteral` |
| `Server.CollectItems` | finn-scraper/server.js:48-63 | the extraction loop returns exactly the page's extraction |
| `Server.CollectNew` | finn-scraper/server.js:90-94 | the diff loop of one batch returns exactly the batch's unseen records |
| `Server.CycleGets` | finn-scraper/server.js:82-83 | a cycle sends at most one GET per entry, and only to admitted URLs |
| `Server.CycleStep` | finn-scraper/server.js:82-97 | one more entry appends its records and its request at the end |
| `Server.FinnScraper.constructor` | finn-scraper/server.js:21-37 | the process starts over the two documents as stored, with nothing sent yet |
| `Server.FinnScraper.ScrapeFinn` | finn-scraper/server.js:39-72 | returns the URL's scrape; a GET is logged only for an admitted URL, so a bad domain is refused before any request |
| `Server.FinnScraper.SendDiscordNotification` | finn-scraper/server.js:109-122 | exactly one post of the listing's message is logged, and its outcome changes nothing else |
| `Server.FinnScraper.NotifyAll` | finn-scraper/server.js:100-102 | one post per new listing, in order, whatever each delivery's outcome |
| `Server.FinnScraper.ScrapeAll` | finn-scraper/server.js:79-97 | the watchlist loop yields the cycle's records, its unseen records and its requests |
| `Server.FinnScraper.RunScraper` | finn-scraper/server.js:74-107 | the baseline becomes exactly the cycle's records; posts are the new listings' messages in order when a webhook is configured, and none otherwise |
| `Server.FinnScraper.Add` | finn-scraper/server.js:135-156 | a refused add returns its reason and leaves the watchlist unchanged; an accepted one leaves it as `AddSearch` says |
| `Server.FinnScraper.Remove` | finn-scraper/server.js:158-163 | the watchlist becomes the old one without the URL |

## Left out

- Express setup, static files, redirects, status codes and `app.listen` are HTTP glue. `/searches`,
  `/status` and `/run`'s count only read the fields `searches` and `results`.
- File I/O and JSON: each document is a field that is read and replaced whole. Creating an absent
  file as `[]` is left to the caller of the constructor. Unreadable or malformed files are not
  modelled.
- The HTML parser: a page is given as a sequence of containers, already selected. Each container's
  title and price arrive already trimmed, so the `.trim()` of lines 51 and 53 belongs to the parser.
  If an article had several title anchors, cheerio would concatenate their text; that case is not
  modelled.
- Request fields are taken to be strings or absent (`Option<string>`). A `url` or `name` sent as a
  JSON number, or as an array or object through the extended urlencoded parser, makes `.trim()`
  throw at server.js:136-137, outside the `try`; Express then answers 500 and the watchlist stays
  unchanged. That case is not modelled.
- Webhook outcomes are a function `accepts` of the message text, so two posts with the same content
  get the same outcome; at server.js:117 each POST succeeds or fails on its own. Nothing reads an
  outcome, so no contract depends on this.
- The URL parser is taken as the given function `hostname`; the URL standard is not re-implemented.
- The site's answers are a fixed function of the URL for the length of one cycle. A URL asked for
  twice in one cycle gets the same answer both times.
- The webhook POST is modelled by its `content` text and an outcome. The JSON envelope and the
  address it is sent to are not modelled.
- Scheduling is not modelled: the ten-minute `setInterval`, the run at startup, overlapping runs
  from the timer and `/run` (server.js has no lock), and async suspension. The model runs one
  cycle at a time.
- Console logging, `dotenv` and the `PORT` setting have no effect on the state and are left out.
- `Server.FinnScraper.Remove`: takes the submitted URL as a string. A request without a `url`
  field, which in server.js removes nothing, is not modelled.
