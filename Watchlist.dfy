/** The watchlist handlers' logic: how `/add` normalises and vets a URL, names the search and adds
    it only when its URL is not yet watched, and how `/remove` filters a URL out. */
module Watchlist {
  import opened Wrappers
  import opened Text
  import opened Listings

  /** Why `/add` turned a URL away, with the text of its 400 response. */
  datatype AddError = InvalidUrl | WrongDomain {
    function Reason(): string
    {
      match this
      case InvalidUrl => "Invalid URL"
      case WrongDomain => "URL must be from finn.no"
    }
  }

  /** The URL `/add` works with: the submitted one trimmed, with "https://" put in front when it is
      non-empty and does not start with "http". A missing field stays missing. */
  function NormalizeUrl(raw: Option<string>): (r: Option<string>)
    ensures r.Some? <==> raw.Some?
    ensures r.Some? ==> Trimmed(r.value) && EndsWith(r.value, Trim(raw.value))
    ensures r.Some? ==> (r.value == "" <==> Trim(raw.value) == "")
    ensures r.Some? && r.value != "" ==> StartsWith(r.value, "http")
    ensures r.Some? ==> (r.value == Trim(raw.value) <==> Trim(raw.value) == "" || StartsWith(Trim(raw.value), "http"))
    ensures r.Some? && r.value != Trim(raw.value) ==> r.value == "https://" + Trim(raw.value)
  {
    match raw
    case None => None
    case Some(s) =>
      var t := Trim(s);
      if t != "" && !StartsWith(t, "http") then
        var u := "https://" + t;
        assert u[..4] == "http" && u[|u| - |t|..] == t && u[|u| - 1] == t[|t| - 1];
        Some(u)
      else
        assert t[|t| - |t|..] == t;
        Some(t)
  }

  /** Normalising a normalised URL changes nothing. */
  lemma NormalizeIdempotent(raw: Option<string>)
    ensures NormalizeUrl(NormalizeUrl(raw)) == NormalizeUrl(raw)
  {
    if raw.Some? {
      TrimOfTrimmed(NormalizeUrl(raw).value);
    }
  }

  /** `/add`'s validation: the normalised URL must be present, parse, and have an admitted host. */
  function Vet(hostname: string -> Option<string>, raw: Option<string>): (r: Result<string, AddError>)
    ensures r.Success? <==> NormalizeUrl(raw).Some? && Admits(hostname(NormalizeUrl(raw).value))
    ensures r.Success? ==> r.value == NormalizeUrl(raw).value
    ensures r == Failure(InvalidUrl) <==> raw.None? || hostname(NormalizeUrl(raw).value).None?
    ensures r == Failure(WrongDomain) <==>
      raw.Some? && hostname(NormalizeUrl(raw).value).Some? && !Admits(hostname(NormalizeUrl(raw).value))
  {
    match NormalizeUrl(raw)
    case None => Failure(InvalidUrl)
    case Some(u) =>
      match hostname(u)
      case None => Failure(InvalidUrl)
      case Some(h) => if EndsWith(h, FinnDomain) then Success(u) else Failure(WrongDomain)
  }

  /** A URL `/add` accepts is one `scrapeFinn` will fetch: both use the same gate. */
  lemma VettedIsScraped(hostname: string -> Option<string>, raw: Option<string>)
    requires Vet(hostname, raw).Success?
    ensures Gets(hostname, Vet(hostname, raw).value) == [Vet(hostname, raw).value]
  {
  }

  /** The name a new search gets: the submitted one trimmed, or "Search #n" when it is missing or
      blank, `n` being the random draw. */
  function DefaultName(raw: Option<string>, n: nat): (r: string)
    ensures r != ""
    ensures raw.Some? && Trim(raw.value) != "" ==> r == Trim(raw.value)
    ensures raw.None? || Trim(raw.value) == "" ==> r == "Search #" + Decimal(n)
  {
    if raw.Some? && Trim(raw.value) != "" then Trim(raw.value) else "Search #" + Decimal(n)
  }

  /** Two different draws give two different placeholder names. */
  lemma PlaceholdersDiffer(m: nat, n: nat)
    requires m != n
    ensures DefaultName(None, m) != DefaultName(None, n)
  {
    if DefaultName(None, m) == DefaultName(None, n) {
      var p := "Search #";
      assert Decimal(m) == DefaultName(None, m)[|p|..];
      assert Decimal(n) == DefaultName(None, n)[|p|..];
      DecimalInjective(m, n);
    }
  }

  /** Some entry of `list` has URL `url` (what `searches.find` looks for). */
  predicate Watched(list: seq<Search>, url: string)
  {
    exists i :: 0 <= i < |list| && list[i].url == url
  }

  /** No two entries share a URL. */
  predicate UniqueUrls(list: seq<Search>)
  {
    forall i, j :: 0 <= i < j < |list| ==> list[i].url != list[j].url
  }

  /** Every entry's URL passes the domain gate. */
  predicate AllAdmitted(hostname: string -> Option<string>, list: seq<Search>)
  {
    forall i :: 0 <= i < |list| ==> Admits(hostname(list[i].url))
  }

  /** How many entries have URL `url`. */
  function UrlCount(list: seq<Search>, url: string): (r: nat)
    ensures r <= |list|
    ensures r == 0 <==> !Watched(list, url)
  {
    if list == [] then 0
    else
      assert forall i :: 0 < i < |list| ==> list[i] == list[1..][i - 1];
      (if list[0].url == url then 1 else 0) + UrlCount(list[1..], url)
  }

  lemma {:induction false} UrlCountUnique(list: seq<Search>, url: string)
    requires UniqueUrls(list)
    ensures UrlCount(list, url) <= 1
  {
    if list != [] {
      UrlCountUnique(list[1..], url);
    }
  }

  lemma {:induction false} UrlCountAppend(a: seq<Search>, b: seq<Search>, url: string)
    ensures UrlCount(a + b, url) == UrlCount(a, url) + UrlCount(b, url)
  {
    if a == [] {
      assert a + b == b;
    } else {
      assert (a + b)[1..] == a[1..] + b;
      UrlCountAppend(a[1..], b, url);
    }
  }

  /** The watchlist after `/add` accepted `s`: unchanged when its URL is watched, else `s` appended. */
  function AppendIfAbsent(list: seq<Search>, s: Search): (r: seq<Search>)
    ensures Watched(r, s.url)
    ensures Watched(list, s.url) ==> r == list
    ensures !Watched(list, s.url) ==> r == list + [s]
  {
    if Watched(list, s.url) then list
    else
      assert (list + [s])[|list|] == s;
      list + [s]
  }

  /** What `/add` makes of the watchlist: the reason it refused, or the new watchlist. */
  function AddSearch(list: seq<Search>, hostname: string -> Option<string>,
                     rawUrl: Option<string>, rawName: Option<string>, n: nat): (r: Result<seq<Search>, AddError>)
    ensures r.Failure? <==> Vet(hostname, rawUrl).Failure?
    ensures r.Failure? ==> r.error == Vet(hostname, rawUrl).error
  {
    match Vet(hostname, rawUrl)
    case Failure(e) => Failure(e)
    case Success(u) => Success(AppendIfAbsent(list, Search(DefaultName(rawName, n), u)))
  }

  /** An accepted `/add` leaves the list as it was when its URL is already watched and otherwise
      appends exactly one entry, at the end, whose URL passed the gate. */
  lemma AddSearchAppendsOnce(list: seq<Search>, hostname: string -> Option<string>,
                             rawUrl: Option<string>, rawName: Option<string>, n: nat)
    requires Vet(hostname, rawUrl).Success?
    ensures var url := NormalizeUrl(rawUrl).value;
      var r := AddSearch(list, hostname, rawUrl, rawName, n).value;
      Admits(hostname(url)) &&
      (Watched(list, url) ==> r == list) &&
      (!Watched(list, url) ==> r == list + [Search(DefaultName(rawName, n), url)])
  {
  }

  /** Appending an entry whose URL is admitted, unless its URL is watched, keeps URLs unique and
      admitted. */
  lemma AppendIfAbsentKeepsInvariants(hostname: string -> Option<string>, list: seq<Search>, s: Search)
    requires UniqueUrls(list) && AllAdmitted(hostname, list) && Admits(hostname(s.url))
    ensures UniqueUrls(AppendIfAbsent(list, s)) && AllAdmitted(hostname, AppendIfAbsent(list, s))
  {
    if !Watched(list, s.url) {
      var r := list + [s];
      forall i, j | 0 <= i < j < |r| ensures r[i].url != r[j].url {
        assert r[i] == list[i];
        if j < |list| {
          assert r[j] == list[j];
        }
      }
    }
  }

  /** `/add` keeps URLs unique and keeps every URL admitted. */
  lemma AddSearchKeepsInvariants(list: seq<Search>, hostname: string -> Option<string>,
                                 rawUrl: Option<string>, rawName: Option<string>, n: nat)
    requires UniqueUrls(list) && AllAdmitted(hostname, list)
    requires AddSearch(list, hostname, rawUrl, rawName, n).Success?
    ensures UniqueUrls(AddSearch(list, hostname, rawUrl, rawName, n).value)
    ensures AllAdmitted(hostname, AddSearch(list, hostname, rawUrl, rawName, n).value)
  {
    var s := Search(DefaultName(rawName, n), Vet(hostname, rawUrl).value);
    AppendIfAbsentKeepsInvariants(hostname, list, s);
  }

  /** Adding the same URL a second time, under any name, changes nothing, and afterwards exactly one
      entry carries that URL if at most one did before. */
  lemma AddSearchIdempotent(list: seq<Search>, hostname: string -> Option<string>,
                            rawUrl: Option<string>, name1: Option<string>, n1: nat,
                            name2: Option<string>, n2: nat)
    requires AddSearch(list, hostname, rawUrl, name1, n1).Success?
    requires UrlCount(list, NormalizeUrl(rawUrl).value) <= 1
    ensures var once := AddSearch(list, hostname, rawUrl, name1, n1).value;
      AddSearch(once, hostname, rawUrl, name2, n2) == Success(once) &&
      UrlCount(once, NormalizeUrl(rawUrl).value) == 1
  {
    var url := NormalizeUrl(rawUrl).value;
    if !Watched(list, url) {
      UrlCountAppend(list, [Search(DefaultName(name1, n1), url)], url);
      assert [Search(DefaultName(name1, n1), url)][1..] == [];
    }
  }

  /** The watchlist after `/remove url`: every entry with that URL dropped, the others kept in order. */
  function Without(list: seq<Search>, url: string): (r: seq<Search>)
    ensures |r| <= |list|
    ensures !Watched(r, url)
    ensures forall i :: 0 <= i < |list| && list[i].url != url ==> list[i] in r
    ensures forall x :: x in r ==> x in list
  {
    if list == [] then []
    else
      assert forall i :: 0 < i < |list| ==> list[i] == list[1..][i - 1];
      (if list[0].url == url then [] else [list[0]]) + Without(list[1..], url)
  }

  /** Removal is a filter, so it keeps the surviving entries' relative order. */
  lemma {:induction false} WithoutAppend(a: seq<Search>, b: seq<Search>, url: string)
    ensures Without(a + b, url) == Without(a, url) + Without(b, url)
  {
    if a == [] {
      assert a + b == b;
    } else {
      assert (a + b)[1..] == a[1..] + b;
      WithoutAppend(a[1..], b, url);
    }
  }

  /** Removing a URL nobody watches is not an error and changes nothing. */
  lemma {:induction false} WithoutAbsent(list: seq<Search>, url: string)
    requires !Watched(list, url)
    ensures Without(list, url) == list
  {
    if list != [] {
      WithoutAbsent(list[1..], url);
    }
  }

  /** Removing twice is removing once. */
  lemma WithoutIdempotent(list: seq<Search>, url: string)
    ensures Without(Without(list, url), url) == Without(list, url)
  {
    WithoutAbsent(Without(list, url), url);
  }

  /** A non-empty list has unique URLs exactly when its tail has and its head's URL is not in it. */
  lemma UniqueSplit(list: seq<Search>)
    requires list != []
    ensures UniqueUrls(list) <==> UniqueUrls(list[1..]) && !Watched(list[1..], list[0].url)
  {
    var tail := list[1..];
    if UniqueUrls(tail) && !Watched(tail, list[0].url) {
      forall i, j | 0 <= i < j < |list| ensures list[i].url != list[j].url {
        assert list[j] == tail[j - 1];
        if i > 0 {
          assert list[i] == tail[i - 1];
        }
      }
    }
    if UniqueUrls(list) {
      forall i, j | 0 <= i < j < |tail| ensures tail[i].url != tail[j].url {
        assert tail[i] == list[i + 1] && tail[j] == list[j + 1];
      }
      forall j | 0 <= j < |tail| ensures tail[j].url != list[0].url {
        assert tail[j] == list[j + 1];
      }
    }
  }

  /** Removal keeps URLs unique. */
  lemma {:induction false} WithoutKeepsUnique(list: seq<Search>, url: string)
    requires UniqueUrls(list)
    ensures UniqueUrls(Without(list, url))
  {
    if list != [] {
      var tail := list[1..];
      UniqueSplit(list);
      WithoutKeepsUnique(tail, url);
      var rest := Without(tail, url);
      if list[0].url != url {
        var r := Without(list, url);
        assert r[0] == list[0] && r[1..] == rest;
        assert !Watched(rest, list[0].url) by {
          forall j | 0 <= j < |rest| ensures rest[j].url != list[0].url {
            assert rest[j] in tail;
          }
        }
        UniqueSplit(r);
      }
    }
  }

  /** Removal keeps every URL admitted. */
  lemma WithoutKeepsAdmitted(hostname: string -> Option<string>, list: seq<Search>, url: string)
    requires AllAdmitted(hostname, list)
    ensures AllAdmitted(hostname, Without(list, url))
  {
    var r := Without(list, url);
    forall i | 0 <= i < |r| ensures Admits(hostname(r[i].url)) {
      assert r[i] in list;
    }
  }

  /** Removing the URL just added undoes the addition. */
  /** `/remove` compares the submitted text as it is: the short form of a URL that `/add` stored with
      "https://" in front matches nothing, so the entry stays. */
  lemma RemoveIsLiteral()
    ensures NormalizeUrl(Some("finn.no/x")) == Some("https://finn.no/x")
    ensures Without([Search("n", "https://finn.no/x")], "finn.no/x") == [Search("n", "https://finn.no/x")]
  {
    assert Trimmed("finn.no/x");
    TrimOfTrimmed("finn.no/x");
    assert "finn.no/x"[..4][0] != "http"[0];
    assert !StartsWith("finn.no/x", "http");
    assert "https://" + "finn.no/x" == "https://finn.no/x";
  }

  lemma RemoveUndoesAdd(list: seq<Search>, s: Search)
    ensures Without(AppendIfAbsent(list, s), s.url) == Without(list, s.url)
  {
    if !Watched(list, s.url) {
      WithoutAppend(list, [s], s.url);
      assert [s][1..] == [];
    }
  }
}
