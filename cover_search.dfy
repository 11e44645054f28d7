/**
 * The online cover search: clean the title and the author, ask Google Books for a
 * thumbnail, and only when that yields nothing ask OpenLibrary for a cover id.
 * Each HTTP request is an input: `fetch` maps the requested URL to its reply.
 */
module CoverSearch {
  import opened Wrappers
  import opened Text
  import opened Json

  const Http: string := "http://"
  const Https: string := "https://"
  const GoogleBase: string := "https://www.googleapis.com/books/v1/volumes?q="
  const GoogleTail: string := "&maxResults=1"
  const OpenLibraryBase: string := "https://openlibrary.org/search.json?"
  const OpenLibraryTail: string := "&limit=1"
  const CoverBase: string := "https://covers.openlibrary.org/b/id/"
  const CoverTail: string := "-L.jpg"

  /** The title without `.epub` and `.txt`, cut at the first `(`, stripped. */
  function CleanTitle(title: string): string {
    var bare := Replace(Replace(title, ".epub", ""), ".txt", "");
    Strip(Split(bare, '(')[0])
  }

  /** An empty author stays empty; otherwise `Unknown` is removed and the rest stripped. */
  function CleanAuthor(author: string): string {
    if author == [] then [] else Strip(Replace(author, "Unknown", ""))
  }

  /**
   * The cleaned title is the stripped text before the first `(` of the title with
   * `.epub` and `.txt` removed (all of it when there is no `(`); a title naming
   * neither extension keeps its text. It holds no `(` and no whitespace at either end.
   */
  lemma CleanTitleSpec(title: string)
    ensures var bare := Replace(Replace(title, ".epub", ""), ".txt", "");
            exists k :: 0 <= k <= |bare| && '(' !in bare[..k] && (k < |bare| ==> bare[k] == '(')
                        && CleanTitle(title) == Strip(bare[..k])
    ensures !Contains(title, ".epub") && !Contains(title, ".txt") ==>
            Replace(Replace(title, ".epub", ""), ".txt", "") == title
    ensures '(' !in CleanTitle(title)
    ensures CleanTitle(title) == [] || (!IsSpace(CleanTitle(title)[0]) && !IsSpace(CleanTitle(title)[|CleanTitle(title)| - 1]))
  {
    var bare := Replace(Replace(title, ".epub", ""), ".txt", "");
    var part := Split(bare, '(')[0];
    SplitFirstIsPrefix(bare, '(');
    assert bare[..|part|] == part;
    if !Contains(title, ".epub") && !Contains(title, ".txt") {
      ReplaceAbsent(title, ".epub", "");
      ReplaceAbsent(title, ".txt", "");
    }
    StripKeepsCharacters(part);
    StripSpec(part);
  }

  /** A string without the pattern is left as it is by the replacement. */
  lemma {:induction false} ReplaceAbsent(s: string, pat: string, rep: string)
    requires pat != []
    requires !Contains(s, pat)
    ensures Replace(s, pat, rep) == s
    decreases |s|
  {
    if |s| >= |pat| {
      assert s[..|pat|] != pat;
      ReplaceAbsent(s[1..], pat, rep);
    }
  }

  /** The cleaned author is empty for an empty author, and is the stripped author when it does not say `Unknown`. */
  lemma CleanAuthorSpec(author: string)
    ensures author == [] ==> CleanAuthor(author) == []
    ensures author != [] && !Contains(author, "Unknown") ==> CleanAuthor(author) == Strip(author)
    ensures CleanAuthor(author) == [] || (!IsSpace(CleanAuthor(author)[0]) && !IsSpace(CleanAuthor(author)[|CleanAuthor(author)| - 1]))
  {
    if author != [] {
      StripSpec(Replace(author, "Unknown", ""));
      if !Contains(author, "Unknown") {
        ReplaceAbsent(author, "Unknown", "");
      }
    }
  }

  /** Removal is one left-to-right pass: an extension that the pass assembles survives. */
  lemma ExtensionRemovalIsSinglePass()
    ensures Replace(".ep.epubub", ".epub", "") == ".epub"
  {
    var s := ".ep.epubub";
    assert s[3..8] == ".epub";
    assert Replace(s[8..], ".epub", "") == "ub";
    assert Replace(s[3..], ".epub", "") == "ub";
    assert Replace(s[2..], ".epub", "") == "pub";
    assert Replace(s[1..], ".epub", "") == "epub";
  }

  // ---------------------------------------------------------------------------
  // Queries

  function GoogleQuery(t: string, a: string): string {
    "intitle:" + t + (if a != [] then "+inauthor:" + a else "")
  }

  function OpenLibraryQuery(t: string, a: string): string {
    "title=" + t + (if a != [] then "&author=" + a else "")
  }

  function GoogleUrl(t: string, a: string): string { GoogleBase + GoogleQuery(t, a) + GoogleTail }

  function OpenLibraryUrl(t: string, a: string): string { OpenLibraryBase + OpenLibraryQuery(t, a) + OpenLibraryTail }

  /** Both queries name the title first, and name the author exactly when the cleaned author is non-empty. */
  lemma QueriesNameAuthorIff(t: string, a: string)
    ensures StartsWith(GoogleQuery(t, a), "intitle:" + t)
    ensures StartsWith(OpenLibraryQuery(t, a), "title=" + t)
    ensures GoogleQuery(t, a) == "intitle:" + t <==> a == []
    ensures OpenLibraryQuery(t, a) == "title=" + t <==> a == []
    ensures a != [] ==> GoogleQuery(t, a)[|"intitle:" + t|..] == "+inauthor:" + a
    ensures a != [] ==> OpenLibraryQuery(t, a)[|"title=" + t|..] == "&author=" + a
  {
    if a != [] {
      assert |GoogleQuery(t, a)| > |"intitle:" + t|;
      assert |OpenLibraryQuery(t, a)| > |"title=" + t|;
    }
    assert GoogleQuery(t, a)[..|"intitle:" + t|] == "intitle:" + t;
    assert OpenLibraryQuery(t, a)[..|"title=" + t|] == "title=" + t;
  }

  // ---------------------------------------------------------------------------
  // Rewriting the thumbnail to https

  /** An occurrence needs room for the pattern. */
  lemma {:induction false} ContainsFits(s: string, p: string)
    requires Contains(s, p)
    ensures |p| <= |s|
    decreases |s|
  {
    if !StartsWith(s, p) {
      ContainsFits(s[1..], p);
    }
  }

  /**
   * The rewritten text starts with the original text's own characters up to the
   * first `h`: a prefix without `h` is never produced by a replacement.
   */
  lemma {:induction false} RewritePrefix(s: string, w: string)
    requires 'h' !in w
    requires StartsWith(Replace(s, Http, Https), w)
    ensures StartsWith(s, w)
    decreases |s|
  {
    var r := Replace(s, Http, Https);
    if w != [] && |s| >= |Http| {
      if s[..|Http|] == Http {
        RewriteOfHttpStartsWithH(s, w);
        assert false;
      } else {
        assert r == [s[0]] + Replace(s[1..], Http, Https);
        assert r[1..] == Replace(s[1..], Http, Https);
        assert StartsWith(r[1..], w[1..]) by {
          assert r[1..][..|w[1..]|] == r[..|w|][1..];
        }
        assert 'h' !in w[1..] by {
          forall k | 0 <= k < |w[1..]| ensures w[1..][k] != 'h' {
            assert w[1..][k] == w[k + 1];
          }
        }
        RewritePrefix(s[1..], w[1..]);
        assert s[..|w|] == [s[0]] + s[1..][..|w[1..]|];
      }
    }
  }

  /** A text starting with `http://` is rewritten to one starting with `h`. */
  lemma RewriteOfHttpStartsWithH(s: string, w: string)
    requires |s| >= |Http| && s[..|Http|] == Http
    requires w != [] && 'h' !in w
    ensures !StartsWith(Replace(s, Http, Https), w)
  {
    var r := Replace(s, Http, Https);
    assert r[0] == 'h';
  }

  /** Characters other than `h` put in front of a text create no `http://`. */
  lemma {:induction false} PrependNonH(w: string, rest: string)
    requires 'h' !in w
    requires !Contains(rest, Http)
    ensures !Contains(w + rest, Http)
    decreases |w|
  {
    if w == [] {
      assert w + rest == rest;
    } else {
      var u := w + rest;
      assert !StartsWith(u, Http) by { assert u[0] == w[0] != Http[0]; }
      assert u[1..] == w[1..] + rest;
      assert 'h' !in w[1..] by {
        forall k | 0 <= k < |w[1..]| ensures w[1..][k] != 'h' {
          assert w[1..][k] == w[k + 1];
        }
      }
      PrependNonH(w[1..], rest);
    }
  }

  /** `https://` followed by text without `http://` holds no `http://`. */
  lemma HttpsPrefixAddsNoHttp(rest: string)
    requires !Contains(rest, Http)
    ensures !Contains(Https + rest, Http)
  {
    var u := Https + rest;
    assert !StartsWith(u, Http) by { assert u[4] == 's' != Http[4]; }
    PrependNonH(Https[1..], rest);
    assert u[1..] == Https[1..] + rest;
  }

  /** After the rewrite no `http://` is left: every occurrence became `https://` and none is created. */
  lemma {:induction false} RewriteLeavesNoHttp(s: string)
    ensures !Contains(Replace(s, Http, Https), Http)
    decreases |s|
  {
    var r := Replace(s, Http, Https);
    if |s| < |Http| {
      if Contains(r, Http) {
        ContainsFits(r, Http);
      }
    } else if s[..|Http|] == Http {
      RewriteLeavesNoHttp(s[|Http|..]);
      HttpsPrefixAddsNoHttp(Replace(s[|Http|..], Http, Https));
    } else {
      var tail := Replace(s[1..], Http, Https);
      RewriteLeavesNoHttp(s[1..]);
      assert r == [s[0]] + tail;
      assert r[1..] == tail;
      if StartsWith(r, Http) {
        // The tail would start with "ttp://", which only s itself can supply.
        var w := Http[1..];
        assert 'h' !in w;
        assert StartsWith(tail, w) by {
          assert tail[..|w|] == r[1..|Http|];
        }
        RewritePrefix(s[1..], w);
        assert false;
      }
    }
  }

  // ---------------------------------------------------------------------------
  // Reading the replies

  /** One HTTP reply: the request raised (timeout, connection), or a status with a body that may not be JSON. */
  datatype Reply = Unreachable | Answered(status: int, body: Result<Json, string>)

  /** `d.get(k, default)`. */
  function GetOr(d: map<string, Json>, k: string, default: Json): Json {
    if k in d then d[k] else default
  }

  /** Python's `a or b` over two looked-up values, a missing one reading as None. */
  function PyOr(a: Option<Json>, b: Option<Json>): Json {
    if a.Some? && PyTruthy(a.value) then a.value else b.GetOr(JNull)
  }

  /** The first element of a non-empty JSON list of objects stored under `key`, the only shape that does not raise. */
  function FirstObject(data: Json, key: string): Option<map<string, Json>> {
    if data.JObj? && key in data.fields && data.fields[key].JArr? && |data.fields[key].items| > 0
       && data.fields[key].items[0].JObj?
    then Some(data.fields[key].items[0].fields)
    else None
  }

  /**
   * The Google step: the thumbnail, else the small thumbnail, of the first volume,
   * rewritten to https. None when anything is missing, falsy or of the wrong type,
   * which the source either skips or catches.
   */
  function GoogleCover(reply: Reply): Option<string> {
    if !reply.Answered? || reply.status != 200 || reply.body.Err? then None
    else match FirstObject(reply.body.value, "items")
      case None => None
      case Some(volume) =>
        var info := GetOr(volume, "volumeInfo", JObj(map[]));
        if !info.JObj? then None
        else
          var links := GetOr(info.fields, "imageLinks", JObj(map[]));
          if !links.JObj? then None
          else
            var url := PyOr(Get(links.fields, "thumbnail"), Get(links.fields, "smallThumbnail"));
            if PyTruthy(url) && url.JStr? then Some(Replace(url.s, Http, Https)) else None
  }

  /** Python's str() of a scalar JSON value; `repr` renders lists and dicts. */
  function PyStr(j: Json, repr: Json -> string): string {
    match j
    case JNull => "None"
    case JBool(b) => if b then "True" else "False"
    case JNum(n) => IntToString(n)
    case JStr(s) => s
    case _ => repr(j)
  }

  /** The OpenLibrary step: the large cover of the first document's truthy `cover_i`. */
  function OpenLibraryCover(reply: Reply, repr: Json -> string): Option<string> {
    if !reply.Answered? || reply.status != 200 || reply.body.Err? then None
    else match FirstObject(reply.body.value, "docs")
      case None => None
      case Some(doc) =>
        var coverId := GetOr(doc, "cover_i", JNull);
        if PyTruthy(coverId) then Some(CoverBase + PyStr(coverId, repr) + CoverTail) else None
  }

  /** A search's answer and the URLs it requested, in order. */
  datatype Search = Search(cover: Option<string>, requested: seq<string>)

  /** `search_cover_online`. */
  function SearchOutcome(title: string, author: string, fetch: string -> Reply, repr: Json -> string): Search {
    if title == [] then Search(None, [])
    else
      var t := CleanTitle(title);
      var a := CleanAuthor(author);
      var g := GoogleUrl(t, a);
      match GoogleCover(fetch(g))
      case Some(u) => Search(Some(u), [g])
      case None =>
        var o := OpenLibraryUrl(t, a);
        Search(OpenLibraryCover(fetch(o), repr), [g, o])
  }

  /**
   * An empty title asks nothing. Otherwise Google is asked first, OpenLibrary only
   * when Google yields no cover; a Google cover holds no `http://`, and an
   * OpenLibrary cover is a large image under the covers host.
   */
  lemma SearchSpec(title: string, author: string, fetch: string -> Reply, repr: Json -> string)
    ensures var s := SearchOutcome(title, author, fetch, repr);
            (title == [] <==> s.requested == [])
            && (title == [] ==> s.cover.None?)
    ensures title != [] ==>
            var s := SearchOutcome(title, author, fetch, repr);
            var g := GoogleUrl(CleanTitle(title), CleanAuthor(author));
            var o := OpenLibraryUrl(CleanTitle(title), CleanAuthor(author));
            s.requested[0] == g
            && (GoogleCover(fetch(g)).Some? ==> s.requested == [g] && s.cover == GoogleCover(fetch(g))
                                                && !Contains(s.cover.value, Http))
            && (GoogleCover(fetch(g)).None? ==> s.requested == [g, o] && s.cover == OpenLibraryCover(fetch(o), repr))
            && (s.cover.Some? && |s.requested| == 2 ==> StartsWith(s.cover.value, CoverBase) && EndsWith(s.cover.value, CoverTail))
  {
    if title != [] {
      var g := GoogleUrl(CleanTitle(title), CleanAuthor(author));
      var reply := fetch(g);
      if GoogleCover(reply).Some? {
        var url := PyOr(Get(GetOr(GetOr(FirstObject(reply.body.value, "items").value, "volumeInfo", JObj(map[])).fields,
                                  "imageLinks", JObj(map[])).fields, "thumbnail"),
                        Get(GetOr(GetOr(FirstObject(reply.body.value, "items").value, "volumeInfo", JObj(map[])).fields,
                                  "imageLinks", JObj(map[])).fields, "smallThumbnail"));
        RewriteLeavesNoHttp(url.s);
      }
    }
  }

  /**
   * `search_cover_online` as the coroutine runs it: the providers in turn, each
   * step returning as soon as it has a cover.
   */
  method SearchCoverOnline(title: string, author: string, fetch: string -> Reply, repr: Json -> string)
    returns (cover: Option<string>, requested: seq<string>)
    ensures Search(cover, requested) == SearchOutcome(title, author, fetch, repr)
  {
    requested := [];
    if title == [] {
      return None, requested;
    }
    var cleanTitle := CleanTitle(title);
    var cleanAuthor := CleanAuthor(author);

    var query := "intitle:" + cleanTitle;
    if cleanAuthor != [] {
      query := query + ("+inauthor:" + cleanAuthor);
    }
    var url := GoogleBase + query + GoogleTail;
    assert url == GoogleUrl(cleanTitle, cleanAuthor);
    requested := requested + [url];
    var reply := fetch(url);
    var google := GoogleCover(reply);
    if google.Some? {
      return google, requested;
    }

    query := "title=" + cleanTitle;
    if cleanAuthor != [] {
      query := query + ("&author=" + cleanAuthor);
    }
    url := OpenLibraryBase + query + OpenLibraryTail;
    assert url == OpenLibraryUrl(cleanTitle, cleanAuthor);
    requested := requested + [url];
    reply := fetch(url);
    return OpenLibraryCover(reply, repr), requested;
  }
}
