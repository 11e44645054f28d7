/**
 * The front end's books store: the list of book records the reader shows and
 * the actions that import a book, fetch its chapters, record reading progress,
 * delete a book and reload the list. Server responses, the clock and the file
 * the user picked are inputs; a record the store holds is a JSON object.
 */
module BooksStore {
  import opened Wrappers
  import opened Text
  import opened Json
  import TxtParser
  import EpubArchive
  import EpubParser

  const UnknownAuthor: string := "未知作者"
  const UnsupportedFormat: string := "不支持的文件格式: "

  /** `book.id === id`; a record without an id never matches. */
  predicate HasId(book: Record, id: Json) {
    "id" in book && book["id"] == id
  }

  /** `findIndex`: the first position whose record holds the id, or -1. */
  function FindIndex(books: seq<Record>, id: Json): (r: int)
    ensures -1 <= r < |books|
    ensures r >= 0 ==> HasId(books[r], id) && forall j :: 0 <= j < r ==> !HasId(books[j], id)
    ensures r == -1 <==> forall j :: 0 <= j < |books| ==> !HasId(books[j], id)
  {
    if books == [] then -1
    else if HasId(books[0], id) then 0
    else
      var r := FindIndex(books[1..], id);
      if r == -1 then -1 else r + 1
  }

  /** Replacing the first record holding the id by another record holding it keeps that position first. */
  lemma FindIndexAfterUpdate(books: seq<Record>, id: Json, b: Record)
    requires FindIndex(books, id) >= 0
    requires HasId(b, id)
    ensures FindIndex(books[FindIndex(books, id) := b], id) == FindIndex(books, id)
  {
    var i := FindIndex(books, id);
    var after := books[i := b];
    var k := FindIndex(after, id);
    assert HasId(after[i], id);
  }

  /** A record appended to a list without the id is the first to hold it. */
  lemma FindIndexAfterAppend(books: seq<Record>, id: Json, b: Record)
    requires FindIndex(books, id) == -1
    requires HasId(b, id)
    ensures FindIndex(books + [b], id) == |books|
  {
    var after := books + [b];
    var k := FindIndex(after, id);
    assert HasId(after[|books|], id);
  }

  // ---------------------------------------------------------------------------
  // importBook

  /** What the user handed to `importBook`: a browser File, or anything else (a desktop path). */
  datatype Picked = PickedFile(name: string) | NotAFile

  /** `name.split('.').pop().toLowerCase()`: the text after the last dot, lower-cased. */
  function Extension(name: string): string {
    var parts := Split(name, '.');
    AsciiLower(parts[|parts| - 1])
  }

  /** A property set to `undefined` reads as absent, so it is left out of the record. */
  function WithOptional(r: Record, k: string, v: Option<Json>): (out: Record)
    ensures k in out <==> v.Some?
    ensures v.Some? ==> out[k] == v.value
    ensures forall k2 :: k2 != k ==> (k2 in out <==> k2 in r) && (k2 in r ==> out[k2] == r[k2])
  {
    if v.Some? then r[k := v.value] else r - {k}
  }

  /** `total_chapters || (chapters ? chapters.length : 0)`; None is undefined. */
  function TotalPages(data: Record): Option<Json> {
    if "total_chapters" in data && JsTruthy(data["total_chapters"]) then Some(data["total_chapters"])
    else if "chapters" in data && JsTruthy(data["chapters"]) then
      (match JsLength(data["chapters"])
       case Some(n) => Some(JNum(n))
       case None => None)
    else Some(JNum(0))
  }

  /** The fields `importBook` always sets. */
  function BaseBook(name: string, ext: string, data: Record, stamp: int, now: string): (m: Record)
    ensures "id" in m && "title" in m && "author" in m && "filePath" in m && "format" in m
            && "chapters" in m && "progress" in m && "currentPage" in m && "currentChapter" in m
            && "createdAt" in m && "lastReadAt" in m
    ensures "cover" !in m && "totalPages" !in m
  {
    map[
      "id" := JNum(stamp),
      "title" := JsOr(Get(data, "title"), JStr(name)),
      "author" := JsOr(Get(data, "author"), JStr(UnknownAuthor)),
      "filePath" := JStr(name),
      "format" := JStr(ext),
      "chapters" := JsOr(Get(data, "chapters"), JArr([])),
      "progress" := JNum(0),
      "currentPage" := JNum(0),
      "currentChapter" := JNum(0),
      "createdAt" := JStr(now),
      "lastReadAt" := JStr(now)]
  }

  /**
   * The record `importBook` builds from the parse response `data`: the fixed fields,
   * plus `cover` and `totalPages` unless they come out undefined.
   */
  function NewBook(name: string, ext: string, data: Record, stamp: int, now: string): (b: Record)
    ensures "id" in b && "title" in b && "author" in b && "filePath" in b && "format" in b
            && "chapters" in b && "progress" in b && "currentPage" in b && "currentChapter" in b
            && "createdAt" in b && "lastReadAt" in b
    ensures "cover" in b <==> "cover" in data
    ensures "totalPages" in b <==> TotalPages(data).Some?
  {
    WithOptional(WithOptional(BaseBook(name, ext, data, stamp, now), "cover", Get(data, "cover")),
                 "totalPages", TotalPages(data))
  }

  lemma BaseBookFromData(name: string, ext: string, data: Record, stamp: int, now: string)
    ensures var m := BaseBook(name, ext, data, stamp, now);
            m["title"] == JsOr(Get(data, "title"), JStr(name))
            && m["author"] == JsOr(Get(data, "author"), JStr(UnknownAuthor))
            && m["chapters"] == JsOr(Get(data, "chapters"), JArr([]))
  {
  }

  lemma BaseBookOrigin(name: string, ext: string, data: Record, stamp: int, now: string)
    ensures var m := BaseBook(name, ext, data, stamp, now);
            m["id"] == JNum(stamp) && m["filePath"] == JStr(name) && m["format"] == JStr(ext)
            && m["createdAt"] == JStr(now)
  {
  }

  lemma BaseBookUnread(name: string, ext: string, data: Record, stamp: int, now: string)
    ensures var m := BaseBook(name, ext, data, stamp, now);
            m["progress"] == JNum(0) && m["currentPage"] == JNum(0) && m["currentChapter"] == JNum(0)
            && m["lastReadAt"] == JStr(now)
  {
  }

  /** The optional fields leave every fixed field as `BaseBook` sets it. */
  lemma NewBookKeepsBase(name: string, ext: string, data: Record, stamp: int, now: string)
    ensures var base := BaseBook(name, ext, data, stamp, now);
            forall k :: k in base ==> NewBook(name, ext, data, stamp, now)[k] == base[k]
  {
  }

  /**
   * What `importBook` returns: Ok(None) for a non-File input, Err with the message
   * for an unsupported extension or a failed request, the new record otherwise.
   * `parse` answers the request to the parse endpoint of the given format.
   */
  function ImportOutcome(picked: Picked, parse: string -> Result<Record, string>, saveError: Option<string>,
                         stamp: int, now: string): Result<Option<Record>, string>
  {
    match picked
    case NotAFile => Ok(None)
    case PickedFile(name) =>
      var ext := Extension(name);
      if ext != "epub" && ext != "txt" then Err(UnsupportedFormat + ext)
      else if parse(ext).Err? then Err(parse(ext).error)
      else if saveError.Some? then Err(saveError.value)
      else Ok(Some(NewBook(name, ext, parse(ext).value, stamp, now)))
  }

  predicate Supported(ext: string) { ext == "epub" || ext == "txt" }

  /**
   * A book is produced exactly for a File with extension epub or txt whose parse and
   * save requests both succeed; any other extension fails with its name.
   */
  lemma ImportOutcomeSpec(picked: Picked, parse: string -> Result<Record, string>, saveError: Option<string>,
                          stamp: int, now: string)
    ensures var r := ImportOutcome(picked, parse, saveError, stamp, now);
            (picked.NotAFile? ==> r == Ok(None))
            && (r.Ok? && r.value.Some? <==>
                  picked.PickedFile? && Supported(Extension(picked.name))
                  && parse(Extension(picked.name)).Ok? && saveError.None?)
            && (picked.PickedFile? && !Supported(Extension(picked.name)) ==>
                  r == Err(UnsupportedFormat + Extension(picked.name)))
  {
  }

  /** An imported book starts unread, carries the time stamp as its id and records where it came from. */
  lemma ImportedBookSpec(name: string, ext: string, data: Record, stamp: int, now: string)
    ensures var b := NewBook(name, ext, data, stamp, now);
            HasId(b, JNum(stamp)) && b["filePath"] == JStr(name) && b["format"] == JStr(ext)
            && b["progress"] == JNum(0) && b["currentPage"] == JNum(0) && b["currentChapter"] == JNum(0)
            && b["createdAt"] == JStr(now) && b["lastReadAt"] == JStr(now)
  {
    NewBookKeepsBase(name, ext, data, stamp, now);
    BaseBookOrigin(name, ext, data, stamp, now);
    BaseBookUnread(name, ext, data, stamp, now);
  }

  /**
   * The defaults of a new record: a falsy title gives the file name, a falsy author
   * the unknown-author text, missing chapters an empty list; the page count is
   * `total_chapters` when truthy and the chapter count otherwise.
   */
  lemma NewBookDefaults(name: string, ext: string, data: Record, stamp: int, now: string)
    ensures var b := NewBook(name, ext, data, stamp, now);
            (b["title"] == if "title" in data && JsTruthy(data["title"]) then data["title"] else JStr(name))
            && (b["author"] == if "author" in data && JsTruthy(data["author"]) then data["author"] else JStr(UnknownAuthor))
            && ("chapters" !in data ==> b["chapters"] == JArr([]))
            && ("total_chapters" in data && JsTruthy(data["total_chapters"]) ==> Get(b, "totalPages") == Some(data["total_chapters"]))
            && (!("total_chapters" in data && JsTruthy(data["total_chapters"])) ==>
                  ("chapters" !in data ==> Get(b, "totalPages") == Some(JNum(0)))
                  && ("chapters" in data && data["chapters"].JArr? ==> Get(b, "totalPages") == Some(JNum(|data["chapters"].items|))))
            && ("cover" in b <==> "cover" in data)
  {
    var b := NewBook(name, ext, data, stamp, now);
    NewBookKeepsBase(name, ext, data, stamp, now);
    BaseBookFromData(name, ext, data, stamp, now);
    assert Get(b, "totalPages") == TotalPages(data);
  }

  // ---------------------------------------------------------------------------
  // The parse responses `importBook` reads

  function TxtChapterJson(c: TxtParser.Chapter): Json {
    JObj(map["title" := JStr(c.title), "content" := JStr(c.content), "word_count" := JNum(c.wordCount)])
  }

  /** The body of the TXT parse endpoint: title and author sit under `metadata`. */
  function TxtResponse(r: TxtParser.ParseResult): Record {
    match r
    case Parsed(md, cs, n, enc, words) =>
      map["success" := JBool(true),
          "metadata" := JObj(map["title" := JStr(md.title), "author" := JStr(md.author), "language" := JStr(md.language)]),
          "chapters" := JArr(seq(|cs|, i requires 0 <= i < |cs| => TxtChapterJson(cs[i]))),
          "total_chapters" := JNum(n),
          "encoding" := JStr(enc),
          "total_words" := JNum(words)]
    case Failed(e) => map["success" := JBool(false), "error" := JStr(e)]
  }

  /**
   * An imported TXT book is always titled by its file name and has the unknown
   * author, whatever the parser found, because the response nests both under
   * `metadata`; its page count is its chapter count, and a failed parse still
   * yields a book with no chapters.
   */
  lemma TxtImportIgnoresParsedMetadata(name: string, detected: Option<string>,
                                       decode: string -> Result<string, string>, stamp: int, now: string)
    ensures var r := TxtParser.ParseOutcome(detected, decode);
            var b := NewBook(name, "txt", TxtResponse(r), stamp, now);
            b["title"] == JStr(name) && b["author"] == JStr(UnknownAuthor)
            && Get(b, "totalPages") == Some(JNum(if r.Parsed? then |r.chapters| else 0))
            && (r.Failed? ==> b["chapters"] == JArr([]))
  {
    var r := TxtParser.ParseOutcome(detected, decode);
    TxtParser.ParseOutcomeSpec(detected, decode);
    TxtResponseBook(name, r, stamp, now);
  }

  /** The same for any parse result whose chapter count is its number of chapters. */
  lemma TxtResponseBook(name: string, r: TxtParser.ParseResult, stamp: int, now: string)
    requires r.Parsed? ==> r.totalChapters == |r.chapters|
    ensures var b := NewBook(name, "txt", TxtResponse(r), stamp, now);
            b["title"] == JStr(name) && b["author"] == JStr(UnknownAuthor)
            && Get(b, "totalPages") == Some(JNum(if r.Parsed? then |r.chapters| else 0))
            && (r.Failed? ==> b["chapters"] == JArr([]))
  {
    var data := TxtResponse(r);
    assert "title" !in data && "author" !in data;
    if r.Parsed? {
      assert data["chapters"].JArr? && |data["chapters"].items| == |r.chapters|;
      assert data["total_chapters"] == JNum(|r.chapters|);
    } else {
      assert "chapters" !in data && "total_chapters" !in data;
    }
    NewBookDefaults(name, "txt", data, stamp, now);
  }

  function EpubChapterJson(c: EpubParser.EagerChapter): Json {
    JObj(map["title" := JStr(c.title), "content" := JStr(c.content), "html" := JStr(c.html),
             "word_count" := JNum(c.wordCount)])
  }

  /** The body of the EPUB parse endpoint: the eager parser's metadata, cover null when absent. */
  function EpubResponse(md: EpubParser.EagerMetadata): Record {
    map["title" := JStr(md.title),
        "author" := JStr(md.author),
        "publisher" := JStr(md.publisher),
        "cover" := (match md.cover case Some(c) => JStr(c) case None => JNull),
        "chapters" := JArr(seq(|md.chapters|, i requires 0 <= i < |md.chapters| => EpubChapterJson(md.chapters[i]))),
        "total_chapters" := JNum(md.totalChapters)]
  }

  /** The fields of the EPUB response that `importBook` reads. */
  lemma EpubResponseFields(md: EpubParser.EagerMetadata)
    ensures var data := EpubResponse(md);
            "title" in data && data["title"] == JStr(md.title)
            && "author" in data && data["author"] == JStr(md.author)
            && "total_chapters" in data && data["total_chapters"] == JNum(md.totalChapters)
            && "chapters" in data && data["chapters"].JArr? && |data["chapters"].items| == |md.chapters|
  {
  }

  /** A book imported from an EPUB response whose count is its number of chapters. */
  lemma EpubResponseBook(name: string, md: EpubParser.EagerMetadata, stamp: int, now: string)
    requires md.totalChapters == |md.chapters|
    ensures var nb := NewBook(name, "epub", EpubResponse(md), stamp, now);
            nb["title"] == (if md.title == [] then JStr(name) else JStr(md.title))
            && nb["author"] == (if md.author == [] then JStr(UnknownAuthor) else JStr(md.author))
            && Get(nb, "totalPages") == Some(JNum(|md.chapters|))
  {
    EpubResponseFields(md);
    NewBookDefaults(name, "epub", EpubResponse(md), stamp, now);
  }

  /**
   * An imported EPUB book takes its title and author from the Dublin Core metadata
   * ("Unknown" when there is none); the file name is used only for an empty Dublin
   * Core title. Its page count is its chapter count.
   */
  lemma EpubImportUsesDublinCore(name: string, b: EpubArchive.Book, stamp: int, now: string)
    ensures var md := EpubParser.ParseBook(b);
            var nb := NewBook(name, "epub", EpubResponse(md), stamp, now);
            (nb["title"] == if b.dcTitle == [] then JStr(EpubParser.Unknown)
                            else if b.dcTitle[0] == [] then JStr(name) else JStr(b.dcTitle[0]))
            && (nb["author"] == if b.dcCreator == [] then JStr(EpubParser.Unknown)
                                else if b.dcCreator[0] == [] then JStr(UnknownAuthor) else JStr(b.dcCreator[0]))
            && Get(nb, "totalPages") == Some(JNum(|md.chapters|))
  {
    var md := EpubParser.ParseBook(b);
    EpubParser.ParseBookSpec(b);
    EpubResponseBook(name, md, stamp, now);
  }

  // ---------------------------------------------------------------------------
  // fetchBookContent, updateProgress, deleteBook

  /** `b.chapters && b.chapters.length > 0`. */
  predicate HasChapters(book: Record) {
    "chapters" in book && JsTruthy(book["chapters"])
    && JsLength(book["chapters"]).Some? && JsLength(book["chapters"]).value > 0
  }

  /** The list after a fetched record arrives: spread over the first record with the id, or appended. */
  function Fetched(books: seq<Record>, id: Json, full: Record): seq<Record> {
    var i := FindIndex(books, id);
    if i == -1 then books + [full] else books[i := books[i] + full]
  }

  /**
   * A fetched record is merged over the first record with the id, its fields winning
   * and the local fields it lacks kept; without such a record it is appended. Every
   * other record keeps its place, and when the merged or appended record holds the id
   * it is what a lookup of the id finds.
   */
  lemma FetchedSpec(books: seq<Record>, id: Json, full: Record)
    ensures var i := FindIndex(books, id);
            var after := Fetched(books, id, full);
            var at := if i == -1 then |books| else i;
            |after| == (if i == -1 then |books| + 1 else |books|)
            && (forall j :: 0 <= j < |books| && j != at ==> after[j] == books[j])
            && (forall k :: k in full ==> k in after[at] && after[at][k] == full[k])
            && (i >= 0 ==> forall k :: k in books[i] && k !in full ==> k in after[at] && after[at][k] == books[i][k])
            && (HasId(after[at], id) ==> FindIndex(after, id) == at)
  {
    var i := FindIndex(books, id);
    if i == -1 {
      if HasId(full, id) {
        FindIndexAfterAppend(books, id, full);
      }
    } else if HasId(books[i] + full, id) {
      FindIndexAfterUpdate(books, id, books[i] + full);
    }
  }

  /** The record `updateProgress` leaves: the four progress fields set, every other field kept. */
  function WithProgress(book: Record, progress: Json, page: Json, chapter: Json, now: string): Record {
    book["progress" := progress]["currentPage" := page]["currentChapter" := chapter]["lastReadAt" := JStr(now)]
  }

  /** The list after `updateProgress`: only the first record with the id changes. */
  function Progressed(books: seq<Record>, id: Json, progress: Json, page: Json, chapter: Json, now: string): seq<Record> {
    var i := FindIndex(books, id);
    if i == -1 then books else books[i := WithProgress(books[i], progress, page, chapter, now)]
  }

  /** A record after `updateProgress` holds the four new values and keeps every other field. */
  lemma WithProgressSpec(book: Record, progress: Json, page: Json, chapter: Json, now: string)
    ensures var w := WithProgress(book, progress, page, chapter, now);
            w["currentPage"] == page && w["currentChapter"] == chapter
            && w["progress"] == progress && w["lastReadAt"] == JStr(now)
            && w.Keys == book.Keys + {"progress", "currentPage", "currentChapter", "lastReadAt"}
            && (forall k :: k in book && k !in {"progress", "currentPage", "currentChapter", "lastReadAt"} ==>
                              w[k] == book[k])
  {
  }

  /**
   * Progress for an unknown id changes nothing; for a known one only the first record
   * with the id changes, to the record WithProgress describes, and it is still the
   * one a lookup finds.
   */
  lemma ProgressedSpec(books: seq<Record>, id: Json, progress: Json, page: Json, chapter: Json, now: string)
    ensures var i := FindIndex(books, id);
            var after := Progressed(books, id, progress, page, chapter, now);
            |after| == |books|
            && (i == -1 ==> after == books)
            && (forall j :: 0 <= j < |books| && j != i ==> after[j] == books[j])
            && (i >= 0 ==> FindIndex(after, id) == i
                           && after[i] == WithProgress(books[i], progress, page, chapter, now))
  {
    var i := FindIndex(books, id);
    if i >= 0 {
      var w := WithProgress(books[i], progress, page, chapter, now);
      assert HasId(w, id) by {
        assert "id" !in {"progress", "currentPage", "currentChapter", "lastReadAt"};
      }
      FindIndexAfterUpdate(books, id, w);
    }
  }

  /** `books.filter(book => book.id !== id)`. */
  function WithoutId(books: seq<Record>, id: Json): (r: seq<Record>)
    ensures |r| <= |books|
    ensures forall j :: 0 <= j < |r| ==> !HasId(r[j], id) && r[j] in books
  {
    if books == [] then []
    else (if HasId(books[0], id) then [] else [books[0]]) + WithoutId(books[1..], id)
  }

  /** Filtering distributes over concatenation, so the kept records keep their order. */
  lemma {:induction false} WithoutIdAppend(a: seq<Record>, b: seq<Record>, id: Json)
    ensures WithoutId(a + b, id) == WithoutId(a, id) + WithoutId(b, id)
  {
    if a != [] {
      assert (a + b)[0] == a[0];
      assert (a + b)[1..] == a[1..] + b;
      WithoutIdAppend(a[1..], b, id);
      WithoutIdStep(a + b, id);
      WithoutIdStep(a, id);
      var x, y := WithoutId(a[1..], id), WithoutId(b, id);
      if !HasId(a[0], id) {
        assert [a[0]] + (x + y) == ([a[0]] + x) + y;
      }
    } else {
      assert a + b == b;
    }
  }

  lemma WithoutIdStep(s: seq<Record>, id: Json)
    requires s != []
    ensures WithoutId(s, id) == (if HasId(s[0], id) then [] else [s[0]]) + WithoutId(s[1..], id)
  {
  }

  lemma {:induction false} WithoutIdKeeps(books: seq<Record>, id: Json)
    ensures forall b :: b in books && !HasId(b, id) ==> b in WithoutId(books, id)
    ensures (forall j :: 0 <= j < |books| ==> !HasId(books[j], id)) ==> WithoutId(books, id) == books
  {
    if books != [] {
      WithoutIdKeeps(books[1..], id);
      assert forall b :: b in books ==> b == books[0] || b in books[1..];
    }
  }

  // ---------------------------------------------------------------------------
  // The store

  class BooksStore {
    var books: seq<Record>
    var isLoading: bool

    constructor()
      ensures books == [] && !isLoading
    {
      books := [];
      isLoading := false;
    }

    /** `getBookById`: the first record with the id, or undefined when none holds it. */
    function GetBookById(id: Json): (r: Option<Record>)
      reads this
      ensures r.Some? ==> HasId(r.value, id) && r.value in books
      ensures r.None? <==> forall j :: 0 <= j < |books| ==> !HasId(books[j], id)
    {
      var i := FindIndex(books, id);
      if i == -1 then None else Some(books[i])
    }

    /** `loadBooks`: the server's list replaces the local one; a failed request leaves it. */
    method LoadBooks(response: Result<seq<Record>, string>)
      modifies this
      ensures books == (if response.Ok? then response.value else old(books))
      ensures isLoading == old(isLoading)
    {
      if response.Ok? {
        books := response.value;
      }
    }

    /**
     * `importBook`: the new record goes to the front of the list only once the save
     * request succeeded; the loading flag is down however the call ends.
     */
    method ImportBook(picked: Picked, parse: string -> Result<Record, string>, saveError: Option<string>,
                      stamp: int, now: string) returns (r: Result<Option<Record>, string>)
      modifies this
      ensures r == ImportOutcome(picked, parse, saveError, stamp, now)
      ensures !isLoading
      ensures books == if r.Ok? && r.value.Some? then [r.value.value] + old(books) else old(books)
    {
      isLoading := true;
      if picked.NotAFile? {
        isLoading := false;
        return Ok(None);
      }
      var name := picked.name;
      var ext := Extension(name);
      if ext != "epub" && ext != "txt" {
        isLoading := false;
        return Err(UnsupportedFormat + ext);
      }
      // the parse endpoint of the extension: /parse/epub or /parse/txt
      var response := parse(ext);
      if response.Err? {
        isLoading := false;
        return Err(response.error);
      }
      var book := NewBook(name, ext, response.value, stamp, now);
      if saveError.Some? {
        isLoading := false;
        return Err(saveError.value);
      }
      books := [book] + books;
      isLoading := false;
      r := Ok(Some(book));
    }

    /**
     * `fetchBookContent`: a local record with chapters is returned as it is; otherwise
     * the server's record is merged in or appended, and a failed request is rethrown
     * with the list unchanged.
     */
    method FetchBookContent(id: Json, remote: Result<Record, string>) returns (r: Result<Record, string>)
      modifies this
      ensures var local := old(GetBookById(id));
              if local.Some? && HasChapters(local.value) then
                r == Ok(local.value) && books == old(books) && isLoading == old(isLoading)
              else if remote.Err? then
                r == Err(remote.error) && books == old(books) && !isLoading
              else
                r == Ok(remote.value) && books == Fetched(old(books), id, remote.value) && !isLoading
    {
      var existing := GetBookById(id);
      if existing.Some? && HasChapters(existing.value) {
        return Ok(existing.value);
      }
      isLoading := true;
      if remote.Err? {
        isLoading := false;
        return Err(remote.error);
      }
      var full := remote.value;
      var index := FindIndex(books, id);
      if index != -1 {
        books := books[index := books[index] + full];
      } else {
        books := books + [full];
      }
      isLoading := false;
      r := Ok(full);
    }

    /**
     * `updateProgress`: sets the progress fields of the first record with the id and
     * returns the body of the PATCH request it sends; an unknown id sends nothing.
     * `progress` is the percentage, computed by the caller.
     */
    method UpdateProgress(id: Json, page: Json, chapter: Json, progress: Json, now: string) returns (sent: Option<Record>)
      modifies this
      ensures books == Progressed(old(books), id, progress, page, chapter, now)
      ensures isLoading == old(isLoading)
      ensures sent.Some? <==> old(GetBookById(id)).Some?
      ensures sent.Some? ==> sent.value == map["progress" := progress, "currentPage" := page,
                                               "currentChapter" := chapter, "lastReadAt" := JStr(now)]
    {
      var i := FindIndex(books, id);
      if i == -1 {
        return None;
      }
      var book := books[i];
      book := book["progress" := progress];
      book := book["currentPage" := page];
      book := book["currentChapter" := chapter];
      book := book["lastReadAt" := JStr(now)];
      books := books[i := book];
      sent := Some(map["progress" := book["progress"], "currentPage" := book["currentPage"],
                       "currentChapter" := book["currentChapter"], "lastReadAt" := book["lastReadAt"]]);
    }

    /** `deleteBook`: after the server confirmed, every record with the id is dropped; a failure changes nothing. */
    method DeleteBook(id: Json, deleteError: Option<string>)
      modifies this
      ensures books == if deleteError.None? then WithoutId(old(books), id) else old(books)
      ensures isLoading == old(isLoading)
    {
      if deleteError.None? {
        books := WithoutId(books, id);
      }
    }
  }
}
