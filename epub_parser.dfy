/**
 * The eager EPUB parser: opens the archive up front and parses every chapter in
 * one pass, keeping the html next to the text; it also flattens the table of
 * contents into leveled entries.
 */
module EpubParser {
  import opened Wrappers
  import opened Text
  import opened EpubArchive
  import EpubLazyParser

  datatype EagerChapter = EagerChapter(title: string, content: string, html: string, wordCount: nat)

  datatype EagerMetadata = EagerMetadata(
    title: string,
    author: string,
    publisher: string,
    cover: Option<string>,
    chapters: seq<EagerChapter>,
    totalChapters: nat)

  const Unknown: string := "Unknown"
  /** The title of a chapter with neither a heading nor a short first line. */
  const FallbackTitle: string := "章节"
  const MinChapterText: nat := 10

  /**
   * The chapter kept for spine position p: the id must resolve, the markup must
   * parse, and the text must hold at least 10 characters once stripped. Anything
   * else, an exception included, skips the position.
   */
  function EagerChapterAt(b: Book, p: nat): Option<EagerChapter>
    requires p < |b.spine|
  {
    match LookupId(b, b.spine[p])
    case Found(item) =>
      (match item.full
       case None => None
       case Some(m) =>
         if m.text == [] || |Strip(m.text)| < MinChapterText then None
         else Some(EagerChapter(ChapterTitle(m, FallbackTitle), m.text, m.html, |m.text|)))
    case _ => None
  }

  /** The chapters of the first n spine positions, in spine order. */
  function EagerChapters(b: Book, n: nat): seq<EagerChapter>
    requires n <= |b.spine|
  {
    if n == 0 then []
    else match EagerChapterAt(b, n - 1)
      case None => EagerChapters(b, n - 1)
      case Some(c) => EagerChapters(b, n - 1) + [c]
  }

  /** The spine positions among the first n that yield a chapter. */
  function KeptPositions(b: Book, n: nat): seq<nat>
    requires n <= |b.spine|
  {
    if n == 0 then []
    else if EagerChapterAt(b, n - 1).Some? then KeptPositions(b, n - 1) + [n - 1]
    else KeptPositions(b, n - 1)
  }

  function ParseBook(b: Book): EagerMetadata {
    var chapters := EagerChapters(b, |b.spine|);
    EagerMetadata(FirstOr(b.dcTitle, Unknown), FirstOr(b.dcCreator, Unknown), FirstOr(b.dcPublisher, ""),
                  SelectCover(b.items), chapters, |chapters|)
  }

  /**
   * `parse`: Dublin Core title and creator default to "Unknown", the publisher to
   * the empty string; the count is the number of chapters, and every chapter has
   * at least 10 characters of text and a word count equal to its length.
   */
  lemma ParseBookSpec(b: Book)
    ensures var md := ParseBook(b);
            md.totalChapters == |md.chapters| <= |b.spine|
            && md.title == (if b.dcTitle == [] then Unknown else b.dcTitle[0])
            && md.author == (if b.dcCreator == [] then Unknown else b.dcCreator[0])
            && md.publisher == (if b.dcPublisher == [] then "" else b.dcPublisher[0])
            && md.cover == SelectCover(b.items)
            && forall k :: 0 <= k < |md.chapters| ==>
                 md.chapters[k].wordCount == |md.chapters[k].content| >= MinChapterText
  {
    var n := |b.spine|;
    EagerChaptersAlign(b, n);
    var cs := EagerChapters(b, n);
    var ps := KeptPositions(b, n);
    forall k | 0 <= k < |cs| ensures cs[k].wordCount == |cs[k].content| >= MinChapterText {
      EagerChapterAtSpec(b, ps[k]);
    }
  }

  /** A kept chapter is the parsed text of a resolvable, parseable item with enough text. */
  lemma EagerChapterAtSpec(b: Book, p: nat)
    requires p < |b.spine|
    ensures EagerChapterAt(b, p).Some? <==>
            LookupId(b, b.spine[p]).Found? && LookupId(b, b.spine[p]).item.full.Some?
            && |Strip(LookupId(b, b.spine[p]).item.full.value.text)| >= MinChapterText
    ensures EagerChapterAt(b, p).Some? ==>
            var m := LookupId(b, b.spine[p]).item.full.value;
            var c := EagerChapterAt(b, p).value;
            c.content == m.text && c.html == m.html && c.wordCount == |m.text| >= MinChapterText
            && c.title == ChapterTitle(m, FallbackTitle)
  {
    if LookupId(b, b.spine[p]).Found? && LookupId(b, b.spine[p]).item.full.Some? {
      var m := LookupId(b, b.spine[p]).item.full.value;
      if m.text == [] {
        assert Strip(m.text) == [];
      } else if |Strip(m.text)| >= MinChapterText {
        assert |m.text| >= |Strip(m.text)|;
      }
    }
  }

  /** The chapters line up with the kept positions: chapter k is the chapter of position k. */
  lemma {:induction false} EagerChaptersAlign(b: Book, n: nat)
    requires n <= |b.spine|
    ensures var cs := EagerChapters(b, n);
            var ps := KeptPositions(b, n);
            |cs| == |ps| <= n
            && forall k :: 0 <= k < |ps| ==> ps[k] < n && EagerChapterAt(b, ps[k]) == Some(cs[k])
  {
    if n > 0 {
      EagerChaptersAlign(b, n - 1);
    }
  }

  /** The kept positions are increasing, and are exactly the positions that yield a chapter. */
  lemma {:induction false} KeptPositionsSpec(b: Book, n: nat)
    requires n <= |b.spine|
    ensures var ps := KeptPositions(b, n);
            (forall k, l :: 0 <= k < l < |ps| ==> ps[k] < ps[l])
            && (forall p :: 0 <= p < n ==> (p in ps <==> EagerChapterAt(b, p).Some?))
            && (forall q :: q in ps ==> q < n)
  {
    if n > 0 {
      KeptPositionsSpec(b, n - 1);
      var ps := KeptPositions(b, n - 1);
      assert forall k :: 0 <= k < |ps| ==> ps[k] in ps;
    }
  }

  /**
   * The eager and the lazy parser agree on which spine positions hold a chapter
   * with text, and on that text and its length.
   */
  lemma AgreesWithLazyParser(b: Book, p: nat)
    requires p < |b.spine|
    ensures EagerChapterAt(b, p).Some? <==>
            EpubLazyParser.SingleChapter(b, p).Some? && EpubLazyParser.SingleChapter(b, p).value.content != Some([])
    ensures EagerChapterAt(b, p).Some? ==>
            EpubLazyParser.SingleChapter(b, p).value.content == Some(EagerChapterAt(b, p).value.content)
            && EpubLazyParser.SingleChapter(b, p).value.wordCount == EagerChapterAt(b, p).value.wordCount
  {
  }

  /** Flattening a list of nodes one node at a time. */
  lemma FlattenPrefixStep(ns: seq<TocNode>, i: nat, level: nat)
    requires i < |ns|
    requires FlattenList(ns[..i], level).ok
    ensures FlattenList(ns[..i + 1], level) ==
            var n := FlattenNode(ns[i], level);
            Flat(FlattenList(ns[..i], level).entries + n.entries, n.ok)
  {
    assert ns[..i + 1] == ns[..i] + [ns[i]];
    FlattenListAppend(ns[..i], [ns[i]], level);
    assert [ns[i]][1..] == [];
  }

  /** A failed step leaves the outcome of the whole list fixed. */
  lemma FailedPrefixIsFinal(ns: seq<TocNode>, i: nat, level: nat)
    requires i <= |ns|
    requires !FlattenList(ns[..i], level).ok
    ensures FlattenList(ns, level) == FlattenList(ns[..i], level)
  {
    assert ns == ns[..i] + ns[i..];
    FlattenListAppend(ns[..i], ns[i..], level);
  }

  /**
   * `parse_toc_item`: appends the entries of one node, a section before its
   * children one level deeper, to the entries collected so far; `ok` is false
   * when the node, or a node under it, raised.
   */
  method ParseTocItem(item: TocNode, level: nat, collected: seq<TocEntry>) returns (entries: seq<TocEntry>, ok: bool)
    ensures entries == collected + FlattenNode(item, level).entries
    ensures ok == FlattenNode(item, level).ok
    decreases item
  {
    match item
    case TocBroken =>
      entries, ok := collected, false;
    case TocLink(t, h) =>
      entries, ok := collected + [TocEntry(t, h, level)], true;
    case TocSection(t, h, children) =>
      entries, ok := collected + [TocEntry(t, h, level)], true;
      var i := 0;
      while i < |children| && ok
        invariant 0 <= i <= |children|
        invariant entries == collected + [TocEntry(t, h, level)] + FlattenList(children[..i], level + 1).entries
        invariant ok == FlattenList(children[..i], level + 1).ok
      {
        FlattenPrefixStep(children, i, level + 1);
        entries, ok := ParseTocItem(children[i], level + 1, entries);
        i := i + 1;
      }
      if !ok {
        FailedPrefixIsFinal(children, i, level + 1);
      } else {
        assert children[..i] == children;
      }
  }

  class EpubParser {
    const filePath: string
    const book: Book

    constructor(filePath: string, book: Book)
      ensures this.filePath == filePath && this.book == book
    {
      this.filePath := filePath;
      this.book := book;
    }

    /** `_extract_chapters`: every spine item in order, skipping the ones that yield no chapter. */
    method ExtractChapters() returns (chapters: seq<EagerChapter>)
      ensures chapters == EagerChapters(book, |book.spine|)
    {
      chapters := [];
      var i := 0;
      while i < |book.spine|
        invariant 0 <= i <= |book.spine|
        invariant chapters == EagerChapters(book, i)
      {
        var found := LookupId(book, book.spine[i]);
        if found.Found? && found.item.full.Some? {
          var text := found.item.full.value.text;
          if text != [] && |Strip(text)| >= MinChapterText {
            var title := ChapterTitle(found.item.full.value, FallbackTitle);
            chapters := chapters + [EagerChapter(title, text, found.item.full.value.html, |text|)];
          }
        }
        i := i + 1;
      }
    }

    /** `parse`: Dublin Core title, creator and publisher with defaults, the cover and every chapter. */
    method Parse() returns (md: EagerMetadata)
      ensures md == ParseBook(book)
    {
      md := EagerMetadata(Unknown, Unknown, "", None, [], 0);
      if book.dcTitle != [] {
        md := md.(title := book.dcTitle[0]);
      }
      if book.dcCreator != [] {
        md := md.(author := book.dcCreator[0]);
      }
      if book.dcPublisher != [] {
        md := md.(publisher := book.dcPublisher[0]);
      }
      md := md.(cover := SelectCover(book.items));
      var chapters := ExtractChapters();
      md := md.(chapters := chapters, totalChapters := |chapters|);
    }

    /** `get_toc`: the entries collected until the first node that raises. */
    method GetToc() returns (toc: seq<TocEntry>)
      ensures toc == FlattenList(book.toc, 0).entries
    {
      toc := [];
      var ok := true;
      var i := 0;
      while i < |book.toc| && ok
        invariant 0 <= i <= |book.toc|
        invariant toc == FlattenList(book.toc[..i], 0).entries
        invariant ok == FlattenList(book.toc[..i], 0).ok
      {
        FlattenPrefixStep(book.toc, i, 0);
        toc, ok := ParseTocItem(book.toc[i], 0, toc);
        i := i + 1;
      }
      if !ok {
        FailedPrefixIsFinal(book.toc, i, 0);
      } else {
        assert book.toc[..i] == book.toc;
      }
    }
  }

  /** The constructor's `read_epub` either yields an archive or raises to the caller. */
  method Open(filePath: string, load: Result<Book, string>) returns (r: Result<EpubParser, string>)
    ensures r.Err? <==> load.Err?
    ensures r.Err? ==> r == Err(load.error)
    ensures r.Ok? ==> fresh(r.value) && r.value.book == load.value && r.value.filePath == filePath
  {
    if load.Err? {
      return Err(load.error);
    }
    var p := new EpubParser(filePath, load.value);
    r := Ok(p);
  }
}
