/**
 * The lazy EPUB parser: a fast metadata-and-outline pass that leaves chapter
 * bodies empty, an on-demand single-chapter parse, and a full pass built from
 * the single-chapter parse. The archive is loaded once and cached.
 */
module EpubLazyParser {
  import opened Wrappers
  import opened Text
  import opened EpubArchive

  /** A chapter record: outline entries carry an item id and no content; parsed chapters the reverse. */
  datatype LazyChapter = LazyChapter(
    index: int,
    title: string,
    content: Option<string>,
    itemId: Option<string>,
    wordCount: nat)

  datatype LazyMetadata = LazyMetadata(
    title: string,
    author: string,
    cover: Option<string>,
    chapters: seq<LazyChapter>,
    totalChapters: nat,
    parsingStatus: string)

  const Unknown: string := "Unknown"
  const Pending: string := "pending"
  const QuickTitleWidth: nat := 40
  const MinChapterText: nat := 10

  function DefaultMetadata(): LazyMetadata {
    LazyMetadata(Unknown, Unknown, None, [], 0, Pending)
  }

  /** The archive the parser works on: the cached one, else the outcome of loading the file. */
  function Loaded(cached: Option<Book>, load: Result<Book, string>): Result<Book, string> {
    if cached.Some? then Ok(cached.value) else load
  }

  // ---------------------------------------------------------------------------
  // Quick titles (`_quick_extract_title`)

  const QuickTags: seq<Tag> := [H1, H2, H3, TitleElement]

  /** The element of tag `t` is present and its text is non-empty and shorter than 50 characters. */
  predicate ShortHeading(m: Markup, t: Tag) {
    t in m.headings && m.headings[t] != [] && |m.headings[t]| < ShortTitleLimit
  }

  /** The first of the tags whose element text is non-empty and shorter than 50 characters. */
  function FirstShortHeading(m: Markup, tags: seq<Tag>): (r: Option<string>)
    ensures r.Some? ==> r.value != [] && |r.value| < ShortTitleLimit
    ensures r.Some? ==> exists k :: 0 <= k < |tags| && ShortHeading(m, tags[k]) && m.headings[tags[k]] == r.value
                                    && forall j :: 0 <= j < k ==> !ShortHeading(m, tags[j])
    ensures r.None? ==> forall k :: 0 <= k < |tags| ==> !ShortHeading(m, tags[k])
  {
    if tags == [] then None
    else if ShortHeading(m, tags[0]) then Some(m.headings[tags[0]])
    else
      var r := FirstShortHeading(m, tags[1..]);
      assert forall j :: 0 < j < |tags| ==> tags[1..][j - 1] == tags[j];
      assert r.Some? ==> exists k :: 0 <= k < |tags| && ShortHeading(m, tags[k]) && m.headings[tags[k]] == r.value
                                     && forall j :: 0 <= j < k ==> !ShortHeading(m, tags[j]) by {
        if r.Some? {
          var k :| 0 <= k < |tags[1..]| && ShortHeading(m, tags[1..][k]) && m.headings[tags[1..][k]] == r.value
                   && forall j :: 0 <= j < k ==> !ShortHeading(m, tags[1..][j]);
          assert tags[k + 1] == tags[1..][k];
        }
      }
      r
  }

  /**
   * A title read from the first 2000 bytes of an item's content: a short heading or
   * `<title>`, else the first line cut to 40 characters, else the placeholder;
   * a parse that raises gives the placeholder.
   */
  function QuickTitle(head: Option<Markup>, index: nat): (r: string)
    ensures r != []
    ensures r == Placeholder(index) || |r| < ShortTitleLimit
    ensures head.None? ==> r == Placeholder(index)
  {
    match head
    case None => Placeholder(index)
    case Some(m) =>
      match FirstShortHeading(m, QuickTags)
      case Some(t) => t
      case None =>
        var first := Take(FirstLine(m.plainText), QuickTitleWidth);
        if first != [] then first else Placeholder(index)
  }

  // ---------------------------------------------------------------------------
  // The outline pass (`parse_metadata_only`)

  /** The outline entry for spine position p, when the id resolves to an item. */
  function EntryAt(b: Book, p: nat): Option<LazyChapter>
    requires p < |b.spine|
  {
    match LookupId(b, b.spine[p])
    case Found(item) => Some(LazyChapter(p, QuickTitle(item.head, p), None, Some(b.spine[p]), 0))
    case _ => None
  }

  /** The outline entries of the first n spine positions; None once a lookup has raised. */
  function Entries(b: Book, n: nat): Option<seq<LazyChapter>>
    requires n <= |b.spine|
  {
    if n == 0 then Some([])
    else match Entries(b, n - 1)
      case None => None
      case Some(es) =>
        if LookupId(b, b.spine[n - 1]).Raises? then None
        else match EntryAt(b, n - 1)
          case None => Some(es)
          case Some(e) => Some(es + [e])
  }

  /** Titles, author and cover survive a failure inside the outline loop; the outline does not. */
  function MetadataOnly(loaded: Result<Book, string>): LazyMetadata {
    match loaded
    case Err(_) => DefaultMetadata()
    case Ok(b) =>
      var base := LazyMetadata(FirstOr(b.dcTitle, Unknown), FirstOr(b.dcCreator, Unknown),
                               SelectCover(b.items), [], 0, Pending);
      match Entries(b, |b.spine|)
      case None => base
      case Some(es) => base.(chapters := es, totalChapters := |es|)
  }

  lemma {:induction false} EntriesStayFailed(b: Book, i: nat, n: nat)
    requires i <= n <= |b.spine|
    requires Entries(b, i).None?
    ensures Entries(b, n).None?
    decreases n - i
  {
    if i < n {
      EntriesStayFailed(b, i + 1, n);
    }
  }

  /** The outline is missing exactly when some spine lookup raises. */
  lemma {:induction false} EntriesFailIff(b: Book, n: nat)
    requires n <= |b.spine|
    ensures Entries(b, n).None? <==> exists p :: 0 <= p < n && LookupId(b, b.spine[p]).Raises?
  {
    if n > 0 {
      EntriesFailIff(b, n - 1);
      if Entries(b, n - 1).None? {
        var p :| 0 <= p < n - 1 && LookupId(b, b.spine[p]).Raises?;
        assert Entries(b, n).None?;
        assert 0 <= p < n && LookupId(b, b.spine[p]).Raises?;
      } else if LookupId(b, b.spine[n - 1]).Raises? {
        assert Entries(b, n).None?;
        assert 0 <= n - 1 < n && LookupId(b, b.spine[n - 1]).Raises?;
      } else {
        assert Entries(b, n).Some?;
        forall p | 0 <= p < n
          ensures !LookupId(b, b.spine[p]).Raises?
        {
          if p < n - 1 {
            assert !(0 <= p < n - 1 && LookupId(b, b.spine[p]).Raises?);
          }
        }
      }
    }
  }

  /** One step of the outline: the entries so far, extended by the entry of position n - 1. */
  lemma EntriesStep(b: Book, n: nat)
    requires 0 < n <= |b.spine|
    requires Entries(b, n).Some?
    ensures Entries(b, n - 1).Some?
    ensures Entries(b, n).value == Entries(b, n - 1).value
                                   + (if EntryAt(b, n - 1).Some? then [EntryAt(b, n - 1).value] else [])
  {
  }

  /**
   * Every outline entry is the entry of its own spine position: its index, its quick
   * title, its item id, no content and zero words.
   */
  lemma {:induction false} EntriesMatchSpine(b: Book, n: nat)
    requires n <= |b.spine|
    requires Entries(b, n).Some?
    ensures var es := Entries(b, n).value;
            |es| <= n
            && forall k :: 0 <= k < |es| ==> 0 <= es[k].index < n && EntryAt(b, es[k].index) == Some(es[k])
  {
    if n > 0 {
      EntriesStep(b, n);
      EntriesMatchSpine(b, n - 1);
    }
  }

  lemma EntryAtShape(b: Book, p: nat)
    requires p < |b.spine| && EntryAt(b, p).Some?
    ensures var e := EntryAt(b, p).value;
            e.index == p && e.content.None? && e.wordCount == 0 && e.itemId == Some(b.spine[p])
            && LookupId(b, b.spine[p]).Found? && e.title == QuickTitle(LookupId(b, b.spine[p]).item.head, p)
  {
  }

  /** Outline entries follow the spine order. */
  lemma {:induction false} EntriesOrdered(b: Book, n: nat)
    requires n <= |b.spine|
    requires Entries(b, n).Some?
    ensures var es := Entries(b, n).value;
            forall k, l :: 0 <= k < l < |es| ==> es[k].index < es[l].index
  {
    if n > 0 {
      EntriesStep(b, n);
      EntriesOrdered(b, n - 1);
      EntriesMatchSpine(b, n - 1);
    }
  }

  /** Every spine position whose id resolves has an outline entry. */
  lemma {:induction false} EntriesComplete(b: Book, n: nat)
    requires n <= |b.spine|
    requires Entries(b, n).Some?
    ensures var es := Entries(b, n).value;
            forall p :: 0 <= p < n && EntryAt(b, p).Some? ==> exists k :: 0 <= k < |es| && es[k].index == p
  {
    if n > 0 {
      EntriesStep(b, n);
      EntriesComplete(b, n - 1);
      var es := Entries(b, n - 1).value;
      var es' := Entries(b, n).value;
      forall p | 0 <= p < n && EntryAt(b, p).Some?
        ensures exists k :: 0 <= k < |es'| && es'[k].index == p
      {
        if p == n - 1 {
          assert es'[|es|] == EntryAt(b, p).value;
        } else {
          var k :| 0 <= k < |es| && es[k].index == p;
          assert es'[k] == es[k];
        }
      }
    }
  }

  /**
   * The outline pass: the status is always pending and the count is the outline's
   * length; a failed load leaves every default; a lookup that raises leaves the
   * titles and cover but no outline; otherwise every entry has no content, zero
   * words and its spine position as index, in strictly increasing order.
   */
  lemma MetadataOnlySpec(loaded: Result<Book, string>)
    ensures var md := MetadataOnly(loaded);
            md.parsingStatus == Pending && md.totalChapters == |md.chapters|
            && (loaded.Err? ==> md == LazyMetadata(Unknown, Unknown, None, [], 0, Pending))
            && (loaded.Ok? ==> md.title == FirstOr(loaded.value.dcTitle, Unknown)
                               && md.author == FirstOr(loaded.value.dcCreator, Unknown)
                               && md.cover == SelectCover(loaded.value.items))
    ensures loaded.Ok? ==>
            var b := loaded.value;
            var md := MetadataOnly(loaded);
            ((exists p :: 0 <= p < |b.spine| && LookupId(b, b.spine[p]).Raises?) ==> md.chapters == [])
            && |md.chapters| <= |b.spine|
            && (forall k :: 0 <= k < |md.chapters| ==>
                  md.chapters[k].content.None? && md.chapters[k].wordCount == 0
                  && 0 <= md.chapters[k].index < |b.spine|
                  && md.chapters[k].itemId == Some(b.spine[md.chapters[k].index]))
            && (forall k, l :: 0 <= k < l < |md.chapters| ==> md.chapters[k].index < md.chapters[l].index)
  {
    if loaded.Ok? {
      var b := loaded.value;
      EntriesFailIff(b, |b.spine|);
      if Entries(b, |b.spine|).Some? {
        var es := Entries(b, |b.spine|).value;
        EntriesMatchSpine(b, |b.spine|);
        EntriesOrdered(b, |b.spine|);
        forall k | 0 <= k < |es|
          ensures es[k].content.None? && es[k].wordCount == 0 && es[k].itemId == Some(b.spine[es[k].index])
        {
          EntryAtShape(b, es[k].index);
        }
      }
    }
  }

  // ---------------------------------------------------------------------------
  // Single chapters (`parse_single_chapter`)

  /**
   * The chapter at `index`, read with Python's sequence indexing: a negative index
   * counts from the end, an index past either end gives None, as does an id that
   * does not resolve or a parse that raises. Text under 10 non-space characters
   * gives an empty chapter with the placeholder title.
   */
  function SingleChapter(b: Book, index: int): Option<LazyChapter> {
    if index >= |b.spine| || index < -|b.spine| then None
    else
      var p := if index < 0 then |b.spine| + index else index;
      match LookupId(b, b.spine[p])
      case Found(item) =>
        (match item.full
         case None => None
         case Some(m) => Some(ParsedChapter(m, index)))
      case _ => None
  }

  /** The chapter built from a parsed document: its text and title, or the placeholder for a near-empty one. */
  function ParsedChapter(m: Markup, index: int): (c: LazyChapter)
    ensures c.index == index && c.itemId.None? && c.content.Some?
  {
    if m.text == [] || |Strip(m.text)| < MinChapterText
    then LazyChapter(index, Placeholder(index), Some(""), None, 0)
    else LazyChapter(index, ChapterTitle(m, Placeholder(index)), Some(m.text), None, |m.text|)
  }

  /**
   * A chapter is produced exactly for an index inside the spine, read from the end
   * when negative, whose id resolves to an item that parses. It holds the parsed
   * text, its length and the chapter title; a text under 10 non-space characters
   * gives empty content, zero words and the placeholder title.
   */
  lemma SingleChapterSpec(b: Book, index: int)
    ensures SingleChapter(b, index).Some? <==>
            -|b.spine| <= index < |b.spine|
            && var p := if index < 0 then |b.spine| + index else index;
               LookupId(b, b.spine[p]).Found? && LookupId(b, b.spine[p]).item.full.Some?
    ensures SingleChapter(b, index).Some? ==>
            var p := if index < 0 then |b.spine| + index else index;
            var m := LookupId(b, b.spine[p]).item.full.value;
            var c := SingleChapter(b, index).value;
            var short := m.text == [] || |Strip(m.text)| < MinChapterText;
            c.index == index && c.itemId.None?
            && c.content == Some(if short then "" else m.text)
            && c.wordCount == (if short then 0 else |m.text|)
            && c.title == (if short then Placeholder(index) else ChapterTitle(m, Placeholder(index)))
    ensures SingleChapter(b, index).Some? ==>
            var c := SingleChapter(b, index).value;
            (c.content.value == [] <==> c.wordCount == 0)
            && (c.content.value != [] ==> |Strip(c.content.value)| >= MinChapterText)
  {
  }

  /** A negative index reads the same chapter as its non-negative counterpart. */
  lemma NegativeIndexReadsFromEnd(b: Book, index: int)
    requires -|b.spine| <= index < 0
    ensures SingleChapter(b, index).Some? <==> SingleChapter(b, index + |b.spine|).Some?
    ensures SingleChapter(b, index).Some? ==>
            SingleChapter(b, index).value.content == SingleChapter(b, index + |b.spine|).value.content
  {
  }

  // ---------------------------------------------------------------------------
  // The full pass (`parse_all_chapters`)

  /** The parsed chapters of the first n spine positions, dropping the positions that give None. */
  function AllChapters(b: Book, n: nat): seq<LazyChapter>
    requires n <= |b.spine|
  {
    if n == 0 then []
    else match SingleChapter(b, n - 1)
      case None => AllChapters(b, n - 1)
      case Some(c) => AllChapters(b, n - 1) + [c]
  }

  /** The full pass is the single-chapter parse at every spine position, in order, without the Nones. */
  lemma {:induction false} AllChaptersMatch(b: Book, n: nat)
    requires n <= |b.spine|
    ensures var cs := AllChapters(b, n);
            |cs| <= n
            && forall k :: 0 <= k < |cs| ==> 0 <= cs[k].index < n && SingleChapter(b, cs[k].index) == Some(cs[k])
  {
    if n > 0 {
      AllChaptersMatch(b, n - 1);
      SingleChapterSpec(b, n - 1);
    }
  }

  lemma {:induction false} AllChaptersOrdered(b: Book, n: nat)
    requires n <= |b.spine|
    ensures var cs := AllChapters(b, n);
            forall k, l :: 0 <= k < l < |cs| ==> cs[k].index < cs[l].index
  {
    if n > 0 {
      AllChaptersOrdered(b, n - 1);
      AllChaptersMatch(b, n - 1);
      SingleChapterSpec(b, n - 1);
    }
  }

  /** One step of the full pass: the chapters so far, then the chapter at n - 1 when there is one. */
  lemma AllChaptersStep(b: Book, n: nat)
    requires 0 < n <= |b.spine|
    ensures var cs := AllChapters(b, n - 1);
            AllChapters(b, n)[..|cs|] == cs
            && (SingleChapter(b, n - 1).Some? ==>
                  |AllChapters(b, n)| == |cs| + 1 && AllChapters(b, n)[|cs|].index == n - 1)
  {
    var cs := AllChapters(b, n - 1);
    var o := SingleChapter(b, n - 1);
    if o.Some? {
      SingleChapterSpec(b, n - 1);
      assert AllChapters(b, n) == cs + [o.value];
      assert (cs + [o.value])[..|cs|] == cs;
    }
  }

  /** The full pass over n positions keeps the pass over n - 1 as a prefix. */
  lemma AllChaptersPrefix(b: Book, n: nat, k: nat)
    requires 0 < n <= |b.spine| && k < |AllChapters(b, n - 1)|
    ensures k < |AllChapters(b, n)| && AllChapters(b, n)[k] == AllChapters(b, n - 1)[k]
  {
  }

  /** The full pass over n positions ends with the chapter at n - 1, when there is one. */
  lemma AllChaptersLast(b: Book, n: nat)
    requires 0 < n <= |b.spine| && SingleChapter(b, n - 1).Some?
    ensures |AllChapters(b, n - 1)| < |AllChapters(b, n)|
    ensures AllChapters(b, n)[|AllChapters(b, n - 1)|].index == n - 1
  {
    SingleChapterSpec(b, n - 1);
  }

  /** A spine position that parses has its chapter in the full pass, at position k. */
  lemma {:induction false} AllChaptersHas(b: Book, n: nat, p: int) returns (k: nat)
    requires 0 <= p < n <= |b.spine| && SingleChapter(b, p).Some?
    ensures k < |AllChapters(b, n)| && AllChapters(b, n)[k].index == p
  {
    if p == n - 1 {
      AllChaptersLast(b, n);
      k := |AllChapters(b, n - 1)|;
    } else {
      k := AllChaptersHas(b, n - 1, p);
      AllChaptersPrefix(b, n, k);
    }
  }

  /** Every spine position that parses has its chapter in the full pass. */
  lemma AllChaptersComplete(b: Book, n: nat, p: int)
    requires 0 <= p < n <= |b.spine| && SingleChapter(b, p).Some?
    ensures exists k :: 0 <= k < |AllChapters(b, n)| && AllChapters(b, n)[k].index == p
  {
    var k := AllChaptersHas(b, n, p);
  }

  // ---------------------------------------------------------------------------
  // The parser object

  class EpubLazyParser {
    const filePath: string
    /** `_book`: None until the first successful load. */
    var cached: Option<Book>

    constructor(filePath: string)
      ensures this.filePath == filePath && cached.None?
    {
      this.filePath := filePath;
      cached := None;
    }

    /** The `book` property: loads on first use, then always returns the cached archive. */
    method LoadBook(load: Result<Book, string>) returns (r: Result<Book, string>)
      modifies this
      ensures r == Loaded(old(cached), load)
      ensures old(cached).Some? ==> cached == old(cached)
      ensures old(cached).None? ==> cached == (if load.Ok? then Some(load.value) else None)
    {
      if cached.None? {
        if load.Err? {
          return load;
        }
        cached := Some(load.value);
      }
      r := Ok(cached.value);
    }

    method ParseMetadataOnly(load: Result<Book, string>) returns (md: LazyMetadata)
      modifies this
      ensures cached == (if old(cached).Some? then old(cached) else if load.Ok? then Some(load.value) else None)
      ensures md == MetadataOnly(Loaded(old(cached), load))
    {
      md := DefaultMetadata();
      var loaded := LoadBook(load);
      if loaded.Err? {
        return;
      }
      var b := loaded.value;
      md := md.(title := FirstOr(b.dcTitle, Unknown), author := FirstOr(b.dcCreator, Unknown),
                cover := SelectCover(b.items));
      var outline := Outline(b);
      if outline.Some? {
        md := md.(chapters := outline.value, totalChapters := |outline.value|);
      }
    }

    /** The outline loop of `parse_metadata_only`: None when a lookup raises part-way. */
    method Outline(b: Book) returns (r: Option<seq<LazyChapter>>)
      ensures r == Entries(b, |b.spine|)
    {
      var chapters: seq<LazyChapter> := [];
      var i := 0;
      while i < |b.spine|
        invariant 0 <= i <= |b.spine|
        invariant Entries(b, i) == Some(chapters)
      {
        var id := b.spine[i];
        var found := LookupId(b, id);
        if found.Raises? {
          EntriesStayFailed(b, i + 1, |b.spine|);
          return None;
        }
        if found.Found? {
          chapters := chapters + [LazyChapter(i, QuickTitle(found.item.head, i), None, Some(id), 0)];
        }
        i := i + 1;
      }
      r := Some(chapters);
    }

    method ParseSingleChapter(load: Result<Book, string>, index: int) returns (r: Option<LazyChapter>)
      modifies this
      ensures cached == (if old(cached).Some? then old(cached) else if load.Ok? then Some(load.value) else None)
      ensures r == match Loaded(old(cached), load)
                   case Err(_) => None
                   case Ok(b) => SingleChapter(b, index)
    {
      var loaded := LoadBook(load);
      if loaded.Err? {
        return None;
      }
      r := SingleChapter(loaded.value, index);
    }

    /** A failed load is not caught here: it reaches the caller. */
    method ParseAllChapters(load: Result<Book, string>) returns (r: Result<seq<LazyChapter>, string>)
      modifies this
      ensures cached == (if old(cached).Some? then old(cached) else if load.Ok? then Some(load.value) else None)
      ensures r == match Loaded(old(cached), load)
                   case Err(e) => Err(e)
                   case Ok(b) => Ok(AllChapters(b, |b.spine|))
    {
      var loaded := LoadBook(load);
      if loaded.Err? {
        return Err(loaded.error);
      }
      var b := loaded.value;
      var chapters: seq<LazyChapter> := [];
      var i := 0;
      while i < |b.spine|
        invariant 0 <= i <= |b.spine|
        invariant cached == Some(b)
        invariant chapters == AllChapters(b, i)
      {
        var chapter := ParseSingleChapter(load, i);
        if chapter.Some? {
          chapters := chapters + [chapter.value];
        }
        i := i + 1;
      }
      r := Ok(chapters);
    }
  }
}
