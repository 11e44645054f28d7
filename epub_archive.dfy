/**
 * What the two EPUB parsers see of an archive once ebooklib and BeautifulSoup are
 * abstracted away, and the selection rules both parsers share: the cover choice
 * and the chapter-title chain.
 *
 * An archive is a spine (item ids in reading order), an id lookup, the list of all
 * items in archive order, the Dublin Core metadata values and the table of contents.
 * Each item carries what BeautifulSoup reports about its markup, precomputed: the
 * newline-separated text, the plain text, the serialised html and the text of the
 * first element of each heading kind that occurs. The base64 text of an item's bytes
 * is part of the item too; the encoding itself is not modelled.
 */
module EpubArchive {
  import opened Wrappers
  import opened Text

  /** The element kinds the title chains look for. */
  datatype Tag = H1 | H2 | H3 | TitleElement

  /** BeautifulSoup's view of one markup document. */
  datatype Markup = Markup(
    text: string,                 // get_text(separator='\n', strip=True)
    plainText: string,            // get_text(strip=True)
    html: string,                 // str(soup)
    headings: map<Tag, string>)   // get_text(strip=True) of soup.find(tag), for each tag found

  /** ebooklib's item types that the parsers distinguish. */
  datatype ItemKind = DocumentItem | ImageItem | CoverItem | OtherItem

  datatype Item = Item(
    name: string,             // get_name()
    kind: ItemKind,           // get_type()
    base64: string,           // base64 text of get_content()
    full: Option<Markup>,     // the parse of get_content(); None when parsing raises
    head: Option<Markup>)     // the parse of get_content()[:2000]; None when it raises

  /**
   * The outcome of looking up a spine id. `Raises` stands for an exception thrown
   * while the parser handles that spine entry.
   */
  datatype Lookup = Found(item: Item) | Absent | Raises(message: string)

  datatype TocNode =
    | TocLink(title: string, href: string)
    | TocSection(title: string, href: string, children: seq<TocNode>)
    /** A table-of-contents entry whose title, href or (section, children) shape raises on access. */
    | TocBroken

  datatype Book = Book(
    dcTitle: seq<string>,        // values of get_metadata('DC', 'title')
    dcCreator: seq<string>,      // values of get_metadata('DC', 'creator')
    dcPublisher: seq<string>,    // values of get_metadata('DC', 'publisher')
    items: seq<Item>,            // get_items()
    spine: seq<string>,          // item ids in reading order
    byId: map<string, Lookup>,   // get_item_with_id; an id not in the map is Absent
    toc: seq<TocNode>)

  function LookupId(b: Book, id: string): Lookup {
    if id in b.byId then b.byId[id] else Absent
  }

  const DataUriPrefix: string := "data:image/jpeg;base64,"
  const ShortTitleLimit: nat := 50

  /** The first value of a Dublin Core field, or the default when there is none. */
  function FirstOr(values: seq<string>, default: string): string {
    if values != [] then values[0] else default
  }

  // ---------------------------------------------------------------------------
  // Cover selection (`_extract_cover`, identical in both parsers)

  predicate IsCoverItem(it: Item) { it.kind == CoverItem }

  predicate IsNamedCoverImage(it: Item) { it.kind == ImageItem && Contains(AsciiLower(it.name), "cover") }

  /** The position of the first item satisfying p, if any. */
  function FirstWhere(items: seq<Item>, p: Item -> bool): (r: Option<nat>)
    ensures r.Some? ==> r.value < |items| && p(items[r.value])
                        && forall j :: 0 <= j < r.value ==> !p(items[j])
    ensures r.None? ==> forall j :: 0 <= j < |items| ==> !p(items[j])
  {
    if items == [] then None
    else if p(items[0]) then Some(0)
    else match FirstWhere(items[1..], p)
      case None => None
      case Some(k) => Some(k + 1)
  }

  function DataUri(it: Item): string { DataUriPrefix + it.base64 }

  /** The cover: the first ITEM_COVER item, else the first image named like a cover. */
  function SelectCover(items: seq<Item>): Option<string> {
    match FirstWhere(items, IsCoverItem)
    case Some(i) => Some(DataUri(items[i]))
    case None =>
      match FirstWhere(items, IsNamedCoverImage)
      case Some(i) => Some(DataUri(items[i]))
      case None => None
  }

  /**
   * The first cover item wins; without one, the first image whose lower-cased name
   * contains "cover"; without either, no cover. A cover is always a JPEG data URI.
   */
  lemma SelectCoverSpec(items: seq<Item>)
    ensures SelectCover(items).Some? ==> StartsWith(SelectCover(items).value, DataUriPrefix)
    ensures SelectCover(items).None? <==>
            forall j :: 0 <= j < |items| ==> !IsCoverItem(items[j]) && !IsNamedCoverImage(items[j])
    ensures forall i :: 0 <= i < |items| && IsCoverItem(items[i])
                        && (forall j :: 0 <= j < i ==> !IsCoverItem(items[j]))
                        ==> SelectCover(items) == Some(DataUriPrefix + items[i].base64)
    ensures forall i :: 0 <= i < |items| && IsNamedCoverImage(items[i])
                        && (forall j :: 0 <= j < |items| ==> !IsCoverItem(items[j]))
                        && (forall j :: 0 <= j < i ==> !IsNamedCoverImage(items[j]))
                        ==> SelectCover(items) == Some(DataUriPrefix + items[i].base64)
  {
    var c := FirstWhere(items, IsCoverItem);
    var n := FirstWhere(items, IsNamedCoverImage);
    if c.Some? {
      assert !(forall j :: 0 <= j < |items| ==> !IsCoverItem(items[j]) && !IsNamedCoverImage(items[j]));
    } else if n.Some? {
      assert !(forall j :: 0 <= j < |items| ==> !IsCoverItem(items[j]) && !IsNamedCoverImage(items[j]));
    }
    if SelectCover(items).Some? {
      assert StartsWith(SelectCover(items).value, DataUriPrefix) by {
        var u := SelectCover(items).value;
        assert u[..|DataUriPrefix|] == DataUriPrefix;
      }
    }
  }

  // ---------------------------------------------------------------------------
  // Titles

  /** `f'第 {index + 1} 章'` */
  function Placeholder(index: int): string { "第 " + IntToString(index + 1) + " 章" }

  /** The text of the first h1, else h2, else h3 element, at any length. */
  function FirstHeading(m: Markup): Option<string> {
    if H1 in m.headings then Some(m.headings[H1])
    else if H2 in m.headings then Some(m.headings[H2])
    else if H3 in m.headings then Some(m.headings[H3])
    else None
  }

  /**
   * `_extract_chapter_title` of both parsers: the first h1/h2/h3 found, else the
   * first line of the plain text when it is non-empty and shorter than 50
   * characters, else the parser's fallback.
   */
  function ChapterTitle(m: Markup, fallback: string): string {
    match FirstHeading(m)
    case Some(t) => t
    case None =>
      var first := FirstLine(m.plainText);
      if first != [] && |first| < ShortTitleLimit then first else fallback
  }

  lemma ChapterTitleSpec(m: Markup, fallback: string)
    ensures H1 in m.headings ==> ChapterTitle(m, fallback) == m.headings[H1]
    ensures H1 !in m.headings && H2 in m.headings ==> ChapterTitle(m, fallback) == m.headings[H2]
    ensures H1 !in m.headings && H2 !in m.headings && H3 in m.headings
            ==> ChapterTitle(m, fallback) == m.headings[H3]
    ensures FirstHeading(m).None? ==>
            var first := Split(m.plainText, '\n')[0];
            ChapterTitle(m, fallback) == if first != [] && |first| < ShortTitleLimit then first else fallback
  {
    FirstLineIsFirstPart(m.plainText);
  }

  // ---------------------------------------------------------------------------
  // Table of contents (`get_toc`)

  datatype TocEntry = TocEntry(title: string, href: string, level: nat)

  /** The entries collected, and whether the traversal finished without raising. */
  datatype Flat = Flat(entries: seq<TocEntry>, ok: bool)

  /** `parse_toc_item(item, level)`: the node first, then its children one level deeper. */
  function FlattenNode(n: TocNode, level: nat): Flat
    decreases n, 1
  {
    match n
    case TocLink(t, h) => Flat([TocEntry(t, h, level)], true)
    case TocBroken => Flat([], false)
    case TocSection(t, h, children) =>
      var rest := FlattenList(children, level + 1);
      Flat([TocEntry(t, h, level)] + rest.entries, rest.ok)
  }

  /** The nodes in order; the first one that raises ends the traversal. */
  function FlattenList(ns: seq<TocNode>, level: nat): Flat
    decreases ns, 0
  {
    if ns == [] then Flat([], true)
    else
      var first := FlattenNode(ns[0], level);
      if !first.ok then first
      else
        var rest := FlattenList(ns[1..], level);
        Flat(first.entries + rest.entries, rest.ok)
  }

  predicate WellFormedNode(n: TocNode)
    decreases n, 1
  {
    match n
    case TocLink(_, _) => true
    case TocBroken => false
    case TocSection(_, _, children) => WellFormedList(children)
  }

  predicate WellFormedList(ns: seq<TocNode>)
    decreases ns, 0
  {
    ns == [] || (WellFormedNode(ns[0]) && WellFormedList(ns[1..]))
  }

  function NodeCount(n: TocNode): nat
    decreases n, 1
  {
    match n
    case TocLink(_, _) => 1
    case TocBroken => 0
    case TocSection(_, _, children) => 1 + ListCount(children)
  }

  function ListCount(ns: seq<TocNode>): nat
    decreases ns, 0
  {
    if ns == [] then 0 else NodeCount(ns[0]) + ListCount(ns[1..])
  }

  /** A table of contents that never raises flattens completely: one entry per node. */
  lemma {:induction false} FlattenNodeComplete(n: TocNode, level: nat)
    requires WellFormedNode(n)
    ensures FlattenNode(n, level).ok && |FlattenNode(n, level).entries| == NodeCount(n)
    decreases n, 1
  {
    match n
    case TocLink(_, _) =>
    case TocSection(_, _, children) => FlattenListComplete(children, level + 1);
  }

  lemma {:induction false} FlattenListComplete(ns: seq<TocNode>, level: nat)
    requires WellFormedList(ns)
    ensures FlattenList(ns, level).ok && |FlattenList(ns, level).entries| == ListCount(ns)
    decreases ns, 0
  {
    if ns != [] {
      FlattenNodeComplete(ns[0], level);
      FlattenListComplete(ns[1..], level);
    }
  }

  /** Every entry emitted under a node sits at the node's level or deeper; the node itself comes first. */
  lemma {:induction false} FlattenNodeLevels(n: TocNode, level: nat)
    ensures forall e :: e in FlattenNode(n, level).entries ==> e.level >= level
    ensures n.TocLink? || n.TocSection? ==>
            FlattenNode(n, level).entries != [] && FlattenNode(n, level).entries[0] == TocEntry(n.title, n.href, level)
    decreases n, 1
  {
    match n
    case TocLink(_, _) =>
    case TocBroken =>
    case TocSection(_, _, children) => FlattenListLevels(children, level + 1);
  }

  lemma {:induction false} FlattenListLevels(ns: seq<TocNode>, level: nat)
    ensures forall e :: e in FlattenList(ns, level).entries ==> e.level >= level
    decreases ns, 0
  {
    if ns != [] {
      FlattenNodeLevels(ns[0], level);
      FlattenListLevels(ns[1..], level);
    }
  }

  /** Flattening a concatenation: the second part is only reached when the first finished. */
  lemma {:induction false} FlattenListAppend(a: seq<TocNode>, b: seq<TocNode>, level: nat)
    ensures FlattenList(a + b, level) ==
            if !FlattenList(a, level).ok then FlattenList(a, level)
            else Flat(FlattenList(a, level).entries + FlattenList(b, level).entries, FlattenList(b, level).ok)
  {
    if a == [] {
      assert a + b == b;
    } else {
      assert (a + b)[0] == a[0];
      assert (a + b)[1..] == a[1..] + b;
      FlattenListAppend(a[1..], b, level);
    }
  }

  /** When an entry raises, the entries collected before it are what the traversal returns. */
  lemma FlattenStopsAtBroken(before: seq<TocNode>, after: seq<TocNode>, level: nat)
    requires WellFormedList(before)
    ensures FlattenList(before + [TocBroken] + after, level)
            == Flat(FlattenList(before, level).entries, false)
  {
    FlattenListComplete(before, level);
    FlattenListAppend(before, [TocBroken] + after, level);
    assert before + [TocBroken] + after == before + ([TocBroken] + after);
  }
}
