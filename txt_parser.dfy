/**
 * The plain-text book parser (backend/services/txt_parser.py): encoding-name
 * normalisation, label-based title/author extraction from the first twenty
 * lines, chapter splitting on heading lines, and the length-based fallback.
 *
 * The character-set detector and the byte decoder are inputs: `detected` is the
 * name the detector reports (None when it has no guess) and `decode` maps an
 * encoding name to the decoded text or to the decoder's error message.
 * The regular expression `\d` is taken to match the ASCII digits only.
 */
module TxtParser {
  import opened Wrappers
  import opened Text

  const UnknownTitle: string := "未知书名"
  const UnknownAuthor: string := "未知作者"
  const Language: string := "zh"
  /** Title of the implicit chapter that collects the text before the first heading. */
  const StartTitle: string := "开始"
  const TitleCap: nat := 100
  const ChunkBudget: nat := 5000
  const MetadataLineCount: nat := 20
  const ShortLineLimit: nat := 50

  datatype Chapter = Chapter(title: string, content: string, wordCount: nat)

  datatype Metadata = Metadata(title: string, author: string, language: string)

  datatype ParseResult =
    | Parsed(metadata: Metadata, chapters: seq<Chapter>, totalChapters: nat,
             encoding: string, totalWords: nat)
    | Failed(error: string)

  // ---------------------------------------------------------------------------
  // Encoding normalisation

  /** `_detect_encoding`: map the detector's answer onto the codec actually used. */
  function DetectEncoding(detected: Option<string>): (r: string)
    ensures r != []
    ensures detected == Some("GB2312") ==> r == "gbk"
    ensures detected == Some("ISO-8859-1") ==> r == "utf-8"
    ensures detected == None || detected == Some("") ==> r == "utf-8"
    ensures (detected.Some? && detected.value != "" && detected.value != "GB2312"
             && detected.value != "ISO-8859-1") ==> r == detected.value
  {
    match detected
    case None => "utf-8"
    case Some(e) =>
      if e == "" then "utf-8"
      else if e == "GB2312" then "gbk"
      else if e == "ISO-8859-1" then "utf-8"
      else e
  }

  // ---------------------------------------------------------------------------
  // Metadata labels: `(?:书名|标题)[：:]\s*(.+)` and `(?:作者|著)[：:]\s*(.+)`

  const TitleLabels: seq<string> := ["书名", "标题"]
  const AuthorLabels: seq<string> := ["作者", "著"]

  predicate IsLabelSeparator(c: char) { c == '：' || c == ':' }

  /** The label at position p is followed by a separator and at least one more character. */
  predicate LabelMatchesAt(line: string, p: nat, marker: string)
    requires p <= |line|
  {
    StartsWith(line[p..], marker) && p + |marker| + 1 < |line| && IsLabelSeparator(line[p + |marker|])
  }

  /** The first alternative of `labels` that matches at p, as regex alternation tries them. */
  function LabelAt(line: string, p: nat, labels: seq<string>): (r: Option<string>)
    requires p <= |line|
    ensures r.Some? ==> r.value in labels && LabelMatchesAt(line, p, r.value)
    ensures r.None? ==> forall l :: l in labels ==> !LabelMatchesAt(line, p, l)
  {
    if labels == [] then None
    else if LabelMatchesAt(line, p, labels[0]) then Some(labels[0])
    else LabelAt(line, p, labels[1..])
  }

  /**
   * `re.search(...)`, then `.group(1).strip()`: the leftmost position at which a label
   * matches, and the stripped remainder after its separator. Since the line holds no
   * newline, `\s*(.+)` followed by strip() leaves exactly the stripped remainder.
   */
  function SearchLabel(line: string, labels: seq<string>, p: nat): Option<string>
    requires p <= |line|
    decreases |line| - p
  {
    match LabelAt(line, p, labels)
    case Some(l) => Some(Strip(line[p + |l| + 1..]))
    case None => if p == |line| then None else SearchLabel(line, labels, p + 1)
  }

  function TitleLabel(line: string): Option<string> { SearchLabel(Strip(line), TitleLabels, 0) }

  function AuthorLabel(line: string): Option<string> { SearchLabel(Strip(line), AuthorLabels, 0) }

  /** One pass of the label loop: a matching line overwrites the field. */
  function LabelStep(m: Metadata, line: string): Metadata {
    var m1 := match TitleLabel(line) case Some(t) => m.(title := t) case None => m;
    match AuthorLabel(line) case Some(a) => m1.(author := a) case None => m1
  }

  const DefaultMetadata: Metadata := Metadata(UnknownTitle, UnknownAuthor, Language)

  /** The metadata after the label loop has seen `lines`. */
  function LabelScan(lines: seq<string>): Metadata
  {
    if lines == [] then DefaultMetadata
    else LabelStep(LabelScan(lines[..|lines| - 1]), lines[|lines| - 1])
  }

  /** `line.strip() and len(line.strip()) < 50` */
  predicate IsShortLine(line: string) { Strip(line) != [] && |Strip(line)| < ShortLineLimit }

  /** The first line whose stripped form is non-empty and shorter than 50 characters. */
  function FirstShortLine(lines: seq<string>): Option<string>
  {
    if lines == [] then None
    else if IsShortLine(lines[0]) then Some(Strip(lines[0]))
    else FirstShortLine(lines[1..])
  }

  function MetadataLines(content: string): seq<string> {
    var lines := Split(content, '\n');
    if |lines| <= MetadataLineCount then lines else lines[..MetadataLineCount]
  }

  /** What `_extract_metadata` returns. */
  function MetadataOf(content: string): Metadata {
    var lines := MetadataLines(content);
    var m := LabelScan(lines);
    if m.title == UnknownTitle then
      match FirstShortLine(lines)
      case Some(t) => m.(title := t)
      case None => m
    else m
  }

  /** The label loop's last line sets the title when it holds a title label, and keeps it otherwise. */
  lemma LabelScanTitleStep(lines: seq<string>)
    requires lines != []
    ensures var last := lines[|lines| - 1];
            LabelScan(lines).title
            == if TitleLabel(last).Some? then TitleLabel(last).value else LabelScan(lines[..|lines| - 1]).title
  {
  }

  /** The same for the author. */
  lemma LabelScanAuthorStep(lines: seq<string>)
    requires lines != []
    ensures var last := lines[|lines| - 1];
            LabelScan(lines).author
            == if AuthorLabel(last).Some? then AuthorLabel(last).value else LabelScan(lines[..|lines| - 1]).author
  {
  }

  /** A later title label line overrides every earlier one: the last one decides the title. */
  lemma {:induction false} LastTitleLabelWins(lines: seq<string>, i: nat)
    requires i < |lines| && TitleLabel(lines[i]).Some?
    requires forall j :: i < j < |lines| ==> TitleLabel(lines[j]).None?
    ensures LabelScan(lines).title == TitleLabel(lines[i]).value
  {
    var n := |lines| - 1;
    LabelScanTitleStep(lines);
    if i < n {
      var init := lines[..n];
      assert init[i] == lines[i];
      assert TitleLabel(lines[n]).None?;
      forall j | i < j < |init| ensures TitleLabel(init[j]).None? {
        assert init[j] == lines[j];
      }
      LastTitleLabelWins(init, i);
    }
  }

  /** A later author label line overrides every earlier one: the last one decides the author. */
  lemma {:induction false} LastAuthorLabelWins(lines: seq<string>, i: nat)
    requires i < |lines| && AuthorLabel(lines[i]).Some?
    requires forall j :: i < j < |lines| ==> AuthorLabel(lines[j]).None?
    ensures LabelScan(lines).author == AuthorLabel(lines[i]).value
  {
    var n := |lines| - 1;
    LabelScanAuthorStep(lines);
    if i < n {
      var init := lines[..n];
      assert init[i] == lines[i];
      assert AuthorLabel(lines[n]).None?;
      forall j | i < j < |init| ensures AuthorLabel(init[j]).None? {
        assert init[j] == lines[j];
      }
      LastAuthorLabelWins(init, i);
    }
  }

  /** Without label lines the defaults stay: '未知书名', '未知作者', and the language is always 'zh'. */
  lemma {:induction false} LabelScanDefaults(lines: seq<string>)
    ensures LabelScan(lines).language == Language
    ensures (forall i :: 0 <= i < |lines| ==> TitleLabel(lines[i]).None?)
            ==> LabelScan(lines).title == UnknownTitle
    ensures (forall i :: 0 <= i < |lines| ==> AuthorLabel(lines[i]).None?)
            ==> LabelScan(lines).author == UnknownAuthor
  {
    if lines != [] {
      var init := lines[..|lines| - 1];
      LabelScanDefaults(init);
      assert forall i :: 0 <= i < |init| ==> init[i] == lines[i];
    }
  }

  /** The fallback title is the first short non-empty line, or the default when there is none. */
  lemma FirstShortLineSpec(lines: seq<string>)
    ensures FirstShortLine(lines).Some? <==> exists i :: 0 <= i < |lines| && IsShortLine(lines[i])
    ensures FirstShortLine(lines).Some? ==>
            exists i :: 0 <= i < |lines| && FirstShortLine(lines).value == Strip(lines[i]) && IsShortLine(lines[i])
                        && forall j :: 0 <= j < i ==> !IsShortLine(lines[j])
  {
    if FirstShortLine(lines).Some? {
      var i := FirstShortLineAt(lines);
    } else {
      NoFirstShortLine(lines);
    }
  }

  /** The position of the line the fallback title comes from. */
  lemma {:induction false} FirstShortLineAt(lines: seq<string>) returns (i: nat)
    requires FirstShortLine(lines).Some?
    ensures i < |lines| && IsShortLine(lines[i]) && FirstShortLine(lines).value == Strip(lines[i])
    ensures forall j :: 0 <= j < i ==> !IsShortLine(lines[j])
  {
    if IsShortLine(lines[0]) {
      i := 0;
    } else {
      var k := FirstShortLineAt(lines[1..]);
      i := k + 1;
      forall j | 0 <= j < i ensures !IsShortLine(lines[j]) {
        if j > 0 {
          assert lines[j] == lines[1..][j - 1];
        }
      }
    }
  }

  lemma {:induction false} NoFirstShortLine(lines: seq<string>)
    requires FirstShortLine(lines).None?
    ensures forall i :: 0 <= i < |lines| ==> !IsShortLine(lines[i])
  {
    if lines != [] {
      NoFirstShortLine(lines[1..]);
      forall i | 0 < i < |lines| ensures !IsShortLine(lines[i]) {
        assert lines[i] == lines[1..][i - 1];
      }
    }
  }

  /**
   * The metadata looks at exactly the first min(20, n) lines. A title label wins;
   * when the labels leave the default title (no title label at all, in particular),
   * the title is the first short non-empty line of that window, else the default.
   * The author is the label scan's, and the language is always "zh".
   */
  lemma MetadataOfSpec(content: string)
    ensures var n := |Split(content, '\n')|;
            |MetadataLines(content)| == (if n <= MetadataLineCount then n else MetadataLineCount)
    ensures MetadataLines(content) == Split(content, '\n')[..|MetadataLines(content)|]
    ensures MetadataOf(content).language == Language
    ensures MetadataOf(content).author == LabelScan(MetadataLines(content)).author
    ensures var scanned := LabelScan(MetadataLines(content)).title;
            MetadataOf(content).title
            == if scanned != UnknownTitle then scanned
               else match FirstShortLine(MetadataLines(content))
                    case Some(t) => t
                    case None => UnknownTitle
    ensures var lines := MetadataLines(content);
            (forall i :: 0 <= i < |lines| ==> TitleLabel(lines[i]).None?)
            ==> MetadataOf(content).title == match FirstShortLine(lines)
                                             case Some(t) => t
                                             case None => UnknownTitle
  {
    LabelScanDefaults(MetadataLines(content));
  }

  // ---------------------------------------------------------------------------
  // Heading patterns

  /** The length of the longest prefix of s whose characters all satisfy p. */
  function CountWhile(s: string, p: char -> bool): (n: nat)
    ensures n <= |s|
    ensures forall i :: 0 <= i < n ==> p(s[i])
    ensures n < |s| ==> !p(s[n])
  {
    if s != [] && p(s[0]) then 1 + CountWhile(s[1..], p) else 0
  }

  /** `[一二三四五六七八九十]` */
  predicate IsChineseNumeral(c: char) {
    c == '一' || c == '二' || c == '三' || c == '四' || c == '五'
    || c == '六' || c == '七' || c == '八' || c == '九' || c == '十'
  }

  /** `[一二三四五六七八九十百千\d]` */
  predicate IsChapterNumeral(c: char) { IsChineseNumeral(c) || c == '百' || c == '千' || IsDigit(c) }

  /** `^第[一二三四五六七八九十百千\d]+章\s*.+` */
  predicate IsOrdinalChapter(s: string) {
    |s| >= 1 && s[0] == '第' &&
    var k := CountWhile(s[1..], IsChapterNumeral);
    k >= 1 && k + 2 < |s| && s[k + 1] == '章'
  }

  /** `^Chapter\s+\d+` */
  predicate IsEnglishChapter(s: string) {
    StartsWith(s, "Chapter") &&
    var w := CountWhile(s[7..], IsSpace);
    w >= 1 && 7 + w < |s| && IsDigit(s[7 + w])
  }

  /** `^\d+\.\s*.+` */
  predicate IsNumberedHeading(s: string) {
    var d := CountWhile(s, IsDigit);
    d >= 1 && d + 1 < |s| && s[d] == '.'
  }

  /** `^[一二三四五六七八九十]+、.+` */
  predicate IsListHeading(s: string) {
    var k := CountWhile(s, IsChineseNumeral);
    k >= 1 && k + 1 < |s| && s[k] == '、'
  }

  /** `re.match` of the combined pattern against a stripped line. */
  predicate IsHeading(s: string) {
    IsOrdinalChapter(s) || IsEnglishChapter(s) || IsNumberedHeading(s) || IsListHeading(s)
  }

  // ---------------------------------------------------------------------------
  // Heading-driven split

  /** The chapters emitted so far and the chapter being filled. */
  datatype SplitState = SplitState(done: seq<Chapter>, current: Chapter)

  const InitialSplit: SplitState := SplitState([], Chapter(StartTitle, "", 0))

  /** Emit the current chapter when it has content, with its word count set. */
  function Flush(st: SplitState): seq<Chapter> {
    if st.current.content != [] then st.done + [st.current.(wordCount := |st.current.content|)]
    else st.done
  }

  /** One iteration of the loop in `_split_chapters`. */
  function SplitStep(st: SplitState, line: string): SplitState {
    var t := Strip(line);
    if IsHeading(t) then SplitState(Flush(st), Chapter(Take(t, TitleCap), "", 0))
    else st.(current := st.current.(content := st.current.content + line + "\n"))
  }

  function SplitFold(lines: seq<string>): SplitState
  {
    if lines == [] then InitialSplit
    else SplitStep(SplitFold(lines[..|lines| - 1]), lines[|lines| - 1])
  }

  /** The fold over one more line is one more step. */
  lemma SplitFoldStep(lines: seq<string>, i: nat)
    requires i < |lines|
    ensures SplitFold(lines[..i + 1]) == SplitStep(SplitFold(lines[..i]), lines[i])
  {
    assert lines[..i + 1][..i] == lines[..i];
  }

  /** The chapters the heading split yields, before the fallback decision. */
  function HeadingChapters(content: string): seq<Chapter> {
    Flush(SplitFold(Split(content, '\n')))
  }

  /** The fallback is taken when no chapter, or only the implicit start chapter, was found. */
  predicate NeedsFallback(chapters: seq<Chapter>) {
    |chapters| == 0 || (|chapters| == 1 && chapters[0].title == StartTitle)
  }

  /** What `_split_chapters` returns. */
  function ChaptersOf(content: string): seq<Chapter> {
    var chapters := HeadingChapters(content);
    if NeedsFallback(chapters) then LengthParts(content) else chapters
  }

  /** The text a sequence of lines contributes to chapter bodies: each non-heading line and a newline. */
  function BodyText(lines: seq<string>): string
  {
    if lines == [] then []
    else
      var last := lines[|lines| - 1];
      BodyText(lines[..|lines| - 1]) + (if IsHeading(Strip(last)) then [] else last + "\n")
  }

  function Contents(chapters: seq<Chapter>): seq<string>
    ensures |Contents(chapters)| == |chapters|
  {
    if chapters == [] then [] else Contents(chapters[..|chapters| - 1]) + [chapters[|chapters| - 1].content]
  }

  predicate WellFormedChapter(c: Chapter) {
    c.content != [] && c.wordCount == |c.content| && |c.title| <= TitleCap
  }

  lemma ContentsAppend(chapters: seq<Chapter>, c: Chapter)
    ensures Contents(chapters + [c]) == Contents(chapters) + [c.content]
  {
    assert (chapters + [c])[..|chapters|] == chapters;
  }

  /** Loop invariant of the heading split: emitted chapters are well formed. */
  lemma {:induction false} SplitFoldWellFormed(lines: seq<string>)
    ensures forall c :: c in SplitFold(lines).done ==> WellFormedChapter(c)
    ensures |SplitFold(lines).current.title| <= TitleCap
  {
    if lines != [] {
      SplitFoldWellFormed(lines[..|lines| - 1]);
    }
  }

  /** Flushing appends the current chapter's content to the emitted text, when there is any. */
  lemma FlushText(st: SplitState)
    ensures Concat(Contents(Flush(st))) == Concat(Contents(st.done)) + st.current.content
  {
    if st.current.content != [] {
      var c := st.current.(wordCount := |st.current.content|);
      ContentsAppend(st.done, c);
      assert Contents(st.done + [c])[..|st.done|] == Contents(st.done);
    }
  }

  /** The body text of one more line. */
  lemma BodyTextStep(lines: seq<string>)
    requires lines != []
    ensures var last := lines[|lines| - 1];
            BodyText(lines) == BodyText(lines[..|lines| - 1]) + (if IsHeading(Strip(last)) then [] else last + "\n")
  {
  }

  /**
   * Loop invariant of the heading split: the emitted bodies followed by the current
   * body are exactly the non-heading lines seen so far.
   */
  lemma {:induction false} SplitFoldCoverage(lines: seq<string>)
    ensures Concat(Contents(SplitFold(lines).done)) + SplitFold(lines).current.content == BodyText(lines)
  {
    if lines != [] {
      var init := lines[..|lines| - 1];
      var last := lines[|lines| - 1];
      var st := SplitFold(init);
      SplitFoldCoverage(init);
      BodyTextStep(lines);
      assert SplitFold(lines) == SplitStep(st, last);
      if IsHeading(Strip(last)) {
        FlushText(st);
      } else {
        assert Concat(Contents(st.done)) + (st.current.content + last + "\n")
            == (Concat(Contents(st.done)) + st.current.content) + (last + "\n");
      }
    }
  }

  /**
   * The sections of a text: the leading 开始 section, then one section per heading
   * line titled by its first 100 stripped characters; each non-heading line and a
   * newline go to the latest section.
   */
  function Sections(lines: seq<string>): (r: seq<Chapter>)
    ensures |r| >= 1
  {
    if lines == [] then [Chapter(StartTitle, "", 0)]
    else
      var prev := Sections(lines[..|lines| - 1]);
      var last := lines[|lines| - 1];
      if IsHeading(Strip(last)) then prev + [Chapter(Take(Strip(last), TitleCap), "", 0)]
      else prev[|prev| - 1 := prev[|prev| - 1].(content := prev[|prev| - 1].content + last + "\n")]
  }

  /** The titles the heading lines give, in order. */
  function HeadingTitles(lines: seq<string>): seq<string> {
    if lines == [] then []
    else
      var last := lines[|lines| - 1];
      HeadingTitles(lines[..|lines| - 1]) + (if IsHeading(Strip(last)) then [Take(Strip(last), TitleCap)] else [])
  }

  function Titles(chapters: seq<Chapter>): seq<string> {
    seq(|chapters|, k requires 0 <= k < |chapters| => chapters[k].title)
  }

  /** The sections that have content, in order, each with its word count set. */
  function Kept(sections: seq<Chapter>): seq<Chapter> {
    if sections == [] then []
    else
      var c := sections[|sections| - 1];
      Kept(sections[..|sections| - 1]) + (if c.content != [] then [c.(wordCount := |c.content|)] else [])
  }

  /** The section titles are 开始 followed by the heading titles, in the order of the lines. */
  lemma {:induction false} SectionTitles(lines: seq<string>)
    ensures Titles(Sections(lines)) == [StartTitle] + HeadingTitles(lines)
  {
    if lines == [] {
      assert Titles(Sections(lines))[0] == StartTitle;
    } else {
      var prev := Sections(lines[..|lines| - 1]);
      SectionTitles(lines[..|lines| - 1]);
      SectionsStep(lines);
      var last := lines[|lines| - 1];
      if IsHeading(Strip(last)) {
        TitlesAppend(prev, Chapter(Take(Strip(last), TitleCap), "", 0));
      } else {
        var n := |prev| - 1;
        TitlesUpdate(prev, n, prev[n].(content := prev[n].content + last + "\n"));
      }
    }
  }

  lemma TitlesAppend(cs: seq<Chapter>, c: Chapter)
    ensures Titles(cs + [c]) == Titles(cs) + [c.title]
  {
    assert |Titles(cs + [c])| == |Titles(cs) + [c.title]|;
    forall k | 0 <= k < |cs| + 1 ensures Titles(cs + [c])[k] == (Titles(cs) + [c.title])[k] {
      if k < |cs| {
        assert (cs + [c])[k] == cs[k];
      }
    }
  }

  lemma TitlesUpdate(cs: seq<Chapter>, n: nat, c: Chapter)
    requires n < |cs| && c.title == cs[n].title
    ensures Titles(cs[n := c]) == Titles(cs)
  {
    forall k | 0 <= k < |cs| ensures Titles(cs[n := c])[k] == Titles(cs)[k] {
    }
  }

  /** Flushing the state that holds the kept earlier sections and the latest one keeps them all. */
  lemma FlushKept(st: SplitState, sec: seq<Chapter>)
    requires sec != [] && st.done == Kept(sec[..|sec| - 1]) && st.current == sec[|sec| - 1]
    ensures Flush(st) == Kept(sec)
  {
  }

  /** One more line extends the sections as one more loop step extends the state. */
  lemma SectionsStep(lines: seq<string>)
    requires lines != []
    ensures var prev, last := Sections(lines[..|lines| - 1]), lines[|lines| - 1];
            Sections(lines)
            == if IsHeading(Strip(last)) then prev + [Chapter(Take(Strip(last), TitleCap), "", 0)]
               else prev[|prev| - 1 := prev[|prev| - 1].(content := prev[|prev| - 1].content + last + "\n")]
  {
  }

  /** Loop invariant of the heading split: the emitted chapters are the kept sections before the latest, which is the one being filled. */
  lemma {:induction false} SplitFoldSections(lines: seq<string>)
    ensures var sec := Sections(lines);
            SplitFold(lines).done == Kept(sec[..|sec| - 1]) && SplitFold(lines).current == sec[|sec| - 1]
  {
    if lines != [] {
      var init := lines[..|lines| - 1];
      var last := lines[|lines| - 1];
      var prev := Sections(init);
      var st := SplitFold(init);
      SplitFoldSections(init);
      SectionsStep(lines);
      assert SplitFold(lines) == SplitStep(st, last);
      if IsHeading(Strip(last)) {
        FlushKept(st, prev);
        assert (prev + [Chapter(Take(Strip(last), TitleCap), "", 0)])[..|prev|] == prev;
      } else {
        var n := |prev| - 1;
        assert prev[n := prev[n].(content := prev[n].content + last + "\n")][..n] == prev[..n];
      }
    }
  }

  /** The heading split yields exactly the sections that have content. */
  lemma HeadingChaptersAreSections(content: string)
    ensures HeadingChapters(content) == Kept(Sections(Split(content, '\n')))
  {
    SplitFoldSections(Split(content, '\n'));
    FlushKept(SplitFold(Split(content, '\n')), Sections(Split(content, '\n')));
  }

  /**
   * Heading split: every chapter has content, its word count is its length and its
   * title is at most 100 characters; the chapter bodies, in order, are exactly the
   * non-heading lines each followed by a newline, so no heading line is in any body.
   * The chapters are the sections with content, and the section titles are 开始
   * followed by each heading line's first 100 stripped characters, in order.
   */
  lemma HeadingChaptersSpec(content: string)
    ensures forall c :: c in HeadingChapters(content) ==> WellFormedChapter(c)
    ensures Concat(Contents(HeadingChapters(content))) == BodyText(Split(content, '\n'))
    ensures HeadingChapters(content) == Kept(Sections(Split(content, '\n')))
    ensures Titles(Sections(Split(content, '\n'))) == [StartTitle] + HeadingTitles(Split(content, '\n'))
  {
    HeadingChaptersBodies(content);
    HeadingChaptersAreSections(content);
    SectionTitles(Split(content, '\n'));
  }

  /** The well-formedness and body halves of the heading split's contract. */
  lemma HeadingChaptersBodies(content: string)
    ensures forall c :: c in HeadingChapters(content) ==> WellFormedChapter(c)
    ensures Concat(Contents(HeadingChapters(content))) == BodyText(Split(content, '\n'))
  {
    var st := SplitFold(Split(content, '\n'));
    SplitFoldWellFormed(Split(content, '\n'));
    SplitFoldCoverage(Split(content, '\n'));
    if st.current.content != [] {
      var c := st.current.(wordCount := |st.current.content|);
      ContentsAppend(st.done, c);
    }
  }

  /** A text without any heading line yields at most the start chapter, so the fallback is taken. */
  lemma {:induction false} NoHeadingMeansFallback(content: string)
    requires forall l :: l in Split(content, '\n') ==> !IsHeading(Strip(l))
    ensures NeedsFallback(HeadingChapters(content))
    ensures ChaptersOf(content) == LengthParts(content)
  {
    NoHeadingFold(Split(content, '\n'));
  }

  lemma {:induction false} NoHeadingFold(lines: seq<string>)
    requires forall l :: l in lines ==> !IsHeading(Strip(l))
    ensures SplitFold(lines).done == [] && SplitFold(lines).current.title == StartTitle
  {
    if lines != [] {
      NoHeadingFold(lines[..|lines| - 1]);
    }
  }

  /**
   * `_split_chapters`: when the heading split is used, every chapter is well formed
   * and the bodies are exactly the non-heading lines; otherwise the result is the
   * length split. Either way no chapter has empty content.
   */
  lemma ChaptersOfSpec(content: string)
    ensures !NeedsFallback(HeadingChapters(content)) ==>
            ChaptersOf(content) == HeadingChapters(content)
            && (forall c :: c in ChaptersOf(content) ==> WellFormedChapter(c))
            && Concat(Contents(ChaptersOf(content))) == BodyText(Split(content, '\n'))
    ensures NeedsFallback(HeadingChapters(content)) ==> ChaptersOf(content) == LengthParts(content)
    ensures forall c :: c in ChaptersOf(content) ==> c.content != []
  {
    HeadingChaptersBodies(content);
    if NeedsFallback(HeadingChapters(content)) {
      LengthPartsShape(content);
      var parts := LengthParts(content);
      forall c | c in parts ensures c.content != [] {
        var j :| 0 <= j < |parts| && parts[j] == c;
      }
    }
  }

  // ---------------------------------------------------------------------------
  // Length-based split

  predicate IsTerminator(c: char) {
    c == '。' || c == '！' || c == '？' || c == '.' || c == '!' || c == '?'
  }

  /** `line.strip().endswith(('。', '！', '？', '.', '!', '?'))` */
  predicate EndsSentence(s: string) { s != [] && IsTerminator(s[|s| - 1]) }

  /** The unstripped text of every flushed part, and the text accumulated since. */
  datatype LengthState = LengthState(raws: seq<string>, current: string)

  /** One iteration of the loop in `_split_by_length`. */
  function LengthStep(st: LengthState, line: string): LengthState {
    var cur := st.current + line + "\n";
    if |cur| >= ChunkBudget && EndsSentence(Strip(line)) then LengthState(st.raws + [cur], [])
    else LengthState(st.raws, cur)
  }

  function LengthFold(lines: seq<string>): LengthState
  {
    if lines == [] then LengthState([], [])
    else LengthStep(LengthFold(lines[..|lines| - 1]), lines[|lines| - 1])
  }

  /** `f'第{n}部分'` */
  function PartTitle(n: nat): string { "第" + NatToString(n) + "部分" }

  /** The part made from the n-th (1-based) accumulated text. */
  function MakePart(n: nat, raw: string): Chapter { Chapter(PartTitle(n), Strip(raw), |raw|) }

  function MakeParts(raws: seq<string>): (parts: seq<Chapter>)
    ensures |parts| == |raws|
    ensures forall j :: 0 <= j < |raws| ==> parts[j] == MakePart(j + 1, raws[j])
  {
    seq(|raws|, j requires 0 <= j < |raws| => MakePart(j + 1, raws[j]))
  }

  /** What `_split_by_length` returns for the default budget. */
  function LengthParts(content: string): seq<Chapter> {
    var st := LengthFold(Split(content, '\n'));
    var parts := MakeParts(st.raws);
    if Strip(st.current) != [] then parts + [MakePart(|st.raws| + 1, st.current)] else parts
  }

  /** Every line followed by a newline. */
  function LinesText(lines: seq<string>): string
  {
    if lines == [] then [] else LinesText(lines[..|lines| - 1]) + (lines[|lines| - 1] + "\n")
  }

  /** A flushed part reached the budget and ends at a sentence terminator. */
  predicate FlushedRaw(raw: string) {
    |raw| >= ChunkBudget && EndsSentence(Strip(raw))
  }

  /** A line whose stripped text is non-empty: its right-stripped prefix ends in that text's last character. */
  lemma StrippedLineShape(line: string)
    requires Strip(line) != []
    ensures var r := RStrip(line);
            r != [] && !IsSpace(r[|r| - 1]) && Strip(line)[|Strip(line)| - 1] == r[|r| - 1]
            && line == r + line[|r|..] && AllSpace(line[|r|..])
  {
    var r := RStrip(line);
    RStripSpec(line);
    LStripSpec(r);
    assert Strip(line) == LStrip(r);
  }

  /** Trailing whitespace does not change the last character that strip keeps. */
  lemma StripWithTrailingSpace(u: string, t: string)
    requires u != [] && !IsSpace(u[|u| - 1]) && AllSpace(t)
    ensures Strip(u + t) != [] && Strip(u + t)[|Strip(u + t)| - 1] == u[|u| - 1]
  {
    RStripTrailingSpace(u, t);
    StripKeepsLastNonSpace(u);
  }

  lemma {:induction false} FlushedEndsSentence(prev: string, line: string)
    requires EndsSentence(Strip(line))
    ensures EndsSentence(Strip(prev + line + "\n"))
  {
    StrippedLineShape(line);
    var r := RStrip(line);
    var ws := line[|r|..];
    var u := prev + r;
    assert prev + line + "\n" == u + (ws + "\n");
    assert AllSpace(ws + "\n");
    StripWithTrailingSpace(u, ws + "\n");
  }

  /** Loop invariant of the length split: every flushed text reached the budget and ends a sentence. */
  lemma {:induction false} LengthFoldFlushed(lines: seq<string>)
    ensures forall raw :: raw in LengthFold(lines).raws ==> FlushedRaw(raw)
  {
    if lines != [] {
      var init := lines[..|lines| - 1];
      var last := lines[|lines| - 1];
      var st := LengthFold(init);
      LengthFoldFlushed(init);
      var cur := st.current + last + "\n";
      if |cur| >= ChunkBudget && EndsSentence(Strip(last)) {
        FlushedEndsSentence(st.current, last);
      }
    }
  }

  /** Loop invariant of the length split: the flushed texts and the pending text are all lines so far. */
  lemma {:induction false} LengthFoldCoverage(lines: seq<string>)
    ensures Concat(LengthFold(lines).raws) + LengthFold(lines).current == LinesText(lines)
  {
    if lines != [] {
      var init := lines[..|lines| - 1];
      var last := lines[|lines| - 1];
      var st := LengthFold(init);
      LengthFoldCoverage(init);
      var cur := st.current + last + "\n";
      if |cur| >= ChunkBudget && EndsSentence(Strip(last)) {
        assert (st.raws + [cur])[..|st.raws|] == st.raws;
        assert Concat(st.raws + [cur]) == Concat(st.raws) + cur;
      }
      assert Concat(st.raws) + cur == (Concat(st.raws) + st.current) + (last + "\n");
    }
  }

  lemma {:induction false} LinesTextOfSplit(parts: seq<string>, sep: char)
    requires |parts| >= 1 && sep == '\n'
    ensures LinesText(parts) == Join(parts, sep) + "\n"
    decreases |parts|
  {
    if |parts| > 1 {
      assert parts == [parts[0]] + parts[1..];
      LinesTextOfSplit(parts[1..], sep);
      LinesTextCons(parts[0], parts[1..]);
    } else {
      assert parts[..0] == [];
    }
  }

  lemma {:induction false} LinesTextCons(head: string, tail: seq<string>)
    ensures LinesText([head] + tail) == head + "\n" + LinesText(tail)
    decreases |tail|
  {
    if tail == [] {
      assert ([head] + tail)[..0] == [];
    } else {
      var all := [head] + tail;
      assert all[..|all| - 1] == [head] + tail[..|tail| - 1];
      LinesTextCons(head, tail[..|tail| - 1]);
    }
  }

  /** Where each part comes from: the flushed texts in order, then the remainder when it is not blank. */
  lemma LengthPartsLayout(content: string)
    ensures var parts, st := LengthParts(content), LengthFold(Split(content, '\n'));
            |parts| == |st.raws| + (if Strip(st.current) != [] then 1 else 0)
            && (forall j :: 0 <= j < |st.raws| ==> parts[j] == MakePart(j + 1, st.raws[j]))
            && (Strip(st.current) != [] ==> parts[|st.raws|] == MakePart(|st.raws| + 1, st.current))
  {
    var st := LengthFold(Split(content, '\n'));
    var ps := MakeParts(st.raws);
    if Strip(st.current) != [] {
      var last := MakePart(|st.raws| + 1, st.current);
      assert LengthParts(content) == ps + [last];
      forall j | 0 <= j < |st.raws| ensures LengthParts(content)[j] == MakePart(j + 1, st.raws[j]) {
        assert (ps + [last])[j] == ps[j];
      }
    }
  }

  /**
   * Length split: parts are titled 第1部分, 第2部分, ... in order; each part's content
   * is its stripped text and its word count the unstripped length; no part is empty.
   */
  lemma LengthPartsShape(content: string)
    ensures var parts := LengthParts(content);
            var st := LengthFold(Split(content, '\n'));
            && (forall j :: 0 <= j < |parts| ==> parts[j].title == PartTitle(j + 1) && parts[j].content != [])
            && (forall j :: 0 <= j < |st.raws| ==> parts[j] == MakePart(j + 1, st.raws[j]))
            && (|parts| == |st.raws| <==> Strip(st.current) == [])
            && (|parts| == |st.raws| + 1 ==> parts[|st.raws|] == MakePart(|st.raws| + 1, st.current))
  {
    LengthPartsLayout(content);
    LengthFoldFlushed(Split(content, '\n'));
    var st := LengthFold(Split(content, '\n'));
    PartsTitledAndFilled(st.raws, st.current, LengthParts(content));
  }

  /** Parts laid out from flushed texts and a non-blank remainder are numbered in order and not empty. */
  lemma PartsTitledAndFilled(raws: seq<string>, current: string, parts: seq<Chapter>)
    requires forall raw :: raw in raws ==> FlushedRaw(raw)
    requires |parts| == |raws| + (if Strip(current) != [] then 1 else 0)
    requires forall j :: 0 <= j < |raws| ==> parts[j] == MakePart(j + 1, raws[j])
    requires Strip(current) != [] ==> parts[|raws|] == MakePart(|raws| + 1, current)
    ensures forall j :: 0 <= j < |parts| ==> parts[j].title == PartTitle(j + 1) && parts[j].content != []
  {
    forall j | 0 <= j < |parts| ensures parts[j].title == PartTitle(j + 1) && parts[j].content != [] {
      if j < |raws| {
        assert FlushedRaw(raws[j]) by {
          assert raws[j] in raws;
        }
      }
    }
  }

  /**
   * Every part but the last reached the 5000-character budget and its content ends at
   * a sentence terminator.
   */
  lemma LengthPartsFlushed(content: string)
    ensures var parts := LengthParts(content);
            forall j :: 0 <= j < |parts| - 1 ==> parts[j].wordCount >= ChunkBudget && EndsSentence(parts[j].content)
  {
    var lines := Split(content, '\n');
    var st := LengthFold(lines);
    var parts := LengthParts(content);
    LengthFoldFlushed(lines);
    LengthPartsShape(content);
    forall j | 0 <= j < |parts| - 1
      ensures parts[j].wordCount >= ChunkBudget && EndsSentence(parts[j].content)
    {
      assert st.raws[j] in st.raws;
    }
  }

  /**
   * Nothing is lost: the texts of all parts, followed by the whitespace-only rest that
   * emits no part, make up the whole content and one final newline.
   */
  lemma LengthPartsCoverage(content: string)
    ensures var st := LengthFold(Split(content, '\n'));
            Concat(st.raws) + st.current == content + "\n"
  {
    var lines := Split(content, '\n');
    LengthFoldCoverage(lines);
    LinesTextOfSplit(lines, '\n');
    JoinSplit(content, '\n');
  }

  lemma MakePartsAppend(raws: seq<string>, raw: string)
    ensures MakeParts(raws + [raw]) == MakeParts(raws) + [MakePart(|raws| + 1, raw)]
  {
  }

  // ---------------------------------------------------------------------------
  // Imperative operations

  class TxtParser {
    var content: string
    var encoding: string

    constructor ()
      ensures content == [] && encoding == "utf-8"
    {
      content := [];
      encoding := "utf-8";
    }

    /**
     * `parse`: the encoding is stored before decoding, so a decoder failure leaves the
     * new encoding and the old content behind and returns only the error.
     */
    method Parse(detected: Option<string>, decode: string -> Result<string, string>) returns (r: ParseResult)
      modifies this
      ensures encoding == DetectEncoding(detected)
      ensures r == ParseOutcome(detected, decode)
      ensures decode(encoding).Ok? ==> content == decode(encoding).value
      ensures decode(encoding).Err? ==> content == old(content)
    {
      encoding := DetectEncoding(detected);
      var decoded := decode(encoding);
      if decoded.Err? {
        return Failed(decoded.error);
      }
      content := decoded.value;
      var chapters := SplitChapters(content);
      var metadata := ExtractMetadata(content);
      r := Parsed(metadata, chapters, |chapters|, encoding, |content|);
    }
  }

  /** The value `parse` returns. */
  function ParseOutcome(detected: Option<string>, decode: string -> Result<string, string>): ParseResult {
    var enc := DetectEncoding(detected);
    match decode(enc)
    case Err(e) => Failed(e)
    case Ok(text) =>
      var chapters := ChaptersOf(text);
      Parsed(MetadataOf(text), chapters, |chapters|, enc, |text|)
  }

  /** A successful parse counts its chapters and the decoded characters; a failure carries only the error. */
  lemma ParseOutcomeSpec(detected: Option<string>, decode: string -> Result<string, string>)
    ensures var r := ParseOutcome(detected, decode);
            var enc := DetectEncoding(detected);
            (r.Parsed? <==> decode(enc).Ok?)
            && (r.Parsed? ==> r.totalChapters == |r.chapters| && r.totalWords == |decode(enc).value|
                              && r.encoding == enc && r.chapters == ChaptersOf(decode(enc).value))
            && (r.Failed? ==> r.error == decode(enc).error)
  {
  }

  /** `_extract_metadata`: the label loop over the first twenty lines, then the first-line fallback. */
  method ExtractMetadata(content: string) returns (m: Metadata)
    ensures m == MetadataOf(content)
  {
    var lines := MetadataLines(content);
    m := DefaultMetadata;
    var i := 0;
    while i < |lines|
      invariant 0 <= i <= |lines|
      invariant m == LabelScan(lines[..i])
    {
      assert lines[..i + 1][..i] == lines[..i];
      var line := Strip(lines[i]);
      var t := SearchLabel(line, TitleLabels, 0);
      if t.Some? {
        m := m.(title := t.value);
      }
      var a := SearchLabel(line, AuthorLabels, 0);
      if a.Some? {
        m := m.(author := a.value);
      }
      i := i + 1;
    }
    assert lines[..i] == lines;
    if m.title == UnknownTitle {
      var j := 0;
      while j < |lines|
        invariant 0 <= j <= |lines|
        invariant FirstShortLine(lines) == FirstShortLine(lines[j..])
      {
        var s := Strip(lines[j]);
        if s != [] && |s| < ShortLineLimit {
          m := m.(title := s);
          break;
        }
        assert lines[j..][1..] == lines[j + 1..];
        j := j + 1;
      }
    }
  }

  /** `_split_chapters`: the heading loop, then the length fallback. */
  method SplitChapters(content: string) returns (chapters: seq<Chapter>)
    ensures chapters == ChaptersOf(content)
  {
    var lines := Split(content, '\n');
    chapters := [];
    var current := Chapter(StartTitle, "", 0);
    var i := 0;
    while i < |lines|
      invariant 0 <= i <= |lines|
      invariant SplitState(chapters, current) == SplitFold(lines[..i])
    {
      var line := lines[i];
      SplitFoldStep(lines, i);
      var stripped := Strip(line);
      if IsHeading(stripped) {
        if current.content != [] {
          current := current.(wordCount := |current.content|);
          chapters := chapters + [current];
        }
        current := Chapter(Take(stripped, TitleCap), "", 0);
      } else {
        current := current.(content := current.content + line + "\n");
      }
      i := i + 1;
    }
    assert lines[..i] == lines;
    assert Flush(SplitState(chapters, current)) == HeadingChapters(content);
    if current.content != [] {
      current := current.(wordCount := |current.content|);
      chapters := chapters + [current];
    }
    if |chapters| == 0 || (|chapters| == 1 && chapters[0].title == StartTitle) {
      chapters := SplitByLength(content);
    }
  }

  /** `_split_by_length` with the default budget of 5000 characters. */
  method SplitByLength(content: string) returns (parts: seq<Chapter>)
    ensures parts == LengthParts(content)
  {
    var lines := Split(content, '\n');
    parts := [];
    ghost var raws: seq<string> := [];
    var current := "";
    var n := 1;
    var i := 0;
    while i < |lines|
      invariant 0 <= i <= |lines|
      invariant LengthFold(lines[..i]) == LengthState(raws, current)
      invariant parts == MakeParts(raws) && n == |raws| + 1
    {
      assert lines[..i + 1][..i] == lines[..i];
      var line := lines[i];
      current := current + line + "\n";
      if |current| >= ChunkBudget && EndsSentence(Strip(line)) {
        MakePartsAppend(raws, current);
        parts := parts + [MakePart(n, current)];
        raws := raws + [current];
        current := "";
        n := n + 1;
      }
      i := i + 1;
    }
    assert lines[..i] == lines;
    if Strip(current) != [] {
      parts := parts + [MakePart(n, current)];
    }
  }
}
