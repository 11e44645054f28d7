# A verified model of an e-book reader's ingestion and record keeping

The reader imports TXT and EPUB books and splits them into chapters. It keeps one
JSON record per book on the backend, migrates old records to a per-device progress
layout, and reads text aloud through a text-to-speech engine guarded by a circuit
breaker. A front-end store holds the list of books. This project models that logic
in Dafny and proves what each part promises:

- `TxtParser` (`backend/services/txt_parser.py`) models the TXT reader:
  - encoding-name normalisation;
  - label-based title and author extraction from the first 20 lines;
  - chapter splitting on the four heading patterns, with a 100-character title cap;
  - a fallback split by length (5000-character budget) that only breaks after a
    line ending a sentence.

  `TxtParser.TxtParser` is the parser object with its `content` and `encoding`
  fields.
- `EpubArchive` abstracts what both EPUB parsers read through ebooklib and
  BeautifulSoup:
  - a book is its spine of item ids, a lookup from id to item (found, absent, or
    raising), its items, its Dublin Core lists and its table-of-contents tree;
  - an item carries the text, plain text, HTML and first h1/h2/h3/title heading
    of its full content and of its first 2000 bytes (which can end inside a
    multi-byte character).

  The module also holds the shared cover selection, the chapter-title chain and
  the table-of-contents flattening.
- `EpubLazyParser` (`backend/services/epub_lazy_parser.py`) models:
  - the memoised archive load;
  - the outline-only metadata pass;
  - the quick title;
  - the on-demand single chapter;
  - the all-chapters loop.
- `EpubParser` (`backend/services/epub_parser.py`) models the eager parser: the
  constructor that re-raises a load failure, `parse`, the chapter loop and
  `get_toc`.
- `BookStore` (`backend/app.py`, the book endpoints) models list, save, load,
  delete and metadata patch over a directory of JSON files. The directory is a map
  from id to stored file.
- `Migration` (`backend/migrate_to_device_structure.py`) models the per-record
  device transform and the counting loop.
- `TtsEngine` (`backend/services/tts_engine.py`) models:
  - the voice whitelist;
  - the EasyVoice circuit breaker (threshold 2, cooldown 60 s);
  - the audio cache;
  - the old-audio cleanup;
  - the Edge-TTS fallbacks;
  - the process-wide engine singleton.
- `BooksStore` (`src/store/books.js`) models the front-end list of books:
  - lookup by id;
  - import;
  - content fetch with merge;
  - progress update;
  - delete.
- `CoverSearch` (`backend/services/cover_search.py`) models title and author
  cleaning, the Google Books and OpenLibrary queries, and the `http://` →
  `https://` rewrite of the returned URL.
- `Text`, `Json` and `Wrappers` hold the Python and JavaScript built-ins the code
  relies on:
  - `str.strip` (over Python's `str.isspace` set), `split`, `join` and `replace`;
  - decimal formatting;
  - JSON values with Python and JavaScript truthiness;
  - `Option` and `Result`.

In these behaviours the model follows the code:

- A failed or empty encoding detection decodes as UTF-8 rather than failing.
- `parse_single_chapter` accepts a negative index and reads from the end of the
  spine, by Python indexing (`EpubLazyParser.NegativeIndexReadsFromEnd`). It does
  not answer "not found".
- The placeholder title of both parsers is `第 {n} 章` (n = index + 1).
- The lazy parser swallows a failed archive load and returns its defaults; ingestion
  failure is not an error there. The eager parser's constructor re-raises it.
- The only parsing status ever produced is `pending`.
- The cover carries no size bound.

## Model

| member | source | states |
|---|---|---|
| TxtParser.DetectEncoding | backend/services/txt_parser.py:42-53 | GB2312 becomes gbk and ISO-8859-1 becomes utf-8; any other detected name is kept; no detection or an empty name gives utf-8; the result is never empty |
| TxtParser.TxtParser.constructor | backend/services/txt_parser.py:8-10 | a new parser has empty content and encoding utf-8 |
| TxtParser.TxtParser.Parse | backend/services/txt_parser.py:12-40 | sets `encoding` to the normalised name; on a successful decode stores the text in `content`, otherwise leaves it; returns the parse outcome |
| TxtParser.ParseOutcomeSpec | backend/services/txt_parser.py:27-40 | success exactly when decoding succeeds; then the chapter count equals the number of chapters, the word total is the decoded length and the chapters are the split of the text; otherwise the decoder's error is returned |
| TxtParser.ExtractMetadata | backend/services/txt_parser.py:55-86 | the loop over the first 20 lines computes the metadata function |
| TxtParser.LabelAt | backend/services/txt_parser.py:70-75 | a label is found at a position exactly when one of the label words occurs there followed by a full-width or ASCII colon and at least one more character; the first listed alternative wins |
| TxtParser.LastTitleLabelWins | backend/services/txt_parser.py:66-72 | the title comes from the last line carrying a title label |
| TxtParser.LastAuthorLabelWins | backend/services/txt_parser.py:66-77 | the author comes from the last line carrying an author label |
| TxtParser.LabelScanDefaults | backend/services/txt_parser.py:59-63 | language is always zh; without a title label the title stays 未知书名, without an author label the author stays 未知作者 |
| TxtParser.FirstShortLineSpec | backend/services/txt_parser.py:80-84 | a short line is found exactly when some stripped line is non-empty and under 50 characters; it is the first such line |
| TxtParser.FirstShortLineAt | backend/services/txt_parser.py:80-84 | the fallback title is the stripped text of a short line with no short line before it |
| TxtParser.MetadataOfSpec | backend/services/txt_parser.py:57-86 | exactly the first min(20, n) lines are read; a title label wins; when the labels leave 未知书名 the title is the first short line of that window, else 未知书名; the author is the label scan's and the language zh |
| TxtParser.CountWhile | backend/services/txt_parser.py:92-95 | the counted prefix satisfies the predicate and the next character does not |
| TxtParser.SplitChapters | backend/services/txt_parser.py:88-139 | the heading loop, with its fallback, computes the chapter function |
| TxtParser.SplitFoldWellFormed | backend/services/txt_parser.py:110-133 | every emitted chapter has non-empty content, a word count equal to its length and a title of at most 100 characters |
| TxtParser.SplitFoldCoverage | backend/services/txt_parser.py:110-128 | the chapter contents concatenate to exactly the non-heading lines, in order, each followed by a newline |
| TxtParser.HeadingChaptersSpec | backend/services/txt_parser.py:91-133 | over a whole text: every chapter is well formed; heading lines appear in no content while every other line appears once, in order; the chapters are the sections with content, titled 开始 and then each heading's first 100 stripped characters, in line order |
| TxtParser.SectionTitles | backend/services/txt_parser.py:103-124 | the section titles are 开始 followed by each heading line's first 100 stripped characters, in order |
| TxtParser.SplitFoldSections | backend/services/txt_parser.py:103-128 | the heading loop has emitted the earlier sections that have content and is filling the latest one |
| TxtParser.HeadingChaptersAreSections | backend/services/txt_parser.py:103-133 | the heading split yields exactly the sections with content, in order |
| TxtParser.NoHeadingMeansFallback | backend/services/txt_parser.py:136-137 | a text without any heading line falls back to the length split |
| TxtParser.NoHeadingFold | backend/services/txt_parser.py:103-128 | without headings nothing is emitted and the open chapter is still titled 开始 |
| TxtParser.ChaptersOfSpec | backend/services/txt_parser.py:136-139 | unless the heading split found no chapter or only the untitled 开始 one, it is kept, every chapter is well formed and together they cover all body lines; otherwise the length split is used; no chapter is ever empty |
| TxtParser.SplitByLength | backend/services/txt_parser.py:141-169 | the length loop computes the length-split function |
| TxtParser.MakeParts | backend/services/txt_parser.py:153-157 | the j-th flushed text becomes part j+1, titled 第{j+1}部分 |
| TxtParser.FlushedEndsSentence | backend/services/txt_parser.py:152 | appending a sentence-ending line keeps the accumulated text's stripped form sentence-ending |
| TxtParser.LengthFoldFlushed | backend/services/txt_parser.py:148-159 | every flushed text holds at least 5000 characters and ends, once stripped, with 。！？.!? |
| TxtParser.LengthFoldCoverage | backend/services/txt_parser.py:144-149 | flushed texts plus the remainder are exactly the lines, each followed by a newline |
| TxtParser.LengthPartsLayout | backend/services/txt_parser.py:153-167 | the parts are the flushed texts in order, numbered from 1, then the remainder when it is not blank |
| TxtParser.LengthPartsShape | backend/services/txt_parser.py:141-169 | parts are titled consecutively from 第1部分, have stripped non-empty content, and a whitespace-only remainder emits no part |
| TxtParser.LengthPartsFlushed | backend/services/txt_parser.py:152-157 | every part but the last has an unstripped length of at least 5000 and ends a sentence |
| TxtParser.LengthPartsCoverage | backend/services/txt_parser.py:144-149 | the accumulated texts add up to the whole text plus one newline |
| EpubArchive.FirstWhere | backend/services/epub_parser.py:59-69 | the position found is the first item satisfying the test; none is found only when no item does |
| EpubArchive.SelectCoverSpec | backend/services/epub_parser.py:58-74 | the first cover item wins, else the first image whose lower-cased name contains cover, else none; a cover always starts with data:image/jpeg;base64, |
| EpubArchive.ChapterTitleSpec | backend/services/epub_parser.py:113-126 | the first h1, else h2, else h3 at any length; else the first line when non-empty and under 50 characters; else the fallback (章节 eager, the placeholder lazy) |
| EpubArchive.FlattenNodeComplete | backend/services/epub_parser.py:138-153 | a table of contents without broken nodes flattens without error to exactly one entry per node |
| EpubArchive.FlattenListComplete | backend/services/epub_parser.py:155-157 | the same for a list of top-level nodes |
| EpubArchive.FlattenNodeLevels | backend/services/epub_parser.py:139-153 | a node's entries are at its level or deeper, and a section or link is emitted first, at its own level, before its children |
| EpubArchive.FlattenListLevels | backend/services/epub_parser.py:146-157 | every entry of a list flattened at level L is at level L or deeper |
| EpubArchive.FlattenListAppend | backend/services/epub_parser.py:156-157 | flattening a concatenation is flattening the first part, then, if it did not fail, the second |
| EpubArchive.FlattenStopsAtBroken | backend/services/epub_parser.py:155-159 | when traversal raises, the entries collected before the failure are returned |
| EpubLazyParser.EpubLazyParser.constructor | backend/services/epub_lazy_parser.py:15-17 | a new parser keeps its path and has no loaded book |
| EpubLazyParser.EpubLazyParser.LoadBook | backend/services/epub_lazy_parser.py:19-24 | the archive is loaded at most once: a cached book is returned unchanged, and a successful first load is cached |
| EpubLazyParser.FirstShortHeading | backend/services/epub_lazy_parser.py:85-90 | the chosen heading is that of the first listed tag whose heading is non-empty and under 50 characters; none is chosen exactly when no tag qualifies |
| EpubLazyParser.QuickTitle | backend/services/epub_lazy_parser.py:78-98 | the quick title is never empty, is the placeholder or shorter than 50 characters, and is the placeholder when the head cannot be read |
| EpubLazyParser.EntriesStayFailed | backend/services/epub_lazy_parser.py:40-73 | once a lookup raises inside the loop, the outline stays failed |
| EpubLazyParser.EntriesFailIff | backend/services/epub_lazy_parser.py:55-73 | the outline loop fails exactly when some spine lookup raises |
| EpubLazyParser.EntriesStep | backend/services/epub_lazy_parser.py:55-68 | each spine position appends its entry, or nothing when its item is missing |
| EpubLazyParser.EntriesMatchSpine | backend/services/epub_lazy_parser.py:55-68 | every outline entry is the entry of its own spine position |
| EpubLazyParser.EntryAtShape | backend/services/epub_lazy_parser.py:59-68 | an entry has its spine position as index, no content, zero words, its item id and the quick title |
| EpubLazyParser.EntriesOrdered | backend/services/epub_lazy_parser.py:55-68 | entry indices increase strictly (gaps where items are missing) |
| EpubLazyParser.EntriesComplete | backend/services/epub_lazy_parser.py:55-68 | every spine position with a found item has an entry |
| EpubLazyParser.MetadataOnlySpec | backend/services/epub_lazy_parser.py:26-76 | status is always pending and the count is the outline's length; a failed load gives every default; a raising lookup leaves no outline; entries have no content, zero words, their spine position and strictly increasing indices |
| EpubLazyParser.EpubLazyParser.ParseMetadataOnly | backend/services/epub_lazy_parser.py:26-76 | the outline pass computes the metadata function over the memoised book |
| EpubLazyParser.EpubLazyParser.Outline | backend/services/epub_lazy_parser.py:54-70 | the spine loop yields exactly the outline entries of every position, or nothing once a lookup raises |
| EpubLazyParser.SingleChapterSpec | backend/services/epub_lazy_parser.py:100-138 | a result exists exactly when the index is within Python's range of the spine and its item is found and readable; it has that index and no item id; text under 10 characters gives empty content, zero words and the placeholder title; otherwise the content is the text, the word count its length and the title the heading chain with the placeholder |
| EpubLazyParser.NegativeIndexReadsFromEnd | backend/services/epub_lazy_parser.py:106-110 | a negative index is not rejected and reads the chapter counted from the end |
| EpubLazyParser.EpubLazyParser.ParseSingleChapter | backend/services/epub_lazy_parser.py:100-138 | gives nothing when the book cannot be loaded, otherwise the single-chapter function |
| EpubLazyParser.AllChaptersMatch | backend/services/epub_lazy_parser.py:174-184 | every collected chapter equals the single-chapter result at its index, and there are at most as many as spine entries |
| EpubLazyParser.AllChaptersOrdered | backend/services/epub_lazy_parser.py:180-183 | collected chapters are in spine order |
| EpubLazyParser.AllChaptersStep | backend/services/epub_lazy_parser.py:180-183 | each index appends its chapter, or nothing when the chapter is absent |
| EpubLazyParser.AllChaptersComplete | backend/services/epub_lazy_parser.py:180-183 | no chapter is dropped except the absent ones |
| EpubLazyParser.EpubLazyParser.ParseAllChapters | backend/services/epub_lazy_parser.py:174-184 | a load failure propagates; otherwise the loop computes the all-chapters function |
| EpubParser.Open | backend/services/epub_parser.py:10-16 | a load failure is re-raised and no parser exists; otherwise a fresh parser holds the loaded book |
| EpubParser.EpubParser.constructor | backend/services/epub_parser.py:10-13 | the parser holds its path and book |
| EpubParser.ParseBookSpec | backend/services/epub_parser.py:18-53 | title and author default to Unknown and publisher to empty; the count is the number of chapters; every chapter has at least 10 characters of text and a word count equal to its length |
| EpubParser.EpubParser.Parse | backend/services/epub_parser.py:18-53 | `parse` computes the metadata function |
| EpubParser.EagerChapterAtSpec | backend/services/epub_parser.py:81-105 | a spine position gives a chapter exactly when its item is found and readable with stripped text of at least 10 characters; the chapter keeps text, HTML, length and the title chain with 章节 |
| EpubParser.EagerChaptersAlign | backend/services/epub_parser.py:81-111 | the k-th chapter is the chapter of the k-th kept spine position |
| EpubParser.KeptPositionsSpec | backend/services/epub_parser.py:81-109 | kept positions are in spine order and are exactly those whose item yields a chapter; missing, short and raising items are skipped |
| EpubParser.EpubParser.ExtractChapters | backend/services/epub_parser.py:76-111 | the spine loop computes the chapter list |
| EpubParser.AgreesWithLazyParser | backend/services/epub_parser.py:88-104 | the eager parser keeps a spine position exactly when the lazy parser gives it non-empty content, with the same text and word count |
| EpubParser.FlattenPrefixStep | backend/services/epub_parser.py:156-157 | flattening one more top-level item appends that item's entries |
| EpubParser.FailedPrefixIsFinal | backend/services/epub_parser.py:155-159 | after a failure no later item adds entries |
| EpubParser.ParseTocItem | backend/services/epub_parser.py:138-153 | the recursive helper appends the pre-order flattening of its node to what was collected |
| EpubParser.EpubParser.GetToc | backend/services/epub_parser.py:134-161 | `get_toc` returns the pre-order flattening, top level at 0, up to any failure |
| BookStore.SaveThenLoad | backend/app.py:130-162 | after a save with a truthy id the answer is success, loading that id returns exactly the saved record, and every other id loads as before |
| BookStore.SaveWithoutIdWritesNothing | backend/app.py:136-148 | a body without a truthy id writes nothing and answers 500 (the 400 is caught by the generic handler) |
| BookStore.SaveWritesOneFile | backend/app.py:130-148 | a save either succeeds and adds or replaces exactly one file, or fails with 500 and changes nothing |
| BookStore.BookStore.constructor | backend/app.py:103-104 | the store starts over the files the books directory already holds, readable or not |
| BookStore.BookStore.SaveBook | backend/app.py:130-148 | the new directory and the answer are those of the save function |
| BookStore.BookStore.LoadBook | backend/app.py:150-167 | an absent id answers 404; a readable file answers exactly its record |
| BookStore.DeleteIdempotent | backend/app.py:169-181 | deleting twice equals deleting once, the id is then absent, other records are unchanged and the answer is success |
| BookStore.BookStore.DeleteBook | backend/app.py:169-181 | the new directory and the answer are those of the delete function |
| BookStore.PatchKeepsChapters | backend/app.py:183-205 | an object body never changes `chapters`, overwrites or adds every other update key, keeps every key not updated, and leaves every other file as it was |
| BookStore.ApplyPairsOver | backend/app.py:202 | `update` with a list of pairs over a larger record lays the pairs' own result over it, and fails in the same cases |
| BookStore.PairListOverwritesChapters | backend/app.py:197-202 | a body `[["chapters", v]]` passes the guard and replaces the stored chapters with v |
| BookStore.PatchIntendedKeepsChapters | backend/app.py:183-208 | the intended patch succeeds exactly when the record is readable and the body reads as a dict; it never changes `chapters`, sets every other update key, keeps the rest, and leaves every other file as it was |
| BookStore.PatchAgreesWhenGuardHolds | backend/app.py:197-202 | on an object body, and on a list whose pairs do not name `chapters`, the patch is the intended one |
| BookStore.NamedElementRaises | backend/app.py:197-202 | a list holding the bare string chapters cannot be read as pairs |
| BookStore.PatchMissingWritesNothing | backend/app.py:189-208 | patching an absent or unreadable record writes nothing and answers 500 |
| BookStore.BookStore.UpdateBookMetadata | backend/app.py:183-208 | the new directory and the answer are those of the patch function, over object, pair-list and string bodies |
| BookStore.StrLeTotal | backend/app.py:124 | Python's string order is total |
| BookStore.StrLeTrans | backend/app.py:124 | Python's string order is transitive |
| BookStore.InsertPermutes | backend/app.py:124 | inserting keeps exactly the same records |
| BookStore.HeadIsMax | backend/app.py:124 | the first record of a descending list has the greatest key |
| BookStore.PrependSorted | backend/app.py:124 | a record with a key at least every other key may go first |
| BookStore.InsertSorted | backend/app.py:124 | insertion keeps a list sorted descending |
| BookStore.SortDescSpec | backend/app.py:124 | the sort returns a descending permutation of its input |
| BookStore.CollectSpec | backend/app.py:111-121 | no collected record has `chapters`; every readable file contributes its record without `chapters`; unreadable files are skipped |
| BookStore.CollectKeys | backend/app.py:117-124 | removing `chapters` keeps each record's sort key, so every collected key is a string exactly when every readable file's is |
| BookStore.CollectCount | backend/app.py:112-121 | a listing naming each file once collects one record per readable file |
| BookStore.ListCoversDirectory | backend/app.py:106-128 | over the whole directory, each file once, the listing succeeds exactly when every readable file's sort key is a string, and then holds every readable record without `chapters`, one per readable file |
| BookStore.ListSpec | backend/app.py:106-128 | the listing is sorted descending by lastReadAt, else createdAt, else empty, holds exactly the collected records without `chapters`; it is given exactly when every readable file's sort key is a string, and otherwise the answer is 500 |
| BookStore.BookStore.ListBooks | backend/app.py:106-128 | over the whole directory, each file once, answers the listing function: a listing exactly when every readable file's sort key is a string, holding every readable record without `chapters`, one per readable file; otherwise 500 |
| Migration.MigratedSpec | backend/migrate_to_device_structure.py:41-56 | a migrated record has no top-level progress fields, gains one default device named 默认设备 holding them (0/0/0 by default, lastReadAt from createdAt), and keeps every other key |
| Migration.MigrateIdempotent | backend/migrate_to_device_structure.py:37-51 | migrating twice equals migrating once, and a migrated record needs no migration |
| Migration.MigrateRecord | backend/migrate_to_device_structure.py:36-56 | returns the migrated record and reports a rewrite exactly when `devices` was missing |
| Migration.CountZero | backend/migrate_to_device_structure.py:37-63 | files that need no rewrite add nothing to the count |
| Migration.SecondRunRewritesNothing | backend/migrate_to_device_structure.py:16-66 | a second run rewrites no file and leaves the directory as the first run left it |
| Migration.RewritesIffChanged | backend/migrate_to_device_structure.py:37-63 | a file is counted exactly when its content changes |
| Migration.CountIsChangedFiles | backend/migrate_to_device_structure.py:30-66 | the count is the number of distinct files whose content the run changed |
| Migration.CountIsRewrittenFiles | backend/migrate_to_device_structure.py:30-66 | the count is the number of distinct files that need a rewrite |
| Migration.MigrateWholeDirectory | backend/migrate_to_device_structure.py:30-66 | over the whole directory, each file once, every file is migrated and the count is the number of files whose content changes |
| Migration.MigrateListed | backend/migrate_to_device_structure.py:30-63 | the loop computes the migrated directory and the rewrite count of the listing |
| Migration.MigrateBooks | backend/migrate_to_device_structure.py:16-66 | without the data directory nothing changes and nothing is counted; otherwise every file of the directory is migrated and the count is the number of files whose content changes |
| TtsEngine.ResolveVoice | backend/services/tts_engine.py:112 | the resolved voice is always in the whitelist: the requested one when listed, else zh-CN-XiaoxiaoNeural |
| TtsEngine.ResolveVoiceIdempotent | backend/services/tts_engine.py:19-45 | resolving twice changes nothing; the whitelist has 14 distinct voices with the default first |
| TtsEngine.StepKeepsConsistent | backend/services/tts_engine.py:206-258 | the breaker starts closed with no failures, and after every call it is open exactly when the count has reached 2 |
| TtsEngine.OpenBreakerSkips | backend/services/tts_engine.py:206-214 | within 60 s of opening, EasyVoice is not tried and the breaker is unchanged |
| TtsEngine.AttemptOutcomes | backend/services/tts_engine.py:211-256 | after the cooldown the breaker closes and resets to 0; success clears the count; any other failure adds one and opens the breaker at 2, stamped with the failure time |
| TtsEngine.TwoFailuresOpen | backend/services/tts_engine.py:249-256 | from the start, one failure leaves the breaker closed at 1 and a second opens it |
| TtsEngine.CacheHit | backend/services/tts_engine.py:167-169 | an existing output file is returned without any request |
| TtsEngine.EasyVoiceCallSpec | backend/services/tts_engine.py:141-198 | a success names the output file, which then exists; a failure writes nothing; a fresh file holds non-empty audio stamped now; no other file changes |
| TtsEngine.ExpiredAmongStep | backend/services/tts_engine.py:73-83 | each loop step adds the current file exactly when it is older than the limit and its deletion works |
| TtsEngine.ExpiredAmongAll | backend/services/tts_engine.py:64-83 | the loop selects exactly the .mp3 files older than max_age_hours*3600 whose deletion works |
| TtsEngine.TtsEngine.constructor | backend/services/tts_engine.py:17-62 | a new engine has removed the files older than 24 hours and starts with a closed breaker |
| TtsEngine.TtsEngine.CleanupOldAudioFiles | backend/services/tts_engine.py:64-88 | deletes exactly the expired files, returns their number and leaves the breaker alone |
| TtsEngine.TtsEngine.EasyVoice | backend/services/tts_engine.py:141-198 | computes the EasyVoice call on the resolved voice's file name and leaves the breaker alone |
| TtsEngine.TtsEngine.Synthesize | backend/services/tts_engine.py:101-139 | EasyVoice first; on failure a cached Edge-TTS file, else a newly written one, else the Edge-TTS error |
| TtsEngine.StreamFollowsBreaker | backend/services/tts_engine.py:200-294 | the breaker moves by exactly one step; audio comes from EasyVoice exactly when the breaker lets it try and it succeeds; a skipped attempt goes straight to Edge-TTS and writes nothing |
| TtsEngine.TtsEngine.CheckBreaker | backend/services/tts_engine.py:206-214 | an open breaker within its 60 s cooldown skips EasyVoice; past it the breaker closes with the count at 0; a closed breaker lets the attempt through unchanged |
| TtsEngine.TtsEngine.RecordFailure | backend/services/tts_engine.py:248-258 | a failure other than the breaker's own adds one to the count and opens the breaker, stamped with the failure time, once the count reaches 2 |
| TtsEngine.TtsEngine.StreamSynthesize | backend/services/tts_engine.py:200-294 | the new breaker, directory and result are those of the streaming function |
| TtsEngine.TtsRegistry.constructor | backend/services/tts_engine.py:297 | no engine exists at start |
| TtsEngine.TtsRegistry.GetTtsEngine | backend/services/tts_engine.py:299-304 | the first call creates the engine and later calls return that same one |
| TtsEngine.GetTwice | backend/services/tts_engine.py:299-304 | two calls return the same engine |
| BooksStore.FindIndex | src/store/books.js:109 | the index found is the first book with that id; -1 exactly when none has it |
| BooksStore.FindIndexAfterUpdate | src/store/books.js:109-112 | replacing the found book by one with the same id keeps its index |
| BooksStore.FindIndexAfterAppend | src/store/books.js:113-114 | a book appended when absent is found at the end |
| BooksStore.BooksStore.constructor | src/store/books.js:7-11 | the store starts with no books and not loading |
| BooksStore.BooksStore.GetBookById | src/store/books.js:15 | returns a listed book with that id; nothing exactly when none has it |
| BooksStore.BooksStore.LoadBooks | src/store/books.js:20-27 | a successful response replaces the list; a failure keeps it |
| BooksStore.ImportOutcomeSpec | src/store/books.js:30-93 | a non-File input yields nothing; a book is produced exactly for an epub or txt file whose parse and save both succeed; another extension fails naming it |
| BooksStore.ImportedBookSpec | src/store/books.js:63-77 | a new book has the timestamp id, file path, format, zero progress, page and chapter, and both dates now |
| BooksStore.NewBookDefaults | src/store/books.js:65-71 | title falls back to the file name, author to 未知作者, chapters to empty, and the page total to total_chapters, else the chapter count, else 0 |
| BooksStore.TxtImportIgnoresParsedMetadata | src/store/books.js:65-66 | a TXT import always takes the file name as title and 未知作者 as author, since the TXT parser nests them under `metadata` |
| BooksStore.TxtResponseBook | backend/services/txt_parser.py:27-34 | from any TXT parser response the book's page total is its chapter count, or 0 on failure |
| BooksStore.EpubResponseFields | backend/app.py:53-69 | the EPUB parse response carries the parser's title, author, chapter list and chapter count |
| BooksStore.EpubResponseBook | src/store/books.js:63-71 | a book made from an EPUB response takes its title (else the file name), its author (else 未知作者) and its chapter count as page total |
| BooksStore.EpubImportUsesDublinCore | src/store/books.js:63-71 | an EPUB import takes the Dublin Core title and creator (Unknown when absent), and the page total is the eager chapter count |
| BooksStore.BooksStore.ImportBook | src/store/books.js:30-93 | returns the import outcome, always ends not loading, and prepends the new book only when it was saved |
| BooksStore.FetchedSpec | src/store/books.js:109-115 | the remote record is merged over the local book at its index, or appended when absent; other books are unchanged |
| BooksStore.BooksStore.FetchBookContent | src/store/books.js:96-123 | a local book with chapters is returned unchanged; otherwise a failure propagates and the remote record is merged in; loading ends false |
| BooksStore.WithProgressSpec | src/store/books.js:129-132 | a progress update sets page, chapter, progress and lastReadAt and keeps every other field |
| BooksStore.ProgressedSpec | src/store/books.js:126-132 | an unknown id changes nothing; a known one updates only that book |
| BooksStore.BooksStore.UpdateProgress | src/store/books.js:126-146 | updates the list as the progress function, and sends the four fields exactly when the book is known |
| BooksStore.WithoutId | src/store/books.js:151 | no remaining book has the id, and every remaining one was in the list |
| BooksStore.WithoutIdAppend | src/store/books.js:151 | filtering distributes over concatenation, so the relative order is kept |
| BooksStore.WithoutIdKeeps | src/store/books.js:151 | every book with another id is kept, and a list without the id is unchanged |
| BooksStore.BooksStore.DeleteBook | src/store/books.js:148-156 | after a successful server delete the books with that id are gone; on failure the list is unchanged |
| CoverSearch.CleanTitleSpec | backend/services/cover_search.py:17 | the cleaned title is the stripped text before the first `(` of the title with `.epub` then `.txt` removed (the title itself when it holds neither); it contains no `(` and is stripped |
| Text.SplitFirstIsPrefix | backend/services/cover_search.py:17 | the first piece of a split is the prefix before the first separator |
| CoverSearch.CleanAuthorSpec | backend/services/cover_search.py:18 | an empty author cleans to empty; an author without Unknown cleans to its stripped self; the result is stripped |
| CoverSearch.ExtensionRemovalIsSinglePass | backend/services/cover_search.py:17 | `.epub` removal is a single left-to-right pass, so removing it can form a new `.epub` |
| CoverSearch.QueriesNameAuthorIff | backend/services/cover_search.py:25-48 | both queries start with the title and carry the author part exactly when the cleaned author is non-empty |
| CoverSearch.RewriteLeavesNoHttp | backend/services/cover_search.py:37-40 | after the rewrite no `http://` remains in the URL |
| CoverSearch.SearchSpec | backend/services/cover_search.py:8-62 | an empty title makes no request and gives no cover; otherwise Google is asked first and wins with an https-only URL; without its cover OpenLibrary is asked and its cover URL has the covers.openlibrary.org form |
| CoverSearch.SearchCoverOnline | backend/services/cover_search.py:8-62 | the requests and the result are those of the search function |

## Left out

- Network and HTTP: FastAPI routing, axios, aiohttp, EasyVoice and Edge-TTS calls. Their answers are inputs to the model (a decoder, a lookup outcome, a reply, an error option).
- File system: JSON reading and writing, glob order, mkdir and unlink. The book directory and the audio directory are maps; glob order is an input sequence.
- The migration's backup copy (`copytree`) and logging are left out.
- Foreign libraries are inputs or abstract values:
  - chardet's guess and the byte decoder are inputs to `TxtParser.TxtParser.Parse`;
  - ebooklib and BeautifulSoup are abstracted as the `EpubArchive.Book` value;
  - md5 file naming is a `hash` function parameter;
  - base64 is opaque text on each item.
- Time: `time.time()`, `Date.now()` and `toISOString()` are parameters (a real number of seconds, an integer stamp, a string).
- BooksStore.BaseBook: `createdAt` and `lastReadAt` come from one time parameter, while the import reads the clock twice, so the two stamps can differ by a millisecond there.
- TxtParser.IsOrdinalChapter, TxtParser.IsEnglishChapter, TxtParser.IsNumberedHeading: the digit class `\d` is the ASCII digits 0-9. Python's `\d` matches every Unicode decimal digit, so a line such as `第１２章 …` with full-width digits is a heading for the program but not for the model.
- Asynchronous streaming: `stream_synthesize` is modelled as one call that returns its whole audio. Edge-TTS chunk assembly is an input value.
- get_available_voices and download_image are left out. They only reshape a constant table or fetch bytes.
- Floating point: the progress percentage `page / totalPages * 100` is passed in as a value, and the MB figure in the cleanup log is omitted.
- BookStore.List: any non-string sort key makes the listing answer 500. Python fails only when keys of different types are compared, so a single record or all-integer keys would still list.
- BookStore.Save: array, object and float ids answer 500 instead of being written under their Python text form.
- BookStore.IdKey: an id holding `/`, `..` or NUL is stored as a plain key. In the program `/` names a subdirectory (a missing one makes the write fail with 500), `../x` writes outside the books directory and NUL raises (500).
- BookStore.PairOf: a pair-list element that is an object with two keys is answered with 500. Python would take its two keys as key and value, in an insertion order the model's maps do not keep.
- BookStore.DumpedKey: pairs whose keys differ in Python but dump to the same text (`1` and `"1"`, `1` and `true`) are merged by their dumped text, the later pair winning; Python keeps both entries or the first key, so the key JSON loading finally keeps can differ.
- BookStore.SortDescSpec: states a descending permutation, not the stability of Python's sort among equal keys.
- BookStore: a stored JSON file that holds an array rather than an object is not modelled; a stored file is an object record or unreadable.
- BooksStore.Extension: lower-cases ASCII letters only. JavaScript's `toLowerCase` lower-cases every Unicode letter, so an unsupported extension with non-ASCII capitals is named differently in the error. No non-ASCII character lower-cases to a letter of `epub` or `txt`, so which files are accepted is the same.
- EpubArchive.SelectCover: an exception while reading a cover item is not modelled; cover selection never fails.
- EpubLazyParser.QuickTitle: its contract bounds the title (never empty; the placeholder or under 50 characters) rather than restating the selection chain. `EpubLazyParser.FirstShortHeading` states which heading is chosen: the first qualifying tag's.
- Features that no modelled file implements are absent:
  - progressive background filling of chapters;
  - writing materialised chapters back into the record;
  - lazy or completed parsing statuses;
  - a cover size bound.

## Findings

| source | as written | input that shows it | evidently intended | confidence | as-written member | corrected member |
|---|---|---|---|---|---|---|
| backend/app.py:197-202 | the guard `"chapters" in updates` is a membership test when the body is a list, so a list of pairs naming `chapters` reaches `data.update` | PATCH body `[["chapters", []]]` on a stored book | the metadata patch never overwrites the chapters, whatever the body's form | not executed | BookStore.PairListOverwritesChapters | BookStore.PatchIntendedKeepsChapters |
