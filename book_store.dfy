/**
 * The backend's book record store: one JSON file per book id under the books
 * directory, seen here as a map from file-name stem to file content. The
 * endpoints save a whole record, load it, delete it, merge metadata into it
 * without touching its chapters, and list every record without chapters,
 * newest first.
 */
module BookStore {
  import opened Wrappers
  import opened Text
  import opened Json

  /** A stored file: a JSON object, or content that does not load. */
  datatype StoredFile = Readable(record: Record) | Unreadable

  type Files = map<string, StoredFile>

  datatype Response =
    | Success(message: string)
    | Body(record: Record)
    | Listing(books: seq<Record>)
    | HttpError(status: nat)

  datatype Outcome = Outcome(files: Files, response: Response)

  const NotFound: nat := 404
  const ServerError: nat := 500
  const ChaptersKey: string := "chapters"

  /**
   * The file-name stem `f"{book_id}"` for the id kinds modelled: a string as is,
   * an integer in decimal, `true` as Python prints it.
   */
  function IdKey(id: Json): Option<string> {
    match id
    case JStr(s) => Some(s)
    case JNum(n) => Some(IntToString(n))
    case JBool(b) => if b then Some("True") else None
    case _ => None
  }

  // ---------------------------------------------------------------------------
  // save / load / delete / patch

  /**
   * `save_book`: the body must be an object with a truthy id; the record then
   * replaces whatever the id's file held. A missing or falsy id raises 400 inside
   * the handler's try, which the generic handler answers with 500.
   */
  function Save(files: Files, body: Json): Outcome {
    match body
    case JObj(data) =>
      var id := Get(data, "id");
      if id.None? || !PyTruthy(id.value) then Outcome(files, HttpError(ServerError))
      else
        (match IdKey(id.value)
         case None => Outcome(files, HttpError(ServerError))
         case Some(key) => Outcome(files[key := Readable(data)], Success("Book saved")))
    case _ => Outcome(files, HttpError(ServerError))
  }

  /** `load_book`: 404 for an absent file (re-raised as is), 500 for one that does not load. */
  function Load(files: Files, bookId: string): Response {
    if bookId !in files then HttpError(NotFound)
    else match files[bookId]
      case Readable(r) => Body(r)
      case Unreadable => HttpError(ServerError)
  }

  /** `delete_book`: removes the file if there is one; succeeds either way. */
  function Delete(files: Files, bookId: string): Outcome {
    Outcome(files - {bookId}, Success("Book deleted"))
  }

  /** The record after `data.update(updates)` with `chapters` dropped from the updates. */
  function Merge(data: Record, updates: Record): Record {
    data + (updates - {ChaptersKey})
  }

  /**
   * The text `json.dump` writes for a dict key: a string as is, an integer in
   * decimal, true/false/null as JSON spells them; lists and objects are not
   * hashable and cannot be keys.
   */
  function DumpedKey(k: Json): Option<string> {
    match k
    case JStr(s) => Some(s)
    case JNum(n) => Some(IntToString(n))
    case JBool(b) => Some(if b then "true" else "false")
    case JNull => Some("null")
    case _ => None
  }

  /**
   * One element of a sequence given to `dict.update`: a two-element list is a
   * key and its value, a two-character string is a one-character key and value;
   * any other element raises.
   */
  function PairOf(e: Json): Option<(string, Json)> {
    match e
    case JArr(xs) =>
      if |xs| != 2 then None
      else (match DumpedKey(xs[0])
            case Some(k) => Some((k, xs[1]))
            case None => None)
    case JStr(t) => if |t| == 2 then Some(([t[0]], JStr([t[1]]))) else None
    case _ => None
  }

  /** `data.update(xs)` for a list body: the pairs in order, a later one overriding; None if one raises. */
  function ApplyPairs(data: Record, xs: seq<Json>): Option<Record>
    decreases |xs|
  {
    if xs == [] then Some(data)
    else match PairOf(xs[0])
      case None => None
      case Some(p) => ApplyPairs(data[p.0 := p.1], xs[1..])
  }

  /**
   * `update_book_metadata` as written: an absent file raises 404 inside the try,
   * which becomes 500. The guard `"chapters" in updates` is a key test on an
   * object, whose `chapters` is then deleted; on a list it is a membership test
   * and on a string a substring test, after which `del` raises. A list without
   * the string "chapters" goes to `dict.update` as a sequence of pairs, and the
   * empty string updates nothing; any other body makes `update` raise.
   */
  function Patch(files: Files, bookId: string, updates: Json): Outcome {
    if bookId !in files || files[bookId].Unreadable? then Outcome(files, HttpError(ServerError))
    else
      var data := files[bookId].record;
      match updates
      case JObj(u) => Outcome(files[bookId := Readable(Merge(data, u))], Success("Metadata updated"))
      case JArr(xs) =>
        if JStr(ChaptersKey) in xs then Outcome(files, HttpError(ServerError))
        else (match ApplyPairs(data, xs)
              case None => Outcome(files, HttpError(ServerError))
              case Some(d) => Outcome(files[bookId := Readable(d)], Success("Metadata updated")))
      case JStr(t) =>
        if t == [] then Outcome(files[bookId := Readable(data)], Success("Metadata updated"))
        else Outcome(files, HttpError(ServerError))
      case _ => Outcome(files, HttpError(ServerError))
  }

  /** The updates a body stands for once read as a dict, as `dict(updates)` would read it. */
  function UpdatesOf(updates: Json): Option<Record> {
    match updates
    case JObj(u) => Some(u)
    case JArr(xs) => ApplyPairs(map[], xs)
    case JStr(t) => if t == [] then Some(map[]) else None
    case _ => None
  }

  /**
   * The patch the guard is evidently meant to give: whatever form the body takes,
   * it is read as a dict and its `chapters` entry is dropped before the merge.
   */
  function PatchIntended(files: Files, bookId: string, updates: Json): Outcome {
    if bookId !in files || files[bookId].Unreadable? then Outcome(files, HttpError(ServerError))
    else match UpdatesOf(updates)
      case None => Outcome(files, HttpError(ServerError))
      case Some(u) => Outcome(files[bookId := Readable(Merge(files[bookId].record, u))], Success("Metadata updated"))
  }

  /** Applying pairs on top of a record is laying their own result over it. */
  lemma {:induction false} ApplyPairsOver(d: Record, a: Record, xs: seq<Json>)
    decreases |xs|
    ensures ApplyPairs(d + a, xs) == match ApplyPairs(a, xs)
                                     case None => None
                                     case Some(r) => Some(d + r)
  {
    if xs != [] && PairOf(xs[0]).Some? {
      var p := PairOf(xs[0]).value;
      assert (d + a)[p.0 := p.1] == d + a[p.0 := p.1];
      ApplyPairsOver(d, a[p.0 := p.1], xs[1..]);
    }
  }

  /**
   * The as-written patch lets a list of pairs through the guard: a body
   * `[["chapters", v]]` replaces the stored chapters with v.
   */
  lemma PairListOverwritesChapters(files: Files, bookId: string, v: Json)
    requires bookId in files && files[bookId].Readable?
    ensures var o := Patch(files, bookId, JArr([JArr([JStr(ChaptersKey), v])]));
            o.response == Success("Metadata updated") && o.files[bookId] == Readable(files[bookId].record[ChaptersKey := v])
  {
    var xs := [JArr([JStr(ChaptersKey), v])];
    assert JStr(ChaptersKey) !in xs;
    assert ApplyPairs(files[bookId].record, xs) == Some(files[bookId].record[ChaptersKey := v]) by {
      assert xs[1..] == [];
    }
  }

  /**
   * The intended patch never changes the stored chapters, for any body; every
   * other key the updates name takes the new value, and the rest keep theirs.
   */
  lemma PatchIntendedKeepsChapters(files: Files, bookId: string, updates: Json)
    ensures var o := PatchIntended(files, bookId, updates);
            o.response.Success? <==> bookId in files && files[bookId].Readable? && UpdatesOf(updates).Some?
    ensures var o := PatchIntended(files, bookId, updates);
            o.response.Success? ==>
              var before, u := files[bookId].record, UpdatesOf(updates).value;
              bookId in o.files && o.files[bookId].Readable?
              && (ChaptersKey in o.files[bookId].record <==> ChaptersKey in before)
              && (ChaptersKey in before ==> o.files[bookId].record[ChaptersKey] == before[ChaptersKey])
              && (forall k :: k in u && k != ChaptersKey ==> o.files[bookId].record[k] == u[k])
              && (forall k :: k in before && k !in u ==> o.files[bookId].record[k] == before[k])
    ensures var o := PatchIntended(files, bookId, updates);
            forall k :: k != bookId ==> (k in o.files <==> k in files) && (k in files ==> o.files[k] == files[k])
  {
  }

  /**
   * The two patches differ only where the guard fails: on an object body, and on
   * a list whose pairs do not name `chapters`, the program does what was intended.
   */
  lemma PatchAgreesWhenGuardHolds(files: Files, bookId: string, updates: Json)
    requires updates.JObj? || (updates.JArr? && UpdatesOf(updates).Some? && ChaptersKey !in UpdatesOf(updates).value)
    ensures Patch(files, bookId, updates) == PatchIntended(files, bookId, updates)
  {
    if bookId in files && files[bookId].Readable? && updates.JArr? {
      var data, xs := files[bookId].record, updates.items;
      ApplyPairsOver(data, map[], xs);
      assert data + map[] == data;
      assert JStr(ChaptersKey) !in xs by {
        if JStr(ChaptersKey) in xs {
          NamedElementRaises(map[], xs);
        }
      }
      var u := UpdatesOf(updates).value;
      assert u - {ChaptersKey} == u;
    }
  }

  /** The bare string "chapters" is not a pair, so a list holding it cannot be read as a dict. */
  lemma {:induction false} NamedElementRaises(a: Record, xs: seq<Json>)
    requires JStr(ChaptersKey) in xs
    ensures ApplyPairs(a, xs).None?
    decreases |xs|
  {
    if xs[0] != JStr(ChaptersKey) {
      if PairOf(xs[0]).Some? {
        NamedElementRaises(a[PairOf(xs[0]).value.0 := PairOf(xs[0]).value.1], xs[1..]);
      }
    }
  }

  /** A record saved under an id loads back exactly, and every other file is as it was. */
  lemma SaveThenLoad(files: Files, data: Record, key: string)
    requires "id" in data && PyTruthy(data["id"]) && IdKey(data["id"]) == Some(key)
    ensures Save(files, JObj(data)).response == Success("Book saved")
    ensures Load(Save(files, JObj(data)).files, key) == Body(data)
    ensures forall k :: k != key ==> Load(Save(files, JObj(data)).files, k) == Load(files, k)
  {
  }

  /** A body without a usable id writes nothing and answers 500. */
  lemma SaveWithoutIdWritesNothing(files: Files, body: Json)
    requires !body.JObj? || "id" !in body.fields || !PyTruthy(body.fields["id"])
    ensures Save(files, body) == Outcome(files, HttpError(ServerError))
  {
  }

  /** Saving either writes the one file its id names and succeeds, or writes nothing and answers 500. */
  lemma SaveWritesOneFile(files: Files, body: Json)
    ensures var o := Save(files, body);
            o.response == Success("Book saved") || (o.response == HttpError(ServerError) && o.files == files)
    ensures var o := Save(files, body);
            o.response.Success? ==>
              body.JObj? && "id" in body.fields && PyTruthy(body.fields["id"]) && IdKey(body.fields["id"]).Some?
              && o.files.Keys == files.Keys + {IdKey(body.fields["id"]).value}
              && forall k :: k in files && k != IdKey(body.fields["id"]).value ==> o.files[k] == files[k]
  {
  }

  /** Deleting twice is deleting once; afterwards the id is gone and the rest is untouched. */
  lemma DeleteIdempotent(files: Files, bookId: string)
    ensures Delete(Delete(files, bookId).files, bookId) == Delete(files, bookId)
    ensures Load(Delete(files, bookId).files, bookId) == HttpError(NotFound)
    ensures forall k :: k != bookId ==> Load(Delete(files, bookId).files, k) == Load(files, k)
    ensures Delete(files, bookId).response.Success?
  {
  }

  /**
   * An object body never changes the stored chapters; every other key it names
   * takes the new value, and keys it does not name keep theirs.
   */
  lemma PatchKeepsChapters(files: Files, bookId: string, u: Record)
    requires bookId in files && files[bookId].Readable?
    ensures var o := Patch(files, bookId, JObj(u));
            var before := files[bookId].record;
            o.response.Success? && bookId in o.files && o.files[bookId].Readable?
            && (ChaptersKey in o.files[bookId].record <==> ChaptersKey in before)
            && (ChaptersKey in before ==> o.files[bookId].record[ChaptersKey] == before[ChaptersKey])
            && (forall k :: k in u && k != ChaptersKey ==> o.files[bookId].record[k] == u[k])
            && (forall k :: k in before && k !in u ==> o.files[bookId].record[k] == before[k])
            && o.files[bookId].record.Keys == before.Keys + (u.Keys - {ChaptersKey})
    ensures var o := Patch(files, bookId, JObj(u));
            forall k :: k != bookId ==> (k in o.files <==> k in files) && (k in files ==> o.files[k] == files[k])
  {
  }

  /** Patching an absent or unreadable file writes nothing and answers 500. */
  lemma PatchMissingWritesNothing(files: Files, bookId: string, updates: Json)
    requires bookId !in files || files[bookId].Unreadable?
    ensures Patch(files, bookId, updates) == Outcome(files, HttpError(ServerError))
  {
  }

  // ---------------------------------------------------------------------------
  // list

  /** `x.get("lastReadAt", x.get("createdAt", ""))`: a present key wins even when its value is null. */
  function SortKey(r: Record): Json {
    if "lastReadAt" in r then r["lastReadAt"]
    else if "createdAt" in r then r["createdAt"]
    else JStr("")
  }

  predicate HasTextKey(r: Record) { SortKey(r).JStr? }

  function KeyText(r: Record): string { if SortKey(r).JStr? then SortKey(r).s else "" }

  /** Python's string order: lexicographic by code point. */
  predicate StrLe(a: string, b: string) {
    a == [] || (b != [] && (a[0] < b[0] || (a[0] == b[0] && StrLe(a[1..], b[1..]))))
  }

  lemma {:induction false} StrLeTotal(a: string, b: string)
    ensures StrLe(a, b) || StrLe(b, a)
  {
    if a != [] && b != [] && a[0] == b[0] {
      StrLeTotal(a[1..], b[1..]);
    }
  }

  lemma {:induction false} StrLeTrans(a: string, b: string, c: string)
    requires StrLe(a, b) && StrLe(b, c)
    ensures StrLe(a, c)
  {
    if a != [] && b != [] && c != [] && a[0] == b[0] && b[0] == c[0] {
      StrLeTrans(a[1..], b[1..], c[1..]);
    }
  }

  /** Newest first: no record is preceded by one with a smaller key. */
  predicate SortedDesc(s: seq<Record>) {
    forall i, j :: 0 <= i < j < |s| ==> StrLe(KeyText(s[j]), KeyText(s[i]))
  }

  /** Places r after the leading records whose key is at least its own. */
  function Insert(r: Record, s: seq<Record>): seq<Record> {
    if s == [] then [r]
    else if StrLe(KeyText(r), KeyText(s[0])) then [s[0]] + Insert(r, s[1..])
    else [r] + s
  }

  /** `books.sort(key=..., reverse=True)`: a descending sort by insertion. */
  function SortDesc(s: seq<Record>): seq<Record> {
    if s == [] then [] else Insert(s[|s| - 1], SortDesc(s[..|s| - 1]))
  }

  lemma {:induction false} InsertPermutes(r: Record, s: seq<Record>)
    ensures multiset(Insert(r, s)) == multiset(s) + multiset{r}
  {
    if s != [] && StrLe(KeyText(r), KeyText(s[0])) {
      InsertPermutes(r, s[1..]);
      assert s == [s[0]] + s[1..];
    }
  }

  /** Every record of s is at most its head, when s is sorted. */
  lemma HeadIsMax(s: seq<Record>)
    requires s != [] && SortedDesc(s)
    ensures forall r :: r in multiset(s) ==> StrLe(KeyText(r), KeyText(s[0]))
  {
    forall r | r in multiset(s) ensures StrLe(KeyText(r), KeyText(s[0])) {
      assert r in s;
      var k :| 0 <= k < |s| && s[k] == r;
      if k == 0 {
        StrLeTotal(KeyText(r), KeyText(r));
      }
    }
  }

  /** Prepending a record that is at least every record of a sorted sequence keeps it sorted. */
  lemma PrependSorted(r: Record, s: seq<Record>)
    requires SortedDesc(s)
    requires forall x :: x in multiset(s) ==> StrLe(KeyText(x), KeyText(r))
    ensures SortedDesc([r] + s)
  {
    var u := [r] + s;
    forall i, j | 0 <= i < j < |u|
      ensures StrLe(KeyText(u[j]), KeyText(u[i]))
    {
      if i == 0 {
        assert u[j] == s[j - 1];
        assert s[j - 1] in multiset(s);
      } else {
        assert u[i] == s[i - 1] && u[j] == s[j - 1];
      }
    }
  }

  lemma {:induction false} InsertSorted(r: Record, s: seq<Record>)
    requires SortedDesc(s)
    ensures SortedDesc(Insert(r, s))
  {
    if s == [] {
    } else if StrLe(KeyText(r), KeyText(s[0])) {
      assert SortedDesc(s[1..]) by {
        forall i, j | 0 <= i < j < |s[1..]| ensures StrLe(KeyText(s[1..][j]), KeyText(s[1..][i])) {
          assert s[1..][i] == s[i + 1] && s[1..][j] == s[j + 1];
        }
      }
      InsertSorted(r, s[1..]);
      InsertPermutes(r, s[1..]);
      HeadIsMax(s);
      assert s == [s[0]] + s[1..];
      PrependSorted(s[0], Insert(r, s[1..]));
    } else {
      StrLeTotal(KeyText(r), KeyText(s[0]));
      HeadIsMax(s);
      forall x | x in multiset(s) ensures StrLe(KeyText(x), KeyText(r)) {
        StrLeTrans(KeyText(x), KeyText(s[0]), KeyText(r));
      }
      PrependSorted(r, s);
    }
  }

  /** The listing order is sorted newest first and holds exactly the records given. */
  lemma {:induction false} SortDescSpec(s: seq<Record>)
    ensures SortedDesc(SortDesc(s))
    ensures multiset(SortDesc(s)) == multiset(s)
  {
    if s != [] {
      var init := s[..|s| - 1];
      SortDescSpec(init);
      InsertSorted(s[|s| - 1], SortDesc(init));
      InsertPermutes(s[|s| - 1], SortDesc(init));
      assert s == init + [s[|s| - 1]];
    }
  }

  /** The records of the readable files, in directory order, with `chapters` removed. */
  function Collect(files: Files, order: seq<string>): seq<Record>
    requires forall k :: k in order ==> k in files
  {
    if order == [] then []
    else
      var init := Collect(files, order[..|order| - 1]);
      match files[order[|order| - 1]]
      case Readable(r) => init + [r - {ChaptersKey}]
      case Unreadable => init
  }

  /** `list_books`: the records sorted newest first; a key that is not a string answers 500. */
  function List(files: Files, order: seq<string>): Response
    requires forall k :: k in order ==> k in files
  {
    var books := Collect(files, order);
    if forall i :: 0 <= i < |books| ==> HasTextKey(books[i]) then Listing(SortDesc(books))
    else HttpError(ServerError)
  }

  lemma {:induction false} CollectSpec(files: Files, order: seq<string>)
    requires forall k :: k in order ==> k in files
    ensures forall r :: r in Collect(files, order) ==> ChaptersKey !in r
    ensures forall i :: 0 <= i < |order| && files[order[i]].Readable?
                        ==> files[order[i]].record - {ChaptersKey} in Collect(files, order)
    ensures |Collect(files, order)| <= |order|
  {
    if order != [] {
      var init := order[..|order| - 1];
      CollectSpec(files, init);
      forall i | 0 <= i < |order| && files[order[i]].Readable?
        ensures files[order[i]].record - {ChaptersKey} in Collect(files, order)
      {
        if i < |order| - 1 {
          assert order[i] == init[i];
        }
      }
    }
  }

  /** Removing `chapters` leaves the sort key alone, so the collected keys are the files' own. */
  lemma {:induction false} CollectKeys(files: Files, order: seq<string>)
    requires forall k :: k in order ==> k in files
    ensures (forall i :: 0 <= i < |Collect(files, order)| ==> HasTextKey(Collect(files, order)[i]))
            <==> (forall k :: k in order && files[k].Readable? ==> HasTextKey(files[k].record))
  {
    if order != [] {
      var init, last := order[..|order| - 1], order[|order| - 1];
      CollectKeys(files, init);
      assert forall k :: k in order <==> k in init || k == last by {
        assert order == init + [last];
      }
      if files[last].Readable? {
        var r, c := files[last].record, Collect(files, init);
        var all := c + [r - {ChaptersKey}];
        assert SortKey(r - {ChaptersKey}) == SortKey(r);
        assert Collect(files, order) == all;
        if forall k :: k in order && files[k].Readable? ==> HasTextKey(files[k].record) {
          forall i | 0 <= i < |all| ensures HasTextKey(all[i]) {
            if i < |c| {
              assert all[i] == c[i];
            }
          }
        } else {
          var k :| k in order && files[k].Readable? && !HasTextKey(files[k].record);
          if k == last {
            assert !HasTextKey(all[|c|]);
          } else {
            var i :| 0 <= i < |c| && !HasTextKey(c[i]);
            assert all[i] == c[i];
          }
        }
      } else {
        assert Collect(files, order) == Collect(files, init);
      }
    }
  }

  /**
   * A listing holds no chapters, is sorted newest first, and is a permutation of
   * the readable records with their chapters removed. It is given exactly when
   * every readable file's sort key is a string; otherwise the answer is 500.
   */
  lemma ListSpec(files: Files, order: seq<string>)
    requires forall k :: k in order ==> k in files
    ensures var resp := List(files, order);
            resp.Listing? || resp == HttpError(ServerError)
    ensures List(files, order).Listing?
            <==> (forall k :: k in order && files[k].Readable? ==> HasTextKey(files[k].record))
    ensures List(files, order).Listing? ==>
            var bs := List(files, order).books;
            SortedDesc(bs)
            && multiset(bs) == multiset(Collect(files, order))
            && (forall r :: r in bs ==> ChaptersKey !in r)
            && (forall i :: 0 <= i < |order| && files[order[i]].Readable?
                            ==> files[order[i]].record - {ChaptersKey} in bs)
  {
    var books := Collect(files, order);
    CollectSpec(files, order);
    CollectKeys(files, order);
    SortDescSpec(books);
    if List(files, order).Listing? {
      var bs := List(files, order).books;
      forall r | r in bs ensures ChaptersKey !in r {
        assert r in multiset(bs);
      }
      forall i | 0 <= i < |order| && files[order[i]].Readable?
        ensures files[order[i]].record - {ChaptersKey} in bs
      {
        assert files[order[i]].record - {ChaptersKey} in multiset(books);
      }
    }
  }

  /** The readable files among a listing. */
  function ReadableAmong(files: Files, order: seq<string>): set<string>
    requires forall k :: k in order ==> k in files
  {
    set k | k in order && files[k].Readable?
  }

  /** One entry per readable file of a listing that names each file once. */
  lemma {:induction false} CollectCount(files: Files, order: seq<string>)
    requires forall k :: k in order ==> k in files
    requires Distinct(order)
    ensures |Collect(files, order)| == |ReadableAmong(files, order)|
  {
    if order == [] {
      assert ReadableAmong(files, order) == {};
    } else {
      var init, last := order[..|order| - 1], order[|order| - 1];
      assert order == init + [last];
      assert last !in init by {
        forall j | 0 <= j < |init| ensures init[j] != last {
          assert init[j] == order[j];
        }
      }
      assert Distinct(init);
      CollectCount(files, init);
      assert ReadableAmong(files, order)
             == ReadableAmong(files, init) + (if files[last].Readable? then {last} else {});
    }
  }

  /**
   * Over a listing of the whole directory, each file once, a listing holds every
   * readable record without its chapters and has one entry per readable file.
   */
  lemma ListCoversDirectory(files: Files, order: seq<string>)
    requires forall k :: k in order <==> k in files
    requires Distinct(order)
    ensures List(files, order).Listing?
            <==> (forall k :: k in files && files[k].Readable? ==> HasTextKey(files[k].record))
    ensures List(files, order).Listing? ==>
            var bs := List(files, order).books;
            (forall k :: k in files && files[k].Readable? ==> files[k].record - {ChaptersKey} in bs)
            && |bs| == |set k | k in files && files[k].Readable?|
  {
    ListSpec(files, order);
    if List(files, order).Listing? {
      var bs := List(files, order).books;
      forall k | k in files && files[k].Readable? ensures files[k].record - {ChaptersKey} in bs {
        var i :| 0 <= i < |order| && order[i] == k;
      }
      CollectCount(files, order);
      assert |multiset(bs)| == |multiset(Collect(files, order))|;
      assert ReadableAmong(files, order) == set k | k in files && files[k].Readable?;
    }
  }

  // ---------------------------------------------------------------------------
  // The store

  class BookStore {
    var files: Files

    /** The server starts over whatever the books directory already holds, readable or not. */
    constructor(initial: Files)
      ensures files == initial
    {
      files := initial;
    }

    method SaveBook(body: Json) returns (response: Response)
      modifies this
      ensures Outcome(files, response) == Save(old(files), body)
    {
      if !body.JObj? {
        return HttpError(ServerError);
      }
      var data := body.fields;
      if "id" !in data || !PyTruthy(data["id"]) {
        return HttpError(ServerError);
      }
      var key := IdKey(data["id"]);
      if key.None? {
        return HttpError(ServerError);
      }
      files := files[key.value := Readable(data)];
      response := Success("Book saved");
    }

    method LoadBook(bookId: string) returns (response: Response)
      ensures response == Load(files, bookId)
      ensures bookId !in files ==> response == HttpError(NotFound)
      ensures bookId in files && files[bookId].Readable? ==> response == Body(files[bookId].record)
    {
      if bookId !in files {
        return HttpError(NotFound);
      }
      match files[bookId]
      case Readable(r) => response := Body(r);
      case Unreadable => response := HttpError(ServerError);
    }

    method DeleteBook(bookId: string) returns (response: Response)
      modifies this
      ensures Outcome(files, response) == Delete(old(files), bookId)
    {
      if bookId in files {
        files := files - {bookId};
      }
      response := Success("Book deleted");
    }

    method UpdateBookMetadata(bookId: string, updates: Json) returns (response: Response)
      modifies this
      ensures Outcome(files, response) == Patch(old(files), bookId, updates)
    {
      if bookId !in files || files[bookId].Unreadable? {
        return HttpError(ServerError);
      }
      var data := files[bookId].record;
      match updates
      case JObj(u) =>
        var rest := u;
        if ChaptersKey in rest {
          rest := rest - {ChaptersKey};
        }
        assert rest == u - {ChaptersKey};
        files := files[bookId := Readable(data + rest)];
        response := Success("Metadata updated");
      case JArr(xs) =>
        if JStr(ChaptersKey) in xs {
          return HttpError(ServerError);
        }
        var updated := ApplyPairs(data, xs);
        if updated.None? {
          return HttpError(ServerError);
        }
        files := files[bookId := Readable(updated.value)];
        response := Success("Metadata updated");
      case JStr(t) =>
        if t != [] {
          return HttpError(ServerError);
        }
        files := files[bookId := Readable(data)];
        response := Success("Metadata updated");
      case _ =>
        response := HttpError(ServerError);
    }

    /** `list_books` over the directory listing `order`, which names every file once. */
    method ListBooks(order: seq<string>) returns (response: Response)
      requires forall k :: k in order <==> k in files
      requires Distinct(order)
      ensures response == List(files, order)
      ensures response.Listing? <==> (forall k :: k in files && files[k].Readable? ==> HasTextKey(files[k].record))
      ensures response.Listing? ==>
              (forall k :: k in files && files[k].Readable? ==> files[k].record - {ChaptersKey} in response.books)
              && |response.books| == |set k | k in files && files[k].Readable?|
    {
      var books: seq<Record> := [];
      var i := 0;
      while i < |order|
        invariant 0 <= i <= |order|
        invariant books == Collect(files, order[..i])
      {
        assert order[..i + 1][..i] == order[..i];
        match files[order[i]] {
          case Readable(r) => books := books + [r - {ChaptersKey}];
          case Unreadable =>
        }
        i := i + 1;
      }
      assert order[..i] == order;
      ListCoversDirectory(files, order);
      if forall j :: 0 <= j < |books| ==> HasTextKey(books[j]) {
        response := Listing(SortDesc(books));
      } else {
        response := HttpError(ServerError);
      }
    }
  }
}
