/**
 * The one-off migration of stored book records to the multi-device layout: the
 * top-level reading-progress fields move under `devices.default_device`, and a
 * record that already has `devices` is left alone.
 */
module Migration {
  import opened Wrappers
  import opened Text
  import opened Json
  import opened BookStore

  const DevicesKey: string := "devices"
  const DefaultDevice: string := "default_device"
  const DefaultDeviceName: string := "默认设备"

  /** The keys that move from the record into the default device. */
  const ProgressKeys: set<string> := {"progress", "currentPage", "currentChapter", "lastReadAt"}

  /** `dict.pop(key, default)` read as a value. */
  function PopValue(data: Record, key: string, default: Json): Json {
    if key in data then data[key] else default
  }

  /** The default device: its name plus the moved progress fields, 0 or `createdAt` when absent. */
  function DeviceOf(data: Record): Record {
    map["name" := JStr(DefaultDeviceName),
        "progress" := PopValue(data, "progress", JNum(0)),
        "currentPage" := PopValue(data, "currentPage", JNum(0)),
        "currentChapter" := PopValue(data, "currentChapter", JNum(0)),
        "lastReadAt" := PopValue(data, "lastReadAt", PopValue(data, "createdAt", JNull))]
  }

  /** A record of the old layout rewritten to the new one. */
  function Migrated(data: Record): Record {
    (data - ProgressKeys)[DevicesKey := JObj(map[DefaultDevice := JObj(DeviceOf(data))])]
  }

  predicate NeedsMigration(data: Record) { DevicesKey !in data }

  /** What the migration leaves in a record: unchanged once it has devices, rewritten otherwise. */
  function Migrate(data: Record): Record {
    if NeedsMigration(data) then Migrated(data) else data
  }

  /** A rewritten record: no top-level progress fields, one default device holding them, every other key kept. */
  lemma MigratedSpec(data: Record)
    requires NeedsMigration(data)
    ensures var m := Migrate(data);
            (forall k :: k in ProgressKeys ==> k !in m)
            && m[DevicesKey] == JObj(map[DefaultDevice := JObj(DeviceOf(data))])
            && (forall k :: k in data && k !in ProgressKeys ==> k in m && m[k] == data[k])
            && m.Keys == (data.Keys - ProgressKeys) + {DevicesKey}
    ensures var d := DeviceOf(data);
            d["name"] == JStr(DefaultDeviceName)
            && d["progress"] == (if "progress" in data then data["progress"] else JNum(0))
            && d["currentPage"] == (if "currentPage" in data then data["currentPage"] else JNum(0))
            && d["currentChapter"] == (if "currentChapter" in data then data["currentChapter"] else JNum(0))
            && d["lastReadAt"] == (if "lastReadAt" in data then data["lastReadAt"]
                                   else if "createdAt" in data then data["createdAt"] else JNull)
  {
  }

  /** Migrating a migrated record changes nothing. */
  lemma MigrateIdempotent(data: Record)
    ensures Migrate(Migrate(data)) == Migrate(data)
    ensures !NeedsMigration(Migrate(data))
  {
  }

  /**
   * The per-record body of the loop, as the script runs it: pop each progress
   * field with its default, then store the default device.
   */
  method MigrateRecord(data: Record) returns (out: Record, migrated: bool)
    ensures out == Migrate(data)
    ensures migrated <==> NeedsMigration(data)
  {
    if DevicesKey in data {
      return data, false;
    }
    out := data;
    var progress := if "progress" in out then out["progress"] else JNum(0);
    out := out - {"progress"};
    var currentPage := if "currentPage" in out then out["currentPage"] else JNum(0);
    out := out - {"currentPage"};
    var currentChapter := if "currentChapter" in out then out["currentChapter"] else JNum(0);
    out := out - {"currentChapter"};
    var createdAt := if "createdAt" in out then out["createdAt"] else JNull;
    var lastReadAt := if "lastReadAt" in out then out["lastReadAt"] else createdAt;
    out := out - {"lastReadAt"};
    var device := map["name" := JStr(DefaultDeviceName), "progress" := progress, "currentPage" := currentPage,
                      "currentChapter" := currentChapter, "lastReadAt" := lastReadAt];
    out := out[DevicesKey := JObj(map[DefaultDevice := JObj(device)])];
    migrated := true;
  }

  // ---------------------------------------------------------------------------
  // The directory loop (`migrate_books`)

  /** A stored file after the migration: readable records migrated, unreadable files untouched. */
  function MigrateFile(f: StoredFile): StoredFile {
    match f
    case Readable(r) => Readable(Migrate(r))
    case Unreadable => Unreadable
  }

  function Rewrites(f: StoredFile): nat {
    if f.Readable? && NeedsMigration(f.record) then 1 else 0
  }

  /** The number of files among `order` that the loop rewrites. */
  function CountRewrites(files: Files, order: seq<string>): nat
    requires forall k :: k in order ==> k in files
  {
    if order == [] then 0
    else CountRewrites(files, order[..|order| - 1]) + Rewrites(files[order[|order| - 1]])
  }

  /** The directory after visiting the files of `order`. */
  function MigrateFiles(files: Files, order: seq<string>): Files {
    map k | k in files :: if k in order then MigrateFile(files[k]) else files[k]
  }

  /** A count over files none of which needs rewriting is zero. */
  lemma {:induction false} CountZero(files: Files, order: seq<string>)
    requires forall k :: k in order ==> k in files && Rewrites(files[k]) == 0
    ensures CountRewrites(files, order) == 0
  {
    if order != [] {
      var init := order[..|order| - 1];
      assert forall k :: k in init ==> k in order;
      CountZero(files, init);
    }
  }

  /** Running the migration again over its own output rewrites nothing and changes nothing. */
  lemma SecondRunRewritesNothing(files: Files, order: seq<string>)
    requires forall k :: k in order ==> k in files
    ensures forall k :: k in order ==> k in MigrateFiles(files, order)
    ensures CountRewrites(MigrateFiles(files, order), order) == 0
    ensures MigrateFiles(MigrateFiles(files, order), order) == MigrateFiles(files, order)
  {
    var once := MigrateFiles(files, order);
    forall k | k in order ensures k in once && Rewrites(once[k]) == 0 {
      if files[k].Readable? {
        MigrateIdempotent(files[k].record);
      }
    }
    CountZero(once, order);
    forall k | k in once ensures MigrateFiles(once, order)[k] == once[k] {
      if files[k].Readable? {
        MigrateIdempotent(files[k].record);
      }
    }
  }

  /** A file is rewritten exactly when the migration changes it. */
  lemma RewritesIffChanged(f: StoredFile)
    ensures Rewrites(f) == 1 <==> MigrateFile(f) != f
  {
    if f.Readable? && NeedsMigration(f.record) {
      assert DevicesKey in MigrateFile(f).record;
    }
  }

  /** The count is the number of distinct files the run rewrites, which are the files it changes. */
  lemma {:induction false} CountIsChangedFiles(files: Files, order: seq<string>)
    requires forall k :: k in order ==> k in files
    requires Distinct(order)
    ensures CountRewrites(files, order) == |set k | k in order && MigrateFile(files[k]) != files[k]|
  {
    forall k | k in order ensures Rewrites(files[k]) == 1 <==> MigrateFile(files[k]) != files[k] {
      RewritesIffChanged(files[k]);
    }
    CountIsRewrittenFiles(files, order);
    assert RewrittenAmong(files, order) == (set k | k in order && MigrateFile(files[k]) != files[k]);
  }

  /** The files of a listing that the run rewrites. */
  function RewrittenAmong(files: Files, order: seq<string>): set<string>
    requires forall k :: k in order ==> k in files
  {
    set k | k in order && Rewrites(files[k]) == 1
  }

  /** One more listed file joins the rewritten ones exactly when it is rewritten; it was not among them before. */
  lemma RewrittenAmongStep(files: Files, order: seq<string>)
    requires order != [] && (forall k :: k in order ==> k in files) && Distinct(order)
    ensures var init, last := order[..|order| - 1], order[|order| - 1];
            (forall k :: k in init ==> k in files)
            && last !in RewrittenAmong(files, init)
            && RewrittenAmong(files, order)
               == RewrittenAmong(files, init) + (if Rewrites(files[last]) == 1 then {last} else {})
  {
    var init, last := order[..|order| - 1], order[|order| - 1];
    assert order == init + [last];
    assert last !in init by {
      forall j | 0 <= j < |init| ensures init[j] != last {
        assert init[j] == order[j];
      }
    }
  }

  lemma {:induction false} CountIsRewrittenFiles(files: Files, order: seq<string>)
    requires forall k :: k in order ==> k in files
    requires Distinct(order)
    ensures CountRewrites(files, order) == |RewrittenAmong(files, order)|
  {
    if order == [] {
      assert RewrittenAmong(files, order) == {};
    } else {
      var init := order[..|order| - 1];
      RewrittenAmongStep(files, order);
      assert Distinct(init);
      CountIsRewrittenFiles(files, init);
    }
  }

  /**
   * Over a listing of the whole directory, each file once, the run migrates every
   * file and counts exactly the files it changes.
   */
  lemma MigrateWholeDirectory(files: Files, order: seq<string>)
    requires forall k :: k in order <==> k in files
    requires Distinct(order)
    ensures MigrateFiles(files, order) == map k | k in files :: MigrateFile(files[k])
    ensures CountRewrites(files, order) == |set k | k in files && MigrateFile(files[k]) != files[k]|
  {
    CountIsChangedFiles(files, order);
    assert (set k | k in order && MigrateFile(files[k]) != files[k])
           == set k | k in files && MigrateFile(files[k]) != files[k];
  }

  /**
   * `migrate_books` over the directory listing `order`, which names every file
   * once. A missing directory ends the run before any file is touched.
   */
  method MigrateBooks(files: Files, order: seq<string>, dirExists: bool) returns (result: Files, migratedCount: nat)
    requires forall k :: k in order <==> k in files
    requires Distinct(order)
    ensures !dirExists ==> result == files && migratedCount == 0
    ensures dirExists ==> result == MigrateFiles(files, order) && migratedCount == CountRewrites(files, order)
    ensures dirExists ==> result == (map k | k in files :: MigrateFile(files[k]))
                          && migratedCount == |set k | k in files && MigrateFile(files[k]) != files[k]|
  {
    if !dirExists {
      return files, 0;
    }
    result, migratedCount := MigrateListed(files, order);
    MigrateWholeDirectory(files, order);
  }

  /** The loop of `migrate_books`: each listed file is loaded, migrated if it needs it, and counted. */
  method MigrateListed(files: Files, order: seq<string>) returns (result: Files, migratedCount: nat)
    requires forall k :: k in order ==> k in files
    requires Distinct(order)
    ensures result == MigrateFiles(files, order) && migratedCount == CountRewrites(files, order)
  {
    result := files;
    migratedCount := 0;
    var i := 0;
    while i < |order|
      invariant 0 <= i <= |order|
      invariant result == MigrateFiles(files, order[..i])
      invariant migratedCount == CountRewrites(files, order[..i])
    {
      var name := order[i];
      assert name !in order[..i] by {
        forall j | 0 <= j < i ensures order[..i][j] != name {
          assert order[..i][j] == order[j];
        }
      }
      assert result[name] == files[name];
      assert order[..i + 1][..i] == order[..i];
      match result[name] {
        case Unreadable =>
        case Readable(data) =>
          var out, migrated := MigrateRecord(data);
          if migrated {
            result := result[name := Readable(out)];
            migratedCount := migratedCount + 1;
          }
      }
      assert forall k :: k in order[..i + 1] <==> k in order[..i] || k == name;
      i := i + 1;
    }
    assert order[..i] == order;
  }
}
