/**
 * The raw loader: every `.json` file found under the raw-messages directory
 * holds one channel's messages; each message with a usable `id` is upserted
 * into the table `raw.telegram_messages`, whose primary key is `message_id`.
 *
 * The table is a map from `message_id` to its row; a run of the loader is a
 * method of the store object that walks the files in order and counts the
 * files it processed and the messages it upserted.
 */
module RawLoader {
  import opened Wrappers
  import opened PathNames

  /** The value of `NOW()`: the start time of the run's single transaction. */
  type Timestamp = int

  /**
   * A JSON object of a message file: its `id` field and the rest of the
   * object, which is stored as is. `id` is None when the field is missing
   * or null, and also stands for a falsy id of another type (`false`, `""`,
   * `0.0`, `[]`, `{}`), which the message loop skips in the same way.
   */
  datatype Message = Message(id: Option<int>, body: string)

  /** An element of a decoded file: an object, or a JSON value of another kind. */
  datatype Element = Object(message: Message) | NonObject

  /**
   * A file the directory walk yields: its base name and what `json.load`
   * made of it (None when opening or decoding the file raised).
   */
  datatype SourceFile = SourceFile(name: string, content: Option<seq<Element>>)

  /** A row of `raw.telegram_messages`, apart from its key. */
  datatype Row = Row(channel: string, raw: Message, loadedAt: Timestamp)

  /** One executed `INSERT ... ON CONFLICT (message_id) DO UPDATE`. */
  datatype Upsert = Upsert(id: int, channel: string, message: Message)

  const JsonSuffix: string := ".json"

  /** Python's truth value of `message.get('id')`: present and non-zero. */
  predicate Truthy(id: Option<int>) {
    id.Some? && id.value != 0
  }

  /**
   * The conditional write: insert a new row, or on conflict overwrite
   * `raw_message` and `loaded_at` and keep `channel_name`.
   */
  function UpsertRow(rows: map<int, Row>, u: Upsert, now: Timestamp): map<int, Row> {
    if u.id in rows then rows[u.id := rows[u.id].(raw := u.message, loadedAt := now)]
    else rows[u.id := Row(u.channel, u.message, now)]
  }

  /** The table after a sequence of upserts, executed first to last. */
  function ApplyUpserts(rows: map<int, Row>, us: seq<Upsert>, now: Timestamp): map<int, Row> {
    if us == [] then rows
    else UpsertRow(ApplyUpserts(rows, us[..|us| - 1], now), us[|us| - 1], now)
  }

  function Ids(us: seq<Upsert>): set<int> {
    set u | u in us :: u.id
  }

  /**
   * The position of the first element that is not an object, or the length:
   * the loop raises there (`.get` is not defined on it) and leaves the file.
   */
  function FailureIndex(es: seq<Element>): (k: nat)
    ensures k <= |es|
    ensures forall j :: 0 <= j < k ==> es[j].Object?
    ensures k < |es| ==> es[k].NonObject?
  {
    if es == [] || es[0].NonObject? then 0 else 1 + FailureIndex(es[1..])
  }

  /**
   * The upserts the message loop runs over objects `es` of channel
   * `channel`: one per object with a truthy id, in order.
   */
  function ElementUpserts(channel: string, es: seq<Element>): seq<Upsert> {
    if es == [] then []
    else
      var front := ElementUpserts(channel, es[..|es| - 1]);
      var e := es[|es| - 1];
      if e.Object? && Truthy(e.message.id) then front + [Upsert(e.message.id.value, channel, e.message)]
      else front
  }

  /** The file filter of the directory walk. */
  predicate Selected(f: SourceFile) {
    EndsWith(f.name, JsonSuffix)
  }

  /** The upserts one selected file contributes, up to the element that raises. */
  function DecodedUpserts(f: SourceFile): seq<Upsert> {
    match f.content
    case None => []
    case Some(es) => ElementUpserts(Root(f.name), es[..FailureIndex(es)])
  }

  function FileUpserts(f: SourceFile): seq<Upsert> {
    if Selected(f) then DecodedUpserts(f) else []
  }

  /** The body of the `try` ran to its end: the file counts as processed. */
  predicate Completes(f: SourceFile) {
    Selected(f) && f.content.Some? && FailureIndex(f.content.value) == |f.content.value|
  }

  /** Every upsert a run over `files` executes, in execution order. */
  function RunUpserts(files: seq<SourceFile>): seq<Upsert> {
    if files == [] then []
    else RunUpserts(files[..|files| - 1]) + FileUpserts(files[|files| - 1])
  }

  /** The table after a run over `files`. */
  function Load(rows: map<int, Row>, files: seq<SourceFile>, now: Timestamp): map<int, Row> {
    ApplyUpserts(rows, RunUpserts(files), now)
  }

  /** The final value of `processed_files`. */
  function ProcessedFiles(files: seq<SourceFile>): nat {
    if files == [] then 0
    else ProcessedFiles(files[..|files| - 1]) + (if Completes(files[|files| - 1]) then 1 else 0)
  }

  /** The final value of `total_messages_upserted`: only completed files are credited. */
  function UpsertedCount(files: seq<SourceFile>): nat {
    if files == [] then 0
    else
      var f := files[|files| - 1];
      UpsertedCount(files[..|files| - 1]) + (if Completes(f) then |FileUpserts(f)| else 0)
  }

  /** The number of objects with a truthy id in `es`: the reference count of the inner loop. */
  function TruthyObjects(es: seq<Element>): nat {
    |set j | 0 <= j < |es| && es[j].Object? && Truthy(es[j].message.id)|
  }

  /** The table without its timestamps: what a re-load must reproduce. */
  function Content(rows: map<int, Row>): map<int, (string, Message)> {
    map id | id in rows :: (rows[id].channel, rows[id].raw)
  }

  class RawStore {
    /** `raw.telegram_messages`, keyed by `message_id`. */
    var rows: map<int, Row>

    constructor (initial: map<int, Row>)
      ensures rows == initial
    {
      rows := initial;
    }

    /** `cursor.execute(upsert_query, ...)`: the atomic insert-or-overwrite. */
    method ExecuteUpsert(id: int, channel: string, message: Message, now: Timestamp)
      modifies this
      ensures rows.Keys == old(rows).Keys + {id}
      ensures forall k :: k in old(rows) && k != id ==> rows[k] == old(rows)[k]
      ensures id in old(rows) ==> rows[id] == Row(old(rows)[id].channel, message, now)
      ensures id !in old(rows) ==> rows[id] == Row(channel, message, now)
      ensures rows == UpsertRow(old(rows), Upsert(id, channel, message), now)
    {
      if id in rows {
        rows := rows[id := Row(rows[id].channel, message, now)];
      } else {
        rows := rows[id := Row(channel, message, now)];
      }
    }

    /**
     * The body of the `try` for one `.json` file: upsert its messages in
     * order, skipping those without a truthy id. Returns the file's
     * `messages_in_file`, or None when the loop raised part-way; the rows
     * written before that stay (nothing is rolled back).
     */
    method LoadFile(f: SourceFile, now: Timestamp) returns (messagesInFile: Option<nat>)
      modifies this
      ensures rows == ApplyUpserts(old(rows), DecodedUpserts(f), now)
      ensures messagesInFile.Some? <==> f.content.Some? && FailureIndex(f.content.value) == |f.content.value|
      ensures messagesInFile.Some? ==> messagesInFile.value == |DecodedUpserts(f)|
    {
      if f.content.None? {
        return None;
      }
      var es := f.content.value;
      var channel := Root(f.name);
      var count := 0;
      var i := 0;
      while i < |es|
        invariant 0 <= i <= |es|
        invariant forall k :: 0 <= k < i ==> es[k].Object?
        invariant rows == ApplyUpserts(old(rows), ElementUpserts(channel, es[..i]), now)
        invariant count == |ElementUpserts(channel, es[..i])|
      {
        if es[i].NonObject? {
          assert FailureIndex(es) == i;
          return None;
        }
        var message := es[i].message;
        ElementUpsertsStep(channel, es, i);
        if Truthy(message.id) {
          ApplyUpsertsSnoc(old(rows), ElementUpserts(channel, es[..i]), Upsert(message.id.value, channel, message), now);
          ExecuteUpsert(message.id.value, channel, message, now);
          count := count + 1;
        }
        i := i + 1;
      }
      assert es[..i] == es;
      messagesInFile := Some(count);
    }

    /**
     * `process_and_load_data`: every file of the walk, in walk order; only
     * names ending in ".json" are opened. Returns `processed_files` and
     * `total_messages_upserted`.
     */
    method ProcessAndLoad(files: seq<SourceFile>, now: Timestamp) returns (processedFiles: nat, totalUpserted: nat)
      modifies this
      ensures rows == Load(old(rows), files, now)
      ensures processedFiles == ProcessedFiles(files)
      ensures totalUpserted == UpsertedCount(files)
    {
      processedFiles, totalUpserted := 0, 0;
      var i := 0;
      while i < |files|
        invariant 0 <= i <= |files|
        invariant rows == Load(old(rows), files[..i], now)
        invariant processedFiles == ProcessedFiles(files[..i])
        invariant totalUpserted == UpsertedCount(files[..i])
      {
        var f := files[i];
        assert files[..i + 1][..i] == files[..i];
        ghost var before := rows;
        if EndsWith(f.name, JsonSuffix) {
          var messagesInFile := LoadFile(f, now);
          if messagesInFile.Some? {
            totalUpserted := totalUpserted + messagesInFile.value;
            processedFiles := processedFiles + 1;
          }
        }
        ApplyUpsertsAppend(old(rows), RunUpserts(files[..i]), FileUpserts(f), now);
        i := i + 1;
      }
      assert files[..i] == files;
    }
  }

  /**
   * Each element adds at most one upsert, and each upsert of a file carries
   * the file's channel, a truthy id and the object holding that id.
   */
  lemma {:induction false} ElementUpsertsSound(channel: string, es: seq<Element>)
    ensures |ElementUpserts(channel, es)| <= |es|
    ensures forall j :: 0 <= j < |es| ==>
      |ElementUpserts(channel, es[..j + 1])| <= |ElementUpserts(channel, es[..j])| + 1
    ensures forall u :: u in ElementUpserts(channel, es) ==>
      u.channel == channel && u.id != 0 && u.message.id == Some(u.id) && Object(u.message) in es
  {
    if es != [] {
      var front := es[..|es| - 1];
      ElementUpsertsSound(channel, front);
      assert forall e :: e in front ==> e in es;
      forall j | 0 <= j < |es|
        ensures |ElementUpserts(channel, es[..j + 1])| <= |ElementUpserts(channel, es[..j])| + 1
      {
        assert es[..j + 1][..j] == es[..j];
      }
    }
  }

  /** One more object: its upsert, if its id is truthy, follows those of the objects before it. */
  lemma ElementUpsertsStep(channel: string, es: seq<Element>, i: nat)
    requires i < |es| && es[i].Object?
    ensures var m := es[i].message;
      Truthy(m.id) ==> ElementUpserts(channel, es[..i + 1]) == ElementUpserts(channel, es[..i]) + [Upsert(m.id.value, channel, m)]
    ensures !Truthy(es[i].message.id) ==> ElementUpserts(channel, es[..i + 1]) == ElementUpserts(channel, es[..i])
  {
    assert es[..i + 1][..i] == es[..i];
  }

  /** Executing one more upsert is one more step of `ApplyUpserts`. */
  lemma ApplyUpsertsSnoc(rows: map<int, Row>, us: seq<Upsert>, u: Upsert, now: Timestamp)
    ensures ApplyUpserts(rows, us + [u], now) == UpsertRow(ApplyUpserts(rows, us, now), u, now)
  {
    assert (us + [u])[..|us|] == us;
  }

  // ---- Properties of the upsert semantics ----

  /** Executing `a` then `b` is executing `a + b`. */
  lemma {:induction false} ApplyUpsertsAppend(rows: map<int, Row>, a: seq<Upsert>, b: seq<Upsert>, now: Timestamp)
    ensures ApplyUpserts(rows, a + b, now) == ApplyUpserts(ApplyUpserts(rows, a, now), b, now)
  {
    if b != [] {
      var ab := a + b;
      assert ab[..|ab| - 1] == a + b[..|b| - 1];
      assert ab[|ab| - 1] == b[|b| - 1];
      ApplyUpsertsAppend(rows, a, b[..|b| - 1], now);
    } else {
      assert a + b == a;
    }
  }

  /** The keys after a sequence of upserts: the old ones and one per upserted id, no others. */
  lemma {:induction false} ApplyUpsertsKeys(rows: map<int, Row>, us: seq<Upsert>, now: Timestamp)
    ensures ApplyUpserts(rows, us, now).Keys == rows.Keys + Ids(us)
  {
    if us != [] {
      var front := us[..|us| - 1];
      ApplyUpsertsKeys(rows, front, now);
      assert us == front + [us[|us| - 1]];
      assert Ids(us) == Ids(front) + {us[|us| - 1].id};
    }
  }

  /** A row whose id no upsert names is left exactly as it was. */
  lemma {:induction false} ApplyUpsertsUntouched(rows: map<int, Row>, us: seq<Upsert>, now: Timestamp, id: int)
    requires id in rows
    requires forall j :: 0 <= j < |us| ==> us[j].id != id
    ensures id in ApplyUpserts(rows, us, now) && ApplyUpserts(rows, us, now)[id] == rows[id]
  {
    if us != [] {
      ApplyUpsertsUntouched(rows, us[..|us| - 1], now, id);
    }
  }

  /** An existing row keeps its `channel_name` whatever is upserted over it. */
  lemma {:induction false} ApplyUpsertsKeepsChannel(rows: map<int, Row>, us: seq<Upsert>, now: Timestamp, id: int)
    requires id in rows
    ensures id in ApplyUpserts(rows, us, now)
    ensures ApplyUpserts(rows, us, now)[id].channel == rows[id].channel
  {
    if us != [] {
      ApplyUpsertsKeepsChannel(rows, us[..|us| - 1], now, id);
    }
  }

  /** The position of the last upsert of `id`. */
  function LastIndex(us: seq<Upsert>, id: int): (j: nat)
    requires id in Ids(us)
    ensures j < |us| && us[j].id == id
    ensures forall k :: j < k < |us| ==> us[k].id != id
  {
    var n := |us| - 1;
    if us[n].id == id then n
    else
      assert id in Ids(us[..n]) by {
        var u :| u in us && u.id == id;
        var i :| 0 <= i < |us| && us[i] == u;
        assert us[..n][i] == u;
      }
      LastIndex(us[..n], id)
  }

  /** The position of the first upsert of `id`. */
  function FirstIndex(us: seq<Upsert>, id: int): (j: nat)
    requires id in Ids(us)
    ensures j < |us| && us[j].id == id
    ensures forall k :: 0 <= k < j ==> us[k].id != id
  {
    if us[0].id == id then 0
    else
      assert id in Ids(us[1..]) by {
        var u :| u in us && u.id == id;
        var i :| 0 <= i < |us| && us[i] == u;
        assert us[1..][i - 1] == u;
      }
      1 + FirstIndex(us[1..], id)
  }

  /**
   * Last write wins: an upserted id holds the message of its last upsert
   * and the run's timestamp.
   */
  lemma {:induction false} ApplyUpsertsLastWrite(rows: map<int, Row>, us: seq<Upsert>, now: Timestamp, id: int)
    requires id in Ids(us)
    ensures id in ApplyUpserts(rows, us, now)
    ensures ApplyUpserts(rows, us, now)[id].raw == us[LastIndex(us, id)].message
    ensures ApplyUpserts(rows, us, now)[id].loadedAt == now
  {
    var n := |us| - 1;
    if us[n].id != id {
      ApplyUpsertsLastWrite(rows, us[..n], now, id);
    }
  }

  /** A row a run creates takes its `channel_name` from the first upsert of its id. */
  lemma ApplyUpsertsFirstChannel(rows: map<int, Row>, us: seq<Upsert>, now: Timestamp, id: int)
    requires id !in rows
    requires id in Ids(us)
    ensures id in ApplyUpserts(rows, us, now)
    ensures ApplyUpserts(rows, us, now)[id].channel == us[FirstIndex(us, id)].channel
  {
    var j := FirstIndex(us, id);
    var head := us[..j];
    var created := ApplyUpserts(rows, us[..j + 1], now);
    assert us[..j + 1][..j] == head;
    ApplyUpsertsKeys(rows, head, now);
    assert id !in Ids(head) by {
      forall u | u in head ensures u.id != id {
        var i :| 0 <= i < j && head[i] == u;
      }
    }
    assert created[id].channel == us[j].channel;
    assert us == us[..j + 1] + us[j + 1..];
    ApplyUpsertsAppend(rows, us[..j + 1], us[j + 1..], now);
    ApplyUpsertsKeepsChannel(created, us[j + 1..], now, id);
  }

  // ---- Properties of a loader run ----

  /** A run writes exactly the old ids plus the truthy ids it upserted: one row per id. */
  lemma LoadKeys(rows: map<int, Row>, files: seq<SourceFile>, now: Timestamp)
    ensures Load(rows, files, now).Keys == rows.Keys + Ids(RunUpserts(files))
    ensures forall u :: u in RunUpserts(files) ==> u.id != 0 && u.message.id == Some(u.id)
  {
    ApplyUpsertsKeys(rows, RunUpserts(files), now);
    RunUpsertsSound(files);
  }

  /**
   * Every upsert of a run comes from an object, with a truthy id, of a
   * selected file whose root is the upsert's channel.
   */
  lemma {:induction false} RunUpsertsSound(files: seq<SourceFile>)
    ensures forall u :: u in RunUpserts(files) ==>
      && u.id != 0 && u.message.id == Some(u.id)
      && (exists f :: f in files && Selected(f) && u.channel == Root(f.name) &&
                     f.content.Some? && Object(u.message) in f.content.value)
  {
    if files != [] {
      var front := files[..|files| - 1];
      var f := files[|files| - 1];
      RunUpsertsSound(front);
      forall u | u in RunUpserts(files)
        ensures u.id != 0 && u.message.id == Some(u.id)
        ensures exists g :: g in files && Selected(g) && u.channel == Root(g.name) &&
                             g.content.Some? && Object(u.message) in g.content.value
      {
        if u in RunUpserts(front) {
          var g :| g in front && Selected(g) && u.channel == Root(g.name) &&
            g.content.Some? && Object(u.message) in g.content.value;
          assert g in files;
        } else {
          assert u in FileUpserts(f);
          var es := f.content.value;
          ElementUpsertsSound(Root(f.name), es[..FailureIndex(es)]);
          assert Object(u.message) in es;
          assert f in files;
        }
      }
    }
  }

  /**
   * A file with no usable message, or one that is skipped (wrong name,
   * undecodable), changes neither the table nor the counters.
   */
  lemma NoEffectFile(rows: map<int, Row>, files: seq<SourceFile>, f: SourceFile, now: Timestamp)
    requires !Selected(f) || f.content.None? ||
             (forall k :: 0 <= k < |f.content.value| ==> f.content.value[k].Object? && !Truthy(f.content.value[k].message.id))
    ensures Load(rows, files + [f], now) == Load(rows, files, now)
    ensures UpsertedCount(files + [f]) == UpsertedCount(files)
    ensures ProcessedFiles(files + [f]) == ProcessedFiles(files) + (if Completes(f) then 1 else 0)
  {
    var all := files + [f];
    assert all[..|all| - 1] == files;
    if Selected(f) && f.content.Some? {
      var es := f.content.value;
      if forall k :: 0 <= k < |es| ==> es[k].Object? && !Truthy(es[k].message.id) {
        NoTruthyNoUpserts(Root(f.name), es[..FailureIndex(es)]);
      }
    }
    assert RunUpserts(all) == RunUpserts(files) + FileUpserts(f);
    assert FileUpserts(f) == [];
    assert RunUpserts(all) == RunUpserts(files);
  }

  lemma {:induction false} NoTruthyNoUpserts(channel: string, es: seq<Element>)
    requires forall k :: 0 <= k < |es| ==> es[k].Object? && !Truthy(es[k].message.id)
    ensures ElementUpserts(channel, es) == []
  {
    if es != [] {
      NoTruthyNoUpserts(channel, es[..|es| - 1]);
    }
  }

  /** Without a failing element every object with a truthy id is upserted once. */
  lemma {:induction false} ElementUpsertsCount(channel: string, es: seq<Element>)
    ensures |ElementUpserts(channel, es)| == TruthyObjects(es)
  {
    if es != [] {
      var n := |es| - 1;
      var front := es[..n];
      ElementUpsertsCount(channel, front);
      var sf := set j | 0 <= j < |front| && front[j].Object? && Truthy(front[j].message.id);
      var s := set j | 0 <= j < |es| && es[j].Object? && Truthy(es[j].message.id);
      if es[n].Object? && Truthy(es[n].message.id) {
        assert s == sf + {n};
      } else {
        assert s == sf;
      }
    }
  }

  /**
   * `total_messages_upserted` for a file that completes is its number of
   * objects with a truthy id; upserts made by a file that fails part-way
   * are executed but never counted.
   */
  lemma CompletedFileCount(f: SourceFile)
    requires Completes(f)
    ensures |FileUpserts(f)| == TruthyObjects(f.content.value)
  {
    var es := f.content.value;
    assert es[..FailureIndex(es)] == es;
    ElementUpsertsCount(Root(f.name), es);
  }

  lemma {:induction false} CountedAtMostExecuted(files: seq<SourceFile>)
    ensures UpsertedCount(files) <= |RunUpserts(files)|
    ensures (forall f :: f in files && Selected(f) && f.content.Some? ==> Completes(f)) ==>
              UpsertedCount(files) == |RunUpserts(files)|
  {
    if files != [] {
      var front := files[..|files| - 1];
      CountedAtMostExecuted(front);
      assert forall f :: f in front ==> f in files;
    }
  }

  /** The upserts of any one file of a run are among the run's upserts. */
  lemma {:induction false} RunUpsertsHasFile(files: seq<SourceFile>, j: nat)
    requires j < |files|
    ensures forall u :: u in FileUpserts(files[j]) ==> u in RunUpserts(files)
  {
    var front := files[..|files| - 1];
    if j < |files| - 1 {
      RunUpsertsHasFile(front, j);
      assert front[j] == files[j];
    }
  }

  /** Upserting one file into a table without `id` gives `id` that file's stem. */
  lemma FileChannel(base: map<int, Row>, f: SourceFile, now: Timestamp, id: int)
    requires id !in base && id in Ids(FileUpserts(f))
    ensures id in ApplyUpserts(base, FileUpserts(f), now)
    ensures ApplyUpserts(base, FileUpserts(f), now)[id].channel == Root(f.name)
  {
    var us := FileUpserts(f);
    ApplyUpsertsFirstChannel(base, us, now, id);
    var es := f.content.value;
    ElementUpsertsSound(Root(f.name), es[..FailureIndex(es)]);
    assert us[FirstIndex(us, id)] in us;
  }

  /**
   * A new row's `channel_name` is the root of the first file name, in walk
   * order, that upserts its id.
   */
  lemma {:induction false} NewRowChannel(rows: map<int, Row>, files: seq<SourceFile>, now: Timestamp, id: int)
    requires id !in rows && id in Ids(RunUpserts(files))
    ensures exists i :: && 0 <= i < |files| && id in Ids(FileUpserts(files[i]))
                        && (forall j :: 0 <= j < i ==> id !in Ids(FileUpserts(files[j])))
                        && id in Load(rows, files, now)
                        && Load(rows, files, now)[id].channel == Root(files[i].name)
  {
    var n := |files| - 1;
    var front := files[..n];
    var f := files[n];
    var us := FileUpserts(f);
    assert RunUpserts(files) == RunUpserts(front) + us;
    ApplyUpsertsAppend(rows, RunUpserts(front), us, now);
    var base := Load(rows, front, now);
    ApplyUpsertsKeys(rows, RunUpserts(front), now);
    if id in Ids(RunUpserts(front)) {
      NewRowChannel(rows, front, now, id);
      var i :| 0 <= i < |front| && id in Ids(FileUpserts(front[i])) &&
        (forall j :: 0 <= j < i ==> id !in Ids(FileUpserts(front[j]))) &&
        id in base && base[id].channel == Root(front[i].name);
      ApplyUpsertsKeepsChannel(base, us, now, id);
      assert files[i] == front[i];
      assert forall j :: 0 <= j < i ==> files[j] == front[j];
      assert Load(rows, files, now)[id].channel == Root(files[i].name);
    } else {
      assert id in Ids(us);
      assert id !in base;
      FileChannel(base, f, now, id);
      forall j | 0 <= j < n
        ensures id !in Ids(FileUpserts(files[j]))
      {
        RunUpsertsHasFile(front, j);
        assert front[j] == files[j];
      }
      assert Load(rows, files, now)[id].channel == Root(files[n].name);
    }
  }

  /**
   * Replay safety: loading the same files a second time leaves the ids,
   * channel names and raw messages as the first load left them; only
   * `loaded_at` moves. The counters depend on the files alone.
   */
  lemma LoadTwice(rows: map<int, Row>, files: seq<SourceFile>, t1: Timestamp, t2: Timestamp)
    ensures Content(Load(Load(rows, files, t1), files, t2)) == Content(Load(rows, files, t1))
  {
    var us := RunUpserts(files);
    var once := Load(rows, files, t1);
    var twice := Load(once, files, t2);
    ApplyUpsertsKeys(rows, us, t1);
    ApplyUpsertsKeys(once, us, t2);
    forall id | id in once
      ensures id in twice && twice[id].channel == once[id].channel && twice[id].raw == once[id].raw
    {
      ApplyUpsertsKeepsChannel(once, us, t2, id);
      if id in Ids(us) {
        ApplyUpsertsLastWrite(rows, us, t1, id);
        ApplyUpsertsLastWrite(once, us, t2, id);
      } else {
        ApplyUpsertsUntouched(once, us, t2, id);
      }
    }
  }

  /**
   * Within one run, when an id occurs several times, the last occurrence
   * determines `raw_message`.
   */
  lemma LastOccurrenceWins(rows: map<int, Row>, files: seq<SourceFile>, now: Timestamp, id: int)
    requires id in Ids(RunUpserts(files))
    ensures var us := RunUpserts(files);
      var j := LastIndex(us, id);
      && id in Load(rows, files, now)
      && (forall k :: j < k < |us| ==> us[k].id != id)
      && Load(rows, files, now)[id].raw == us[j].message
  {
    ApplyUpsertsLastWrite(rows, RunUpserts(files), now, id);
  }

  /** A selected file holding one object with a truthy id runs exactly one upsert. */
  lemma OneMessageFile(rows: map<int, Row>, name: string, m: Message, now: Timestamp)
    requires EndsWith(name, JsonSuffix) && Truthy(m.id)
    ensures RunUpserts([SourceFile(name, Some([Object(m)]))]) == [Upsert(m.id.value, Root(name), m)]
    ensures Load(rows, [SourceFile(name, Some([Object(m)]))], now) == UpsertRow(rows, Upsert(m.id.value, Root(name), m), now)
  {
    var es := [Object(m)];
    var f := SourceFile(name, Some(es));
    var u := Upsert(m.id.value, Root(name), m);
    assert FailureIndex(es) == 1 by {
      assert es[..0] == [];
    }
    assert es[..1] == es;
    assert ElementUpserts(Root(name), es) == [u] by {
      assert es[..0] == [];
    }
    assert FileUpserts(f) == [u];
    assert [f][..0] == [];
    assert RunUpserts([f]) == [] + [u];
    ApplyUpsertsSnoc(rows, [], u, now);
  }

  /**
   * Loading a file of channel X with message 1, then a file of the same
   * channel with a new version of message 1, leaves one row that holds the
   * new version.
   */
  lemma ExampleReload(now1: Timestamp, now2: Timestamp)
    ensures var v1 := Message(Some(1), "hello");
      var v2 := Message(Some(1), "hello v2");
      var rows := Load(Load(map[], [SourceFile("X.json", Some([Object(v1)]))], now1),
                       [SourceFile("X.json", Some([Object(v2)]))], now2);
      rows == map[1 := Row("X", v2, now2)]
  {
    var name := "X" + JsonSuffix;
    assert name == "X.json";
    assert !AllDots("X") by {
      assert "X"[0] != '.';
    }
    RootOfExtended("X", JsonSuffix);
    assert EndsWith(name, JsonSuffix) by {
      assert name[|name| - |JsonSuffix|..] == JsonSuffix;
    }
    var v1 := Message(Some(1), "hello");
    var v2 := Message(Some(1), "hello v2");
    OneMessageFile(map[], name, v1, now1);
    var rows1 := map[1 := Row("X", v1, now1)];
    assert Load(map[], [SourceFile(name, Some([Object(v1)]))], now1) == rows1;
    OneMessageFile(rows1, name, v2, now2);
  }
}
