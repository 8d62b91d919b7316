/**
 * The image enrichment: every `.jpg` of the image directory is named after
 * the message it belongs to; the object detector's boxes above the
 * confidence threshold are inserted into `raw.image_detections`, whose
 * primary key is `(message_id, detected_object)`, with
 * `ON CONFLICT DO NOTHING`.
 *
 * The detector is a black box: its output for each file is part of the
 * input. The table is a map from the key pair to the stored fact.
 */
module Enrichment {
  import opened Wrappers
  import opened PathNames

  /** The value of `NOW()`: the start time of the run's transaction. */
  type Timestamp = int

  /** The confidence threshold: a box is kept when its confidence exceeds it. */
  const Threshold: real := 0.45

  const ImageSuffix: string := ".jpg"

  /** One box the detector reports: its class name and confidence. */
  datatype Detection = Detection(className: string, confidence: real)

  /**
   * An entry of the image directory: its name and the detector's boxes for
   * it, in the order the results list them (None when the detector raised).
   */
  datatype ImageFile = ImageFile(name: string, detections: Option<seq<Detection>>)

  /** The primary key of `raw.image_detections`. */
  datatype Key = Key(messageId: int, detectedObject: string)

  /** A stored row apart from its key: `confidence_score` and `detected_at`. */
  datatype Fact = Fact(confidence: real, detectedAt: Timestamp)

  /** One executed `INSERT ... ON CONFLICT (message_id, detected_object) DO NOTHING`. */
  datatype Insert = Insert(key: Key, confidence: real)

  predicate Kept(d: Detection) {
    d.confidence > Threshold
  }

  /** `message_id = int(os.path.splitext(image_file)[0])`; None is the ValueError. */
  function ImageMessageId(name: string): Option<int> {
    ParseInt(Root(name))
  }

  /** `image_files`: the directory entries whose name ends in ".jpg", in listing order. */
  function ImageFiles(entries: seq<ImageFile>): seq<ImageFile> {
    if entries == [] then []
    else
      var front := ImageFiles(entries[..|entries| - 1]);
      var e := entries[|entries| - 1];
      if EndsWith(e.name, ImageSuffix) then front + [e] else front
  }

  /** Only `.jpg` entries are considered, and every one of them is. */
  lemma {:induction false} ImageFilesSelects(entries: seq<ImageFile>)
    ensures forall f :: f in ImageFiles(entries) <==> f in entries && EndsWith(f.name, ImageSuffix)
  {
    if entries != [] {
      var front := entries[..|entries| - 1];
      ImageFilesSelects(front);
      assert entries == front + [entries[|entries| - 1]];
    }
  }

  /** The inserts the box loop runs for message `id`: the kept boxes, in order. */
  function DetectionInserts(id: int, ds: seq<Detection>): (r: seq<Insert>)
    ensures |r| <= |ds|
    ensures forall i :: i in r ==> i.key.messageId == id && i.confidence > Threshold
    ensures forall i :: i in r ==> Detection(i.key.detectedObject, i.confidence) in ds
  {
    if ds == [] then []
    else
      var front := DetectionInserts(id, ds[..|ds| - 1]);
      var d := ds[|ds| - 1];
      if Kept(d) then front + [Insert(Key(id, d.className), d.confidence)] else front
  }

  /** The number of boxes of `ds` above the threshold. */
  function KeptCount(ds: seq<Detection>): nat {
    if ds == [] then 0
    else KeptCount(ds[..|ds| - 1]) + (if Kept(ds[|ds| - 1]) then 1 else 0)
  }

  /** One insert per kept box. */
  lemma {:induction false} DetectionInsertsLength(id: int, ds: seq<Detection>)
    ensures |DetectionInserts(id, ds)| == KeptCount(ds)
  {
    if ds != [] {
      DetectionInsertsLength(id, ds[..|ds| - 1]);
    }
  }

  /**
   * Every kept box is inserted, in box order: the box at position `k` is
   * the insert numbered by the kept boxes before it.
   */
  lemma {:induction false} DetectionInsertsKept(id: int, ds: seq<Detection>, k: nat)
    requires k < |ds| && Kept(ds[k])
    ensures KeptCount(ds[..k]) < |DetectionInserts(id, ds)|
    ensures DetectionInserts(id, ds)[KeptCount(ds[..k])] == Insert(Key(id, ds[k].className), ds[k].confidence)
  {
    var front := ds[..|ds| - 1];
    if k == |ds| - 1 {
      DetectionInsertsLength(id, front);
    } else {
      DetectionInsertsKept(id, front, k);
      assert front[..k] == ds[..k];
    }
  }

  /** The inserts of one image file, or None when its name or the detector raises. */
  function FileInserts(f: ImageFile): Option<seq<Insert>> {
    match ImageMessageId(f.name)
    case None => None
    case Some(id) =>
      match f.detections
      case None => None
      case Some(ds) => Some(DetectionInserts(id, ds))
  }

  /** Every insert of a run over `files`, or None when some file raises. */
  function RunInserts(files: seq<ImageFile>): Option<seq<Insert>> {
    if files == [] then Some([])
    else
      match RunInserts(files[..|files| - 1])
      case None => None
      case Some(front) =>
        match FileInserts(files[|files| - 1])
        case None => None
        case Some(last) => Some(front + last)
  }

  /** The insert-or-ignore write: an existing row is never touched. */
  function InsertIgnore(facts: map<Key, Fact>, i: Insert, now: Timestamp): map<Key, Fact> {
    if i.key in facts then facts else facts[i.key := Fact(i.confidence, now)]
  }

  function ApplyInserts(facts: map<Key, Fact>, ins: seq<Insert>, now: Timestamp): map<Key, Fact> {
    if ins == [] then facts
    else InsertIgnore(ApplyInserts(facts, ins[..|ins| - 1], now), ins[|ins| - 1], now)
  }

  /**
   * The committed table after a run: all inserts when every file went
   * through; otherwise the exception skips `conn.commit()` and closing the
   * connection discards the transaction.
   */
  function Enrich(facts: map<Key, Fact>, entries: seq<ImageFile>, now: Timestamp): map<Key, Fact> {
    match RunInserts(ImageFiles(entries))
    case None => facts
    case Some(ins) => ApplyInserts(facts, ins, now)
  }

  function Keys(ins: seq<Insert>): set<Key> {
    set i | i in ins :: i.key
  }

  /** The position of the first insert of `key`. */
  function FirstIndex(ins: seq<Insert>, key: Key): (j: nat)
    requires key in Keys(ins)
    ensures j < |ins| && ins[j].key == key
    ensures forall k :: 0 <= k < j ==> ins[k].key != key
  {
    if ins[0].key == key then 0
    else
      assert key in Keys(ins[1..]) by {
        var x :| x in ins && x.key == key;
        var i :| 0 <= i < |ins| && ins[i] == x;
        assert ins[1..][i - 1] == x;
      }
      1 + FirstIndex(ins[1..], key)
  }

  class DetectionStore {
    /** The committed content of `raw.image_detections`. */
    var facts: map<Key, Fact>

    constructor (initial: map<Key, Fact>)
      ensures facts == initial
    {
      facts := initial;
    }

    /**
     * `enrich_images`: for each `.jpg` entry, parse the message id from the
     * name, then insert every box above the threshold, ignoring conflicts;
     * commit at the end. Returns whether the commit was reached.
     */
    method EnrichImages(entries: seq<ImageFile>, now: Timestamp) returns (committed: bool)
      modifies this
      ensures committed <==> RunInserts(ImageFiles(entries)).Some?
      ensures facts == Enrich(old(facts), entries, now)
    {
      var imageFiles := ImageFiles(entries);
      var pending := facts;
      ghost var done: seq<Insert> := [];
      for i := 0 to |imageFiles|
        invariant facts == old(facts)
        invariant RunInserts(imageFiles[..i]) == Some(done)
        invariant pending == ApplyInserts(facts, done, now)
      {
        var f := imageFiles[i];
        var messageId := ImageMessageId(f.name);
        if messageId.None? || f.detections.None? {
          RunInsertsStopsAt(imageFiles, i);
          return false;
        }
        var ins := DetectionInserts(messageId.value, f.detections.value);
        pending := InsertDetections(pending, messageId.value, f.detections.value, now);
        RunInsertsStep(imageFiles, i, done, messageId.value);
        ApplyInsertsAppend(facts, done, ins, now);
        done := done + ins;
      }
      assert imageFiles[..|imageFiles|] == imageFiles;
      facts := pending;
      committed := true;
    }
  }

  /**
   * The loop over one image's boxes, inside the open transaction `pending`:
   * each box above the threshold is inserted unless its pair is present.
   */
  method InsertDetections(pending: map<Key, Fact>, id: int, ds: seq<Detection>, now: Timestamp)
    returns (after: map<Key, Fact>)
    ensures after == ApplyInserts(pending, DetectionInserts(id, ds), now)
  {
    after := pending;
    for j := 0 to |ds|
      invariant after == ApplyInserts(pending, DetectionInserts(id, ds[..j]), now)
    {
      assert ds[..j + 1][..j] == ds[..j];
      if ds[j].confidence > Threshold {
        var key := Key(id, ds[j].className);
        if key !in after {
          after := after[key := Fact(ds[j].confidence, now)];
        }
      }
    }
    assert ds[..|ds|] == ds;
  }

  /** Executing `a` then `b` is executing `a + b`. */
  lemma {:induction false} ApplyInsertsAppend(facts: map<Key, Fact>, a: seq<Insert>, b: seq<Insert>, now: Timestamp)
    ensures ApplyInserts(facts, a + b, now) == ApplyInserts(ApplyInserts(facts, a, now), b, now)
  {
    if b != [] {
      var ab := a + b;
      assert ab[..|ab| - 1] == a + b[..|b| - 1];
      assert ab[|ab| - 1] == b[|b| - 1];
      ApplyInsertsAppend(facts, a, b[..|b| - 1], now);
    } else {
      assert a + b == a;
    }
  }

  /** A file whose name parses and whose detector returned appends its inserts to the run's. */
  lemma RunInsertsStep(files: seq<ImageFile>, i: nat, done: seq<Insert>, id: int)
    requires i < |files| && RunInserts(files[..i]) == Some(done)
    requires ImageMessageId(files[i].name) == Some(id) && files[i].detections.Some?
    ensures RunInserts(files[..i + 1]) == Some(done + DetectionInserts(id, files[i].detections.value))
  {
    assert files[..i + 1][..i] == files[..i];
  }

  /** A file whose name or detector raises makes the whole run raise. */
  lemma RunInsertsStopsAt(files: seq<ImageFile>, i: nat)
    requires i < |files| && RunInserts(files[..i]).Some?
    requires ImageMessageId(files[i].name).None? || files[i].detections.None?
    ensures RunInserts(files).None?
  {
    assert files[..i + 1][..i] == files[..i];
    RunInsertsNoneExtends(files, i + 1);
  }

  /** Once some prefix raises, the whole run raises. */
  lemma {:induction false} RunInsertsNoneExtends(files: seq<ImageFile>, n: nat)
    requires n <= |files| && RunInserts(files[..n]).None?
    ensures RunInserts(files).None?
    decreases |files| - n
  {
    if n < |files| {
      assert files[..n + 1][..n] == files[..n];
      RunInsertsNoneExtends(files, n + 1);
    } else {
      assert files[..n] == files;
    }
  }

  /** In a run that raises nowhere, every image's inserts are among the run's. */
  lemma {:induction false} RunInsertsContains(files: seq<ImageFile>, i: nat)
    requires RunInserts(files).Some? && i < |files|
    ensures FileInserts(files[i]).Some?
    ensures forall x :: x in FileInserts(files[i]).value ==> x in RunInserts(files).value
  {
    var front := files[..|files| - 1];
    if i < |files| - 1 {
      RunInsertsContains(front, i);
      assert front[i] == files[i];
    }
  }

  // ---- Properties of insert-or-ignore ----

  /** Enrichment is monotonic: every row present before is present after, unchanged. */
  lemma {:induction false} ApplyInsertsKeepsRows(facts: map<Key, Fact>, ins: seq<Insert>, now: Timestamp)
    ensures forall k :: k in facts ==> k in ApplyInserts(facts, ins, now) && ApplyInserts(facts, ins, now)[k] == facts[k]
  {
    if ins != [] {
      ApplyInsertsKeepsRows(facts, ins[..|ins| - 1], now);
    }
  }

  /** The keys after a run: the old ones plus one per inserted pair. */
  lemma {:induction false} ApplyInsertsKeys(facts: map<Key, Fact>, ins: seq<Insert>, now: Timestamp)
    ensures ApplyInserts(facts, ins, now).Keys == facts.Keys + Keys(ins)
  {
    if ins != [] {
      var front := ins[..|ins| - 1];
      ApplyInsertsKeys(facts, front, now);
      assert ins == front + [ins[|ins| - 1]];
      assert Keys(ins) == Keys(front) + {ins[|ins| - 1].key};
    }
  }

  /** First write wins: a new pair keeps the confidence of its first insert. */
  lemma ApplyInsertsFirstWrite(facts: map<Key, Fact>, ins: seq<Insert>, now: Timestamp, key: Key)
    requires key !in facts && key in Keys(ins)
    ensures key in ApplyInserts(facts, ins, now)
    ensures ApplyInserts(facts, ins, now)[key] == Fact(ins[FirstIndex(ins, key)].confidence, now)
  {
    var j := FirstIndex(ins, key);
    var head := ins[..j];
    var created := ApplyInserts(facts, ins[..j + 1], now);
    assert ins[..j + 1][..j] == head;
    ApplyInsertsKeys(facts, head, now);
    assert key !in Keys(head) by {
      forall x | x in head ensures x.key != key {
        var i :| 0 <= i < j && head[i] == x;
      }
    }
    assert created[key] == Fact(ins[j].confidence, now);
    assert ins == ins[..j + 1] + ins[j + 1..];
    ApplyInsertsAppend(facts, ins[..j + 1], ins[j + 1..], now);
    ApplyInsertsKeepsRows(created, ins[j + 1..], now);
  }

  /** Inserting keys that are all present already changes nothing. */
  lemma {:induction false} ApplyInsertsPresent(facts: map<Key, Fact>, ins: seq<Insert>, now: Timestamp)
    requires Keys(ins) <= facts.Keys
    ensures ApplyInserts(facts, ins, now) == facts
  {
    if ins != [] {
      var front := ins[..|ins| - 1];
      assert Keys(front) <= Keys(ins);
      ApplyInsertsPresent(facts, front, now);
      assert ins[|ins| - 1] in ins;
    }
  }

  // ---- Properties of a run ----

  /** A row that a run adds has a kept confidence, strictly above 0.45. */
  lemma {:induction false} RunInsertsAboveThreshold(files: seq<ImageFile>)
    requires RunInserts(files).Some?
    ensures forall i :: i in RunInserts(files).value ==> i.confidence > Threshold
  {
    if files != [] {
      RunInsertsAboveThreshold(files[..|files| - 1]);
    }
  }

  /**
   * Every insert of a completing run comes from a kept box of one of its
   * images, under the message id the image's name parses to.
   */
  lemma {:induction false} RunInsertsSound(files: seq<ImageFile>)
    requires RunInserts(files).Some?
    ensures forall x :: x in RunInserts(files).value ==>
      && x.confidence > Threshold
      && (exists f :: f in files && ImageMessageId(f.name) == Some(x.key.messageId) && f.detections.Some? &&
                      Detection(x.key.detectedObject, x.confidence) in f.detections.value)
  {
    if files != [] {
      var front := files[..|files| - 1];
      var f := files[|files| - 1];
      RunInsertsSound(front);
      forall x | x in RunInserts(files).value
        ensures x.confidence > Threshold
        ensures exists g :: g in files && ImageMessageId(g.name) == Some(x.key.messageId) && g.detections.Some? &&
                            Detection(x.key.detectedObject, x.confidence) in g.detections.value
      {
        if x in RunInserts(front).value {
          var g :| g in front && ImageMessageId(g.name) == Some(x.key.messageId) && g.detections.Some? &&
                   Detection(x.key.detectedObject, x.confidence) in g.detections.value;
          assert g in files;
        } else {
          assert x in FileInserts(f).value;
          assert f in files;
        }
      }
    }
  }

  /**
   * Every row a run adds comes from a kept box: a `.jpg` entry whose stem
   * is the row's message id has a box of the row's class with the row's
   * confidence, above the threshold; the row is stamped `now`.
   */
  lemma OnlyKeptRowsAdded(facts: map<Key, Fact>, entries: seq<ImageFile>, now: Timestamp)
    ensures forall k :: k in Enrich(facts, entries, now) && k !in facts ==>
      && Enrich(facts, entries, now)[k].confidence > Threshold
      && Enrich(facts, entries, now)[k].detectedAt == now
      && (exists f :: f in entries && EndsWith(f.name, ImageSuffix) &&
                      ImageMessageId(f.name) == Some(k.messageId) && f.detections.Some? &&
                      Detection(k.detectedObject, Enrich(facts, entries, now)[k].confidence) in f.detections.value)
  {
    var files := ImageFiles(entries);
    var r := RunInserts(files);
    if r.Some? {
      var ins := r.value;
      RunInsertsSound(files);
      ImageFilesSelects(entries);
      ApplyInsertsKeys(facts, ins, now);
      forall k | k in ApplyInserts(facts, ins, now) && k !in facts
        ensures ApplyInserts(facts, ins, now)[k].confidence > Threshold && ApplyInserts(facts, ins, now)[k].detectedAt == now
        ensures exists f :: f in entries && EndsWith(f.name, ImageSuffix) &&
                            ImageMessageId(f.name) == Some(k.messageId) && f.detections.Some? &&
                            Detection(k.detectedObject, ApplyInserts(facts, ins, now)[k].confidence) in f.detections.value
      {
        ApplyInsertsFirstWrite(facts, ins, now, k);
        var x := ins[FirstIndex(ins, k)];
        assert x in ins;
        var f :| f in files && ImageMessageId(f.name) == Some(x.key.messageId) && f.detections.Some? &&
                 Detection(x.key.detectedObject, x.confidence) in f.detections.value;
        assert f in entries && EndsWith(f.name, ImageSuffix);
      }
    }
  }

  /** The table after a run is a superset of the table before it, row for row. */
  lemma EnrichMonotonic(facts: map<Key, Fact>, entries: seq<ImageFile>, now: Timestamp)
    ensures forall k :: k in facts ==> k in Enrich(facts, entries, now) && Enrich(facts, entries, now)[k] == facts[k]
  {
    var r := RunInserts(ImageFiles(entries));
    if r.Some? {
      ApplyInsertsKeepsRows(facts, r.value, now);
    }
  }

  /** A kept box of an image whose name parses is among that image's inserts. */
  lemma KeptBoxInserted(f: ImageFile, id: int, ds: seq<Detection>, k: nat) returns (x: Insert)
    requires ImageMessageId(f.name) == Some(id) && f.detections == Some(ds)
    requires k < |ds| && Kept(ds[k])
    ensures x == Insert(Key(id, ds[k].className), ds[k].confidence)
    ensures FileInserts(f).Some? && x in FileInserts(f).value
  {
    DetectionInsertsKept(id, ds, k);
    x := Insert(Key(id, ds[k].className), ds[k].confidence);
  }

  /** Every kept box of an image in a committed run is among the run's inserts. */
  lemma KeptBoxInRun(files: seq<ImageFile>, i: nat, id: int, ds: seq<Detection>, k: nat)
    requires RunInserts(files).Some? && i < |files|
    requires ImageMessageId(files[i].name) == Some(id) && files[i].detections == Some(ds)
    requires k < |ds| && Kept(ds[k])
    ensures Insert(Key(id, ds[k].className), ds[k].confidence) in RunInserts(files).value
  {
    var x := KeptBoxInserted(files[i], id, ds, k);
    RunInsertsContains(files, i);
  }

  /**
   * A committed run holds a row for every pair of a kept box: a pair that
   * was new gets the confidence of its first kept box, in listing order and
   * then box order; a pair already present keeps its row.
   */
  lemma EnrichStoresKeptBoxes(facts: map<Key, Fact>, entries: seq<ImageFile>, now: Timestamp,
                              i: nat, id: int, ds: seq<Detection>, k: nat)
    requires RunInserts(ImageFiles(entries)).Some? && i < |ImageFiles(entries)|
    requires ImageMessageId(ImageFiles(entries)[i].name) == Some(id)
    requires ImageFiles(entries)[i].detections == Some(ds)
    requires k < |ds| && Kept(ds[k])
    ensures var key := Key(id, ds[k].className);
      var ins := RunInserts(ImageFiles(entries)).value;
      && key in Keys(ins)
      && key in Enrich(facts, entries, now)
      && (key in facts ==> Enrich(facts, entries, now)[key] == facts[key])
      && (key !in facts ==> Enrich(facts, entries, now)[key] == Fact(ins[FirstIndex(ins, key)].confidence, now))
  {
    var files := ImageFiles(entries);
    var ins := RunInserts(files).value;
    var key := Key(id, ds[k].className);
    KeptBoxInRun(files, i, id, ds, k);
    assert key in Keys(ins);
    ApplyInsertsKeys(facts, ins, now);
    if key in facts {
      ApplyInsertsKeepsRows(facts, ins, now);
    } else {
      ApplyInsertsFirstWrite(facts, ins, now, key);
    }
  }

  /** Re-running over the same images with the same detector output adds and changes nothing. */
  lemma EnrichRerun(facts: map<Key, Fact>, entries: seq<ImageFile>, t1: Timestamp, t2: Timestamp)
    ensures Enrich(Enrich(facts, entries, t1), entries, t2) == Enrich(facts, entries, t1)
  {
    var r := RunInserts(ImageFiles(entries));
    if r.Some? {
      ApplyInsertsKeys(facts, r.value, t1);
      ApplyInsertsPresent(Enrich(facts, entries, t1), r.value, t2);
    }
  }

  /**
   * One `.jpg` whose name is not an integer, or whose detector raises,
   * discards the whole run: nothing is committed, not even the rows of the
   * images before it.
   */
  lemma FailingImageDiscardsRun(facts: map<Key, Fact>, entries: seq<ImageFile>, now: Timestamp, k: nat)
    requires k < |entries| && EndsWith(entries[k].name, ImageSuffix)
    requires ImageMessageId(entries[k].name).None? || entries[k].detections.None?
    ensures Enrich(facts, entries, now) == facts
  {
    var files := ImageFiles(entries);
    ImageFilesSelects(entries);
    assert entries[k] in files;
    var i :| 0 <= i < |files| && files[i] == entries[k];
    if RunInserts(files[..i]).Some? {
      RunInsertsStopsAt(files, i);
    } else {
      RunInsertsNoneExtends(files, i);
    }
  }

  /** The inserts of a run over one image whose name carries message id `id`. */
  lemma SingleImageInserts(name: string, id: int, ds: seq<Detection>)
    requires EndsWith(name, ImageSuffix) && ImageMessageId(name) == Some(id)
    ensures RunInserts(ImageFiles([ImageFile(name, Some(ds))])) == Some(DetectionInserts(id, ds))
  {
    var f := ImageFile(name, Some(ds));
    var ins := DetectionInserts(id, ds);
    assert [f][..0] == [];
    assert ImageFiles([f]) == [f];
    assert FileInserts(f) == Some(ins);
    assert [] + ins == ins;
  }

  /** A run over one image whose name carries message id `id` applies that image's kept boxes. */
  lemma SingleImage(facts: map<Key, Fact>, name: string, id: int, ds: seq<Detection>, now: Timestamp)
    requires EndsWith(name, ImageSuffix) && ImageMessageId(name) == Some(id)
    ensures Enrich(facts, [ImageFile(name, Some(ds))], now) == ApplyInserts(facts, DetectionInserts(id, ds), now)
  {
    SingleImageInserts(name, id, ds);
  }

  /**
   * Two boxes of one class in one image: only the first is stored, even
   * when the second is more confident.
   */
  lemma SameClassTwice(facts: map<Key, Fact>, name: string, id: int, className: string, c1: real, c2: real, now: Timestamp)
    requires EndsWith(name, ImageSuffix) && ImageMessageId(name) == Some(id)
    requires Key(id, className) !in facts && c1 > Threshold && c2 > Threshold
    ensures Enrich(facts, [ImageFile(name, Some([Detection(className, c1), Detection(className, c2)]))], now)
      == facts[Key(id, className) := Fact(c1, now)]
  {
    var ds := [Detection(className, c1), Detection(className, c2)];
    SingleImage(facts, name, id, ds, now);
    assert ds[..1] == [Detection(className, c1)];
    assert ds[..1][..0] == [];
    var first := Insert(Key(id, className), c1);
    assert DetectionInserts(id, ds[..1]) == [first];
    var ins := DetectionInserts(id, ds);
    assert ins == [first, Insert(Key(id, className), c2)];
    assert ins[..1] == [first];
    assert ins[..1][..0] == [];
    var once := facts[Key(id, className) := Fact(c1, now)];
    assert ApplyInserts(facts, [first], now) == once;
    assert ApplyInserts(facts, ins, now) == InsertIgnore(once, Insert(Key(id, className), c2), now);
  }

  /**
   * The scraper names an image after its message id (`f"{message.id}.jpg"`);
   * reading the id back from that name gives the same id.
   */
  lemma ScraperImageName(id: int)
    ensures EndsWith(Decimal(id) + ImageSuffix, ImageSuffix)
    ensures ImageMessageId(Decimal(id) + ImageSuffix) == Some(id)
  {
    var s := Decimal(id);
    var name := s + ImageSuffix;
    assert name[|name| - |ImageSuffix|..] == ImageSuffix;
    NaturalDigits(if id < 0 then -id else id);
    assert !AllDots(s) by {
      assert s[|s| - 1] != '.';
    }
    RootOfExtended(s, ImageSuffix);
    ParseDecimal(id);
  }

  /**
   * A worked example: message 7 with boxes ("box", 0.9) and
   * ("bag", 0.3) gets exactly one row, ("box", 0.9).
   */
  lemma ExampleMessageSeven(now: Timestamp)
    ensures Enrich(map[], [ImageFile(Decimal(7) + ImageSuffix, Some([Detection("box", 0.9), Detection("bag", 0.3)]))], now)
      == map[Key(7, "box") := Fact(0.9, now)]
  {
    var ds := [Detection("box", 0.9), Detection("bag", 0.3)];
    ScraperImageName(7);
    SingleImage(map[], Decimal(7) + ImageSuffix, 7, ds, now);
    assert ds[..1] == [Detection("box", 0.9)];
    assert ds[..1][..0] == [];
    var ins := [Insert(Key(7, "box"), 0.9)];
    assert DetectionInserts(7, ds) == ins;
    assert ins[..0] == [];
  }

  /**
   * An image directory holding `7.jpg` and `cat.jpg`: `int("cat")` raises,
   * so the box found in message 7's image is not stored either.
   */
  lemma ExampleNonNumericName(facts: map<Key, Fact>, now: Timestamp)
    ensures Enrich(facts, [ImageFile(Decimal(7) + ImageSuffix, Some([Detection("box", 0.9)])),
                           ImageFile("cat.jpg", Some([]))], now) == facts
  {
    var name := "cat" + ImageSuffix;
    assert name == "cat.jpg";
    assert name[|name| - |ImageSuffix|..] == ImageSuffix;
    assert !AllDots("cat") by {
      assert "cat"[2] != '.';
    }
    RootOfExtended("cat", ImageSuffix);
    ParseIntRejects("cat", 0);
    var entries := [ImageFile(Decimal(7) + ImageSuffix, Some([Detection("box", 0.9)])), ImageFile(name, Some([]))];
    FailingImageDiscardsRun(facts, entries, now, 1);
  }
}
