/**
 What permanently deleting a dataset does to its files, its stored objects and its records.

 Object keys embed ids of one fixed length, which is why one dataset's keys are never another's. Deletion
 in storage takes effect at once; rows go in one transaction at the end.
 */
module Purge {
  import opened Outcomes

  type Id = string

  /** The length of a UUID in text. */
  const ID_LENGTH := 36

  datatype Location = Location(bucket: string, key: string)

  datatype Processed = Processed(bucket: Option<string>, key: Option<string>, prefix: Option<string>)

  datatype File = File(dataset: Id, at: Location, processed: Processed)
  datatype Record = Record(dataset: Id, file: Option<Id>)

  datatype Error = ForeignKeyViolation

  // ---------------------------------------------------------------- keys

  function RawKey(dataset: Id, file: Id, name: string): string {
    "raw/" + dataset + "/" + file + "_" + name
  }

  function ProcessedKey(dataset: Id, file: Id, extension: string): string {
    "processed/" + dataset + "/" + file + "." + extension
  }

  function ProcessedPrefix(dataset: Id, file: Id): string {
    "processed/" + dataset + "/" + file + ".zarr"
  }

  function SnapshotKey(dataset: Id): string {
    "snapshots/" + dataset + "/snapshot.json"
  }

  /** Keys as they appear in storage. */
  lemma KeysInWords()
    ensures RawKey("d", "f", "tide.csv") == "raw/d/f_tide.csv" && ProcessedKey("d", "f", "parquet") == "processed/d/f.parquet"
    ensures ProcessedPrefix("d", "f") == "processed/d/f.zarr" && SnapshotKey("d") == "snapshots/d/snapshot.json"
  {
  }

  predicate Under(key: string, folder: string, dataset: Id) {
    folder + "/" + dataset + "/" <= key
  }

  /** The key lies in one of the dataset's folders. */
  predicate Owns(dataset: Id, key: string) {
    Under(key, "raw", dataset) || Under(key, "processed", dataset) || Under(key, "snapshots", dataset)
  }

  lemma KeysAreOwned(dataset: Id, file: Id, rest: string)
    ensures Owns(dataset, RawKey(dataset, file, rest))
    ensures Owns(dataset, ProcessedKey(dataset, file, rest))
    ensures Owns(dataset, ProcessedPrefix(dataset, file) + rest)
    ensures Owns(dataset, SnapshotKey(dataset))
  {
    assert RawKey(dataset, file, rest) == ("raw" + "/" + dataset + "/") + (file + "_" + rest);
    assert ProcessedKey(dataset, file, rest) == ("processed" + "/" + dataset + "/") + (file + "." + rest);
    assert ProcessedPrefix(dataset, file) + rest == ("processed" + "/" + dataset + "/") + (file + ".zarr" + rest);
    assert SnapshotKey(dataset) == ("snapshots" + "/" + dataset + "/") + "snapshot.json";
  }

  lemma UnderOne(key: string, folder: string, d: Id, e: Id)
    requires Under(key, folder, d) && Under(key, folder, e) && |d| == |e|
    ensures d == e
  {
    var n := |folder| + 1;
    assert key[n..n + |d|] == (folder + "/" + d + "/")[n..n + |d|] == d;
    assert key[n..n + |e|] == (folder + "/" + e + "/")[n..n + |e|] == e;
  }

  /** No key is owned by two datasets. */
  lemma OwnedByOne(key: string, d: Id, e: Id)
    requires |d| == |e| && Owns(d, key) && Owns(e, key)
    ensures d == e
  {
    forall folder, x | Under(key, folder, x) && folder != "" ensures |key| > 0 && key[0] == folder[0] {
      assert (folder + "/" + x + "/")[0] == folder[0];
    }
    if Under(key, "raw", d) {
      UnderOne(key, "raw", d, e);
    } else if Under(key, "processed", d) {
      UnderOne(key, "processed", d, e);
    } else {
      UnderOne(key, "snapshots", d, e);
    }
  }

  // ---------------------------------------------------------------- what is erased

  /** Where deleting a file's artifacts reaches: a single processed object, or failing that everything under a prefix. */
  predicate Reaches(f: File, l: Location) {
    || l == f.at
    || (f.processed.bucket == Some(l.bucket) && f.processed.bucket != Some("")
        && if f.processed.key.Some? && f.processed.key != Some("") then f.processed.key == Some(l.key)
           else f.processed.prefix.Some? && f.processed.prefix.value != "" && f.processed.prefix.value <= l.key)
  }

  /** The file's keys were built by the functions above, the raw one under the id its upload was given. */
  ghost predicate WellNamed(id: Id, f: File) {
    && |f.dataset| == ID_LENGTH
    && (exists upload, name :: f.at.key == RawKey(f.dataset, upload, name))
    && (f.processed.key.Some? ==> exists extension :: f.processed.key.value == ProcessedKey(f.dataset, id, extension))
    && (f.processed.prefix.Some? ==> f.processed.prefix.value == ProcessedPrefix(f.dataset, id))
  }

  lemma ReachesOnlyItsOwn(id: Id, f: File, l: Location)
    requires WellNamed(id, f) && Reaches(f, l)
    ensures Owns(f.dataset, l.key)
  {
    if l == f.at {
      var upload, name :| f.at.key == RawKey(f.dataset, upload, name);
      KeysAreOwned(f.dataset, upload, name);
    } else if f.processed.key.Some? && f.processed.key != Some("") {
      var extension :| f.processed.key.value == ProcessedKey(f.dataset, id, extension);
      KeysAreOwned(f.dataset, id, extension);
    } else {
      var prefix := f.processed.prefix.value;
      KeysAreOwned(f.dataset, id, l.key[|prefix|..]);
      assert l.key == prefix + l.key[|prefix|..];
    }
  }

  /** The raw object is gone; so is the processed one; and, if there was only a prefix, everything under it. */
  predicate NothingLeft(f: File, objects: set<Location>) {
    && f.at !in objects
    && (f.processed.bucket.Some? && f.processed.bucket.value != "" ==>
          if f.processed.key.Some? && f.processed.key.value != "" then Location(f.processed.bucket.value, f.processed.key.value) !in objects
          else f.processed.prefix.Some? && f.processed.prefix.value != "" ==>
            forall l :: l in objects && l.bucket == f.processed.bucket.value ==> !(f.processed.prefix.value <= l.key))
  }

  lemma ReachedIsNothingLeft(f: File, objects: set<Location>)
    requires forall l :: l in objects ==> !Reaches(f, l)
    ensures NothingLeft(f, objects)
  {
  }

  function FilesOf(files: map<Id, File>, dataset: Id): set<Id> {
    set f | f in files && files[f].dataset == dataset
  }

  predicate IsErased(files: map<Id, File>, dataset: Id, snapshotBucket: string, l: Location) {
    l == Location(snapshotBucket, SnapshotKey(dataset)) || exists f :: f in FilesOf(files, dataset) && Reaches(files[f], l)
  }

  /** Deleting one dataset erases nothing of another, whatever the two store and in whatever buckets. */
  lemma ErasesOnlyItsOwn(files: map<Id, File>, dataset: Id, other: Id, snapshotBucket: string, l: Location)
    requires |dataset| == |other| == ID_LENGTH && dataset != other && Owns(other, l.key)
    requires forall f :: f in files ==> WellNamed(f, files[f])
    ensures !IsErased(files, dataset, snapshotBucket, l)
  {
    if IsErased(files, dataset, snapshotBucket, l) {
      assert Owns(dataset, l.key) by {
        KeysAreOwned(dataset, "", "");
        if f :| f in FilesOf(files, dataset) && Reaches(files[f], l) { ReachesOnlyItsOwn(f, files[f], l); }
      }
      OwnedByOne(l.key, dataset, other);
    }
  }

  // ---------------------------------------------------------------- rows

  /** Every record's file exists. */
  predicate ForeignKeysHold(files: map<Id, File>, records: map<nat, Record>) {
    forall r :: r in records && records[r].file.Some? ==> records[r].file.value in files
  }

  /** Every record belongs to the dataset of its file. */
  predicate RecordsFollowFiles(files: map<Id, File>, records: map<nat, Record>) {
    forall r :: r in records && records[r].file.Some? ==>
      records[r].file.value in files && files[records[r].file.value].dataset == records[r].dataset
  }

  function RecordsElsewhere(records: map<nat, Record>, dataset: Id): map<nat, Record> {
    map r | r in records && records[r].dataset != dataset :: records[r]
  }

  /** A record of another dataset points at one of this dataset's files. */
  predicate PointsIn(files: map<Id, File>, records: map<nat, Record>, dataset: Id, k: nat) {
    k in records && records[k].dataset != dataset && records[k].file.Some? && records[k].file.value in FilesOf(files, dataset)
  }

  class Archive {
    var objects: set<Location>
    var files: map<Id, File>
    var records: map<nat, Record>

    method EraseFile(f: File)
      modifies this`objects
      ensures objects == set l | l in old(objects) && !Reaches(f, l)
      ensures NothingLeft(f, objects)
    {
      objects := objects - {f.at};
      if f.processed.key.Some? && f.processed.key.value != "" && f.processed.bucket.Some? && f.processed.bucket.value != "" {
        objects := objects - {Location(f.processed.bucket.value, f.processed.key.value)};
      } else if f.processed.prefix.Some? && f.processed.prefix.value != "" && f.processed.bucket.Some? && f.processed.bucket.value != "" {
        objects := set l | l in objects && !(l.bucket == f.processed.bucket.value && f.processed.prefix.value <= l.key);
      }
    }

    /**
     Objects first, then records, then the files with the dataset. The rows go together or not at all: they
     stay exactly if a record of another dataset still points at one of the files, and the objects are gone
     all the same.
     */
    method PermanentlyDelete(dataset: Id, snapshotBucket: string) returns (r: Result<(), Error>)
      requires ForeignKeysHold(files, records)
      modifies this
      ensures objects == set l | l in old(objects) && !IsErased(old(files), dataset, snapshotBucket, l)
      ensures forall f :: f in old(files) && old(files)[f].dataset == dataset ==> NothingLeft(old(files)[f], objects)
      ensures Location(snapshotBucket, SnapshotKey(dataset)) !in objects
      ensures forall l :: l in old(objects) && l !in objects ==> IsErased(old(files), dataset, snapshotBucket, l)
      ensures r.Err? <==> exists k :: PointsIn(old(files), old(records), dataset, k)
      ensures r.Ok? ==> files == old(files) - FilesOf(old(files), dataset) && records == RecordsElsewhere(old(records), dataset)
      ensures r.Err? ==> files == old(files) && records == old(records)
      ensures ForeignKeysHold(files, records)
      ensures RecordsFollowFiles(old(files), old(records)) ==> r.Ok? && RecordsFollowFiles(files, records)
    {
      var doomed := FilesOf(files, dataset);
      EraseFiles(doomed);
      objects := objects - {Location(snapshotBucket, SnapshotKey(dataset))};
      forall f | f in old(files) && old(files)[f].dataset == dataset ensures NothingLeft(old(files)[f], objects) {
        assert f in doomed;
        ReachedIsNothingLeft(old(files)[f], objects);
      }
      hide Reaches, RawKey, SnapshotKey, NothingLeft;
      var kept := RecordsElsewhere(records, dataset);
      if exists k :: k in kept && kept[k].file.Some? && kept[k].file.value in doomed {
        ghost var k :| k in kept && kept[k].file.Some? && kept[k].file.value in doomed;
        assert PointsIn(old(files), old(records), dataset, k);
        return Err(ForeignKeyViolation);
      }
      assert forall k :: PointsIn(old(files), old(records), dataset, k) ==> k in kept;
      records := kept;
      files := files - doomed;
      r := Ok(());
    }

    method EraseFiles(doomed: set<Id>)
      requires doomed <= files.Keys
      modifies this`objects
      ensures objects == set l | l in old(objects) && !exists f :: f in doomed && Reaches(files[f], l)
    {
      var left := doomed;
      while left != {}
        invariant left <= doomed
        invariant forall l :: l in objects <==> l in old(objects) && !exists f :: f in doomed - left && Reaches(files[f], l)
        decreases |left|
      {
        hide Reaches;
        var f :| f in left;
        ghost var before, seen := objects, doomed - left;
        EraseFile(files[f]);
        left := left - {f};
        assert doomed - left == seen + {f};
        forall l ensures l in objects <==> l in before && !Reaches(files[f], l) {}
      }
      assert doomed - left == doomed;
    }
  }
}
