// Named snapshots: two files each, written one after the other into one directory.
module Snapshots {
  import opened Bytes
  import opened Values
  import opened IndexState

  datatype SnapshotMetadata = SnapshotMetadata(name: Text, lastSequence: nat, documentCount: nat, checksum: u32)

  datatype SnapshotError = InvalidName | SnapshotNotFound | MalformedFile | ChecksumMismatch

  datatype SnapshotFile = DataFile(snapshot: Snapshot) | MetadataFile(metadata: SnapshotMetadata)

  const JSON_SUFFIX: Text := [46, 106, 115, 111, 110]
  const META_SUFFIX: Text := [46, 109, 101, 116, 97]

  predicate IsValidName(name: Text) {
    name != [] && name != [46] && name != [46, 46] && 47 !in name && 92 !in name
  }

  /** A valid name is a single component of a path that does not name the directory itself or the one above it. */
  lemma ValidNameExactlyWhen(name: Text)
    ensures IsValidName(name) <==>
              && (forall k :: 0 <= k < |name| ==> name[k] != 47 && name[k] != 92)
              && (|name| > 2 || exists k :: 0 <= k < |name| && name[k] != 46)
  {
    if |name| == 1 {
      assert name == [name[0]];
    } else if |name| == 2 {
      assert name == [name[0], name[1]];
    }
  }

  function DataPath(name: Text): Text {
    name + JSON_SUFFIX
  }

  function MetadataPath(name: Text): Text {
    (name + META_SUFFIX) + JSON_SUFFIX
  }

  function MetadataOf(name: Text, snapshot: Snapshot, checksum: Snapshot -> u32): SnapshotMetadata {
    SnapshotMetadata(name, snapshot.lastSequence, |snapshot.documents|, checksum(snapshot))
  }

  function WithData(files: map<Text, SnapshotFile>, name: Text, snapshot: Snapshot): map<Text, SnapshotFile> {
    files[DataPath(name) := DataFile(snapshot)]
  }

  function Written(files: map<Text, SnapshotFile>, name: Text, snapshot: Snapshot, checksum: Snapshot -> u32)
    : map<Text, SnapshotFile>
  {
    WithData(files, name, snapshot)[MetadataPath(name) := MetadataFile(MetadataOf(name, snapshot, checksum))]
  }

  /** A snapshot with its metadata, as a restore reads them. */
  function ReadNamed(files: map<Text, SnapshotFile>, name: Text, checksum: Snapshot -> u32)
    : Result<(Snapshot, SnapshotMetadata), SnapshotError>
  {
    if !IsValidName(name) then Err(InvalidName)
    else if DataPath(name) !in files then Err(SnapshotNotFound)
    else if !files[DataPath(name)].DataFile? then Err(MalformedFile)
    else if MetadataPath(name) !in files then Err(SnapshotNotFound)
    else if !files[MetadataPath(name)].MetadataFile? then Err(MalformedFile)
    else
      var snapshot, metadata := files[DataPath(name)].snapshot, files[MetadataPath(name)].metadata;
      if checksum(snapshot) != metadata.checksum then Err(ChecksumMismatch) else Ok((snapshot, metadata))
  }

  lemma SuffixIsUnique<T>(a: seq<T>, b: seq<T>, suffix: seq<T>)
    ensures a + suffix == b + suffix <==> a == b
  {
    if a + suffix == b + suffix {
      assert a == (a + suffix)[..|a|] && b == (b + suffix)[..|b|];
    }
  }

  lemma PathsOfOne(name: Text)
    ensures DataPath(name) != MetadataPath(name)
  {
    SuffixIsUnique(name, name + META_SUFFIX, JSON_SUFFIX);
    assert |name| != |name + META_SUFFIX|;
  }

  /** The files of two snapshots are apart unless the name of one is the other's with `.meta` behind it. */
  lemma PathsOfTwo(name: Text, other: Text)
    ensures DataPath(name) == DataPath(other) <==> name == other
    ensures MetadataPath(name) == MetadataPath(other) <==> name == other
    ensures DataPath(name) == MetadataPath(other) <==> name == other + META_SUFFIX
  {
    SuffixIsUnique(name, other, JSON_SUFFIX);
    SuffixIsUnique(name, other, META_SUFFIX);
    SuffixIsUnique(name + META_SUFFIX, other + META_SUFFIX, JSON_SUFFIX);
    SuffixIsUnique(name, other + META_SUFFIX, JSON_SUFFIX);
  }

  /** A snapshot just created is read back as it was. */
  lemma WrittenReadsBack(files: map<Text, SnapshotFile>, name: Text, snapshot: Snapshot, checksum: Snapshot -> u32)
    requires IsValidName(name)
    ensures ReadNamed(Written(files, name, snapshot, checksum), name, checksum)
         == Ok((snapshot, MetadataOf(name, snapshot, checksum)))
  {
    PathsOfOne(name);
  }

  /** Creating another snapshot leaves a readable one as it is exactly when neither name is the other's with
      `.meta` behind it; otherwise the older one cannot be restored any more. */
  lemma OtherIsKeptExactlyWhen(files: map<Text, SnapshotFile>, name: Text, other: Text, snapshot: Snapshot,
                               checksum: Snapshot -> u32)
    requires name != other && ReadNamed(files, name, checksum).Ok?
    ensures var after := ReadNamed(Written(files, other, snapshot, checksum), name, checksum);
            var apart := name != other + META_SUFFIX && other != name + META_SUFFIX;
            && (apart ==> after == ReadNamed(files, name, checksum))
            && (!apart ==> after == Err(MalformedFile))
  {
    PathsOfOne(name);
    PathsOfTwo(name, other);
    PathsOfTwo(other, name);
  }

  /** A snapshot created again under its name and interrupted between its two files: it can still be
      restored exactly when both contents have the same checksum. */
  lemma HalfWrittenReadsExactlyWhen(files: map<Text, SnapshotFile>, name: Text, snapshot: Snapshot,
                                    checksum: Snapshot -> u32)
    requires ReadNamed(files, name, checksum).Ok?
    ensures ReadNamed(WithData(files, name, snapshot), name, checksum).Ok?
       <==> checksum(snapshot) == checksum(ReadNamed(files, name, checksum).value.0)
  {
    PathsOfOne(name);
  }
}
