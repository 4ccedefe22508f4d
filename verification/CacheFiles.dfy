/**
 The cache files: metadata and bodies at canonical paths that are a function of the body hash, so
 that a name found anywhere in the tree leads to the files of its hash. The key digest is a
 parameter and is not assumed to be injective.
 */
module CacheFiles {
  import opened CacheTypes
  import opened Wrappers

  type Digest = Key -> Hash

  datatype Metadata = Metadata(
    key: Key,
    baseKey: Key,
    kind: EntryKind,
    tags: seq<string>,
    varyNamesParse: bool,
    storedAtMs: nat,
    expiresAtMs: nat,
    requiresRevalidation: Option<bool>,
    mustRevalidate: bool,
    bodySizeBytes: nat)

  datatype MetadataFile = Malformed | Parsed(metadata: Metadata)

  // The canonical files: metadata by hash, and body length by hash.
  datatype Disk = Disk(metadata: map<Hash, MetadataFile>, bodies: map<Hash, nat>)

  // What a directory listing shows: names, not contents.
  datatype DirEntry =
    | Directory(children: seq<DirEntry>)
    | UnreadableDirectory
    | UnreadableEntry
    | MetadataName(hash: Hash)
    | BodyName(hash: Hash)
    | OtherName

  function Removed(disk: Disk, hash: Hash): Disk {
    Disk(disk.metadata - {hash}, disk.bodies - {hash})
  }

  function EntryFrom(hash: Hash, m: Metadata): Entry {
    Entry(
      m.kind,
      hash,
      if m.baseKey == [] then m.key else m.baseKey,
      m.storedAtMs,
      m.tags,
      m.bodySizeBytes,
      m.expiresAtMs,
      if m.requiresRevalidation.Some? then m.requiresRevalidation.value else m.mustRevalidate,
      m.storedAtMs)
  }

  // A hash is loadable when its metadata parses, names a key with that digest, and its
  // body is present with the recorded length.
  function LoadEntry(disk: Disk, digest: Digest, hash: Hash): Option<(Key, Entry)> {
    if hash !in disk.metadata || disk.metadata[hash].Malformed? then None
    else
      var m := disk.metadata[hash].metadata;
      if m.key == [] || digest(m.key) != hash then None
      else if hash !in disk.bodies || disk.bodies[hash] > U64_MAX then None
      else if disk.bodies[hash] != m.bodySizeBytes || !m.varyNamesParse then None
      else Some((m.key, EntryFrom(hash, m)))
  }

  ghost predicate Backed(disk: Disk, digest: Digest, key: Key, entry: Entry) {
    LoadEntry(disk, digest, digest(key)) == Some((key, entry))
  }

  // The metadata names that a scan reaches.
  ghost function Discovered(e: DirEntry): set<Hash> {
    match e
    case Directory(children) => set c, h | c in children && h in Discovered(c) :: h
    case MetadataName(hash) => {hash}
    case _ => {}
  }

  ghost function BodyNames(e: DirEntry): set<Hash> {
    match e
    case Directory(children) => set c, h | c in children && h in BodyNames(c) :: h
    case BodyName(hash) => {hash}
    case _ => {}
  }

  // ----- What being loadable means for the files -----

  ghost predicate HasMetadata(disk: Disk, hash: Hash) {
    hash in disk.metadata && disk.metadata[hash].Parsed?
  }

  ghost function StoredAt(disk: Disk, hash: Hash): nat
    requires HasMetadata(disk, hash)
  {
    disk.metadata[hash].metadata.storedAtMs
  }

  // The metadata parses and names a key of this digest, and the body has the recorded length.
  ghost predicate Usable(disk: Disk, digest: Digest, hash: Hash) {
    && HasMetadata(disk, hash) && hash in disk.bodies
    && var m := disk.metadata[hash].metadata;
       && m.key != [] && digest(m.key) == hash && m.varyNamesParse
       && disk.bodies[hash] == m.bodySizeBytes <= U64_MAX
  }

  // The entry is what the files of its key say.
  ghost predicate OnDisk(disk: Disk, digest: Digest, key: Key, entry: Entry) {
    && Usable(disk, digest, digest(key)) && entry.hash == digest(key)
    && var m := disk.metadata[digest(key)].metadata;
       && m.key == key
       && entry.bodySizeBytes == disk.bodies[digest(key)]
       && entry.storedAtMs == m.storedAtMs && entry.lastAccessMs == m.storedAtMs
       && entry.expiresAtMs == m.expiresAtMs && entry.kind == m.kind && entry.tags == m.tags
       && (m.baseKey != [] ==> entry.baseKey == m.baseKey) && (m.baseKey == [] ==> entry.baseKey == key)
       && (m.requiresRevalidation.Some? ==> entry.requiresRevalidation == m.requiresRevalidation.value)
       && (m.requiresRevalidation.None? ==> entry.requiresRevalidation == m.mustRevalidate)
  }

  lemma BackedIffOnDisk(disk: Disk, digest: Digest, key: Key, entry: Entry)
    ensures Backed(disk, digest, key, entry) <==> OnDisk(disk, digest, key, entry)
  {
  }

  lemma UsableIffLoaded(disk: Disk, digest: Digest, hash: Hash)
    ensures Usable(disk, digest, hash) <==> LoadEntry(disk, digest, hash).Some?
    ensures Usable(disk, digest, hash) ==>
              LoadEntry(disk, digest, hash).value.0 == disk.metadata[hash].metadata.key
  {
  }

  // ----- What a scan does to the files -----

  function ScanDisk(disk: Disk, digest: Digest, e: DirEntry): Disk
    decreases e
  {
    match e
    case Directory(children) => ScanAll(disk, digest, children)
    case MetadataName(hash) => if LoadEntry(disk, digest, hash).None? then Removed(disk, hash) else disk
    case BodyName(hash) => if hash !in disk.metadata then Removed(disk, hash) else disk
    case _ => disk
  }

  function ScanAll(disk: Disk, digest: Digest, children: seq<DirEntry>): Disk
    decreases children
  {
    if children == [] then disk
    else ScanDisk(ScanAll(disk, digest, children[..|children| - 1]), digest, children[|children| - 1])
  }

  lemma ScanAllSteps(disk: Disk, digest: Digest, children: seq<DirEntry>, i: nat)
    requires i < |children|
    ensures ScanAll(disk, digest, children[..i + 1]) == ScanDisk(ScanAll(disk, digest, children[..i]), digest, children[i])
  {
    assert children[..i + 1][..i] == children[..i];
  }

  ghost predicate Gone(disk: Disk, hash: Hash) {
    hash !in disk.metadata && hash !in disk.bodies
  }

  ghost predicate SameFiles(a: Disk, b: Disk, hash: Hash) {
    && (hash in a.metadata <==> hash in b.metadata) && (hash in a.bodies <==> hash in b.bodies)
    && (hash in a.metadata && hash in b.metadata ==> a.metadata[hash] == b.metadata[hash])
    && (hash in a.bodies && hash in b.bodies ==> a.bodies[hash] == b.bodies[hash])
  }

  // The files of a hash stay as they are or go together.
  ghost predicate WholeOrGone(before: Disk, after: Disk) {
    forall h :: SameFiles(before, after, h) || Gone(after, h)
  }

  // What was unusable or an orphan is gone.
  ghost predicate Tidied(before: Disk, after: Disk, digest: Digest, metadata: set<Hash>, bodies: set<Hash>) {
    && WholeOrGone(before, after)
    && (forall h | h in metadata && LoadEntry(before, digest, h).None? :: Gone(after, h))
    && (forall h | h in bodies && h in after.bodies :: h in after.metadata)
  }

  lemma TidiedThen(
      a: Disk, b: Disk, c: Disk, digest: Digest,
      m1: set<Hash>, b1: set<Hash>, m2: set<Hash>, b2: set<Hash>)
    requires Tidied(a, b, digest, m1, b1) && Tidied(b, c, digest, m2, b2)
    ensures Tidied(a, c, digest, m1 + m2, b1 + b2)
  {
    forall h ensures SameFiles(a, c, h) || Gone(c, h) {
      assert SameFiles(a, b, h) || Gone(b, h);
      assert SameFiles(b, c, h) || Gone(c, h);
    }
    forall h | h in m1 + m2 && LoadEntry(a, digest, h).None? ensures Gone(c, h) {
      assert SameFiles(a, b, h) || Gone(b, h);
      assert SameFiles(b, c, h) || Gone(c, h);
    }
    forall h | h in b1 + b2 && h in c.bodies ensures h in c.metadata {
      assert SameFiles(b, c, h) || Gone(c, h);
    }
  }

  lemma {:induction false} ScanTidies(disk: Disk, digest: Digest, e: DirEntry)
    ensures Tidied(disk, ScanDisk(disk, digest, e), digest, Discovered(e), BodyNames(e))
    decreases e
  {
    if e.Directory? {
      ScanAllTidies(disk, digest, e.children);
    }
  }

  lemma {:induction false} ScanAllTidies(disk: Disk, digest: Digest, children: seq<DirEntry>)
    ensures Tidied(disk, ScanAll(disk, digest, children), digest,
                   Discovered(Directory(children)), BodyNames(Directory(children)))
    decreases children
  {
    if children != [] {
      var before, last := children[..|children| - 1], children[|children| - 1];
      var middle := ScanAll(disk, digest, before);
      ScanAllTidies(disk, digest, before);
      ScanTidies(middle, digest, last);
      TidiedThen(disk, middle, ScanDisk(middle, digest, last), digest,
                 Discovered(Directory(before)), BodyNames(Directory(before)), Discovered(last), BodyNames(last));
      NamesOfLast(children);
    }
  }

  lemma NamesOfLast(children: seq<DirEntry>)
    requires children != []
    ensures var before, last := children[..|children| - 1], children[|children| - 1];
            && Discovered(Directory(children)) == Discovered(Directory(before)) + Discovered(last)
            && BodyNames(Directory(children)) == BodyNames(Directory(before)) + BodyNames(last)
  {
    assert children == children[..|children| - 1] + [children[|children| - 1]];
  }

  // ----- What eviction does to the files -----

  ghost function RemovedAll(disk: Disk, digest: Digest, keys: seq<Key>): Disk {
    if keys == [] then disk
    else Removed(RemovedAll(disk, digest, keys[..|keys| - 1]), digest(keys[|keys| - 1]))
  }

  lemma {:induction false} RemovedAllGone(disk: Disk, digest: Digest, keys: seq<Key>)
    ensures WholeOrGone(disk, RemovedAll(disk, digest, keys))
    ensures forall i | 0 <= i < |keys| :: Gone(RemovedAll(disk, digest, keys), digest(keys[i]))
  {
    if keys != [] {
      var before := keys[..|keys| - 1];
      RemovedAllGone(disk, digest, before);
      var d := RemovedAll(disk, digest, before);
      forall h ensures SameFiles(disk, RemovedAll(disk, digest, keys), h) || Gone(RemovedAll(disk, digest, keys), h) {
        assert SameFiles(disk, d, h) || Gone(d, h);
      }
      forall i | 0 <= i < |keys| ensures Gone(RemovedAll(disk, digest, keys), digest(keys[i])) {
        if i < |before| {
          assert Gone(d, digest(before[i]));
        }
      }
    }
  }
}
