/** The file-record store the services read and write (FileRepository), with
    the queries they issue: by id, and by stored filename. */
module FileRepositories {
  import opened Common
  import opened Entities

  /** The earliest id in [from, bound) whose record has the given filename: the
      record a findOne by filename returns when records are kept in insertion order. */
  function FirstNamed(files: map<FileId, FileRecord>, name: string, from: nat, bound: nat): (r: Option<FileId>)
    decreases bound - from
    ensures r.Some? ==> from <= r.value < bound && r.value in files && files[r.value].filename == name
    ensures r.Some? ==> forall id :: from <= id < r.value && id in files ==> files[id].filename != name
    ensures r.None? <==> forall id :: from <= id < bound && id in files ==> files[id].filename != name
  {
    if from >= bound then None
    else if from in files && files[from].filename == name then Some(from)
    else FirstNamed(files, name, from + 1, bound)
  }

  /** The ids stored so far are below the counter and each record carries its own id. */
  predicate WellKeyed(files: map<FileId, FileRecord>, nextId: nat) {
    forall id :: id in files ==> id < nextId && files[id].id == id
  }

  /** findByFilename on a store whose ids are below nextId. */
  function Named(files: map<FileId, FileRecord>, nextId: nat, name: string): (r: Option<FileId>)
    requires WellKeyed(files, nextId)
    ensures r.Some? ==> r.value in files && files[r.value].filename == name
    ensures r.None? <==> forall id :: id in files ==> files[id].filename != name
    ensures r.Some? ==> forall id :: id in files && id < r.value ==> files[id].filename != name
  {
    FirstNamed(files, name, 0, nextId)
  }

  /** The store after findByFilename(name).ifPresent(delete). */
  function WithoutNamed(files: map<FileId, FileRecord>, nextId: nat, name: string): (r: map<FileId, FileRecord>)
    requires WellKeyed(files, nextId)
    ensures WellKeyed(r, nextId)
    ensures r.Keys <= files.Keys && forall id :: id in r ==> r[id] == files[id]
    ensures |files.Keys - r.Keys| <= 1
    ensures forall id :: id in files && id !in r ==> files[id].filename == name
    ensures Named(files, nextId, name).None? ==> r == files
    ensures Named(files, nextId, name).Some? ==> r == files - {Named(files, nextId, name).value}
  {
    match Named(files, nextId, name)
    case None => files
    case Some(id) =>
      assert files.Keys - (files - {id}).Keys == {id};
      files - {id}
  }

  /** No two records share a stored filename. */
  predicate UniqueFilenames(files: map<FileId, FileRecord>) {
    forall i, j :: i in files && j in files && files[i].filename == files[j].filename ==> i == j
  }

  /** No stored filename contains '/'. */
  predicate SlashFree(files: map<FileId, FileRecord>) {
    forall id :: id in files ==> '/' !in files[id].filename
  }

  /** With unique filenames the named record is the only one, so removing it by
      name a second time removes nothing. */
  lemma WithoutNamedIdempotent(files: map<FileId, FileRecord>, nextId: nat, name: string)
    requires WellKeyed(files, nextId) && UniqueFilenames(files)
    ensures WithoutNamed(WithoutNamed(files, nextId, name), nextId, name) == WithoutNamed(files, nextId, name)
  {
    var once := WithoutNamed(files, nextId, name);
    if Named(files, nextId, name).Some? {
      var id := Named(files, nextId, name).value;
      forall k | k in once ensures once[k].filename != name {
        assert k != id;
      }
    }
    assert Named(once, nextId, name).None?;
  }

  /** Without unique filenames the second removal takes the next record of that
      name: a store holding two records named n loses both after two removals. */
  lemma WithoutNamedTwice(files: map<FileId, FileRecord>, nextId: nat, name: string, a: FileId, b: FileId)
    requires WellKeyed(files, nextId)
    requires a in files && b in files && a != b
    requires files[a].filename == name && files[b].filename == name
    requires forall id :: id in files && id != a && id != b ==> files[id].filename != name
    ensures WithoutNamed(WithoutNamed(files, nextId, name), nextId, name) == files - {a, b}
  {
    var once := WithoutNamed(files, nextId, name);
    var first := Named(files, nextId, name).value;
    assert first == a || first == b;
    var other := if first == a then b else a;
    assert once == files - {first};
    var second := Named(once, nextId, name);
    assert other in once && once[other].filename == name;
    assert second.Some? && second.value == other;
    assert once - {other} == files - {a, b};
  }

  /** A filename containing '/' never names a record of a slash-free store. */
  lemma SlashedNameNotFound(files: map<FileId, FileRecord>, nextId: nat, name: string)
    requires WellKeyed(files, nextId) && SlashFree(files) && '/' in name
    ensures Named(files, nextId, name).None?
    ensures WithoutNamed(files, nextId, name) == files
  {
  }

  /** Saving a record whose filename has no '/' keeps the store slash-free. */
  lemma SaveKeepsSlashFree(files: map<FileId, FileRecord>, nextId: nat, record: FileRecord)
    requires SlashFree(files) && '/' !in record.filename
    ensures SlashFree(files[nextId := record])
  {
  }

  /** Saving a record under a fresh name and then removing by that name restores the store. */
  lemma SavedThenRemoved(files: map<FileId, FileRecord>, nextId: nat, record: FileRecord)
    requires WellKeyed(files, nextId) && record.id == nextId
    requires forall id :: id in files ==> files[id].filename != record.filename
    ensures WellKeyed(files[nextId := record], nextId + 1)
    ensures WithoutNamed(files[nextId := record], nextId + 1, record.filename) == files
  {
    var after := files[nextId := record];
    assert WellKeyed(after, nextId + 1);
    var found := Named(after, nextId + 1, record.filename);
    assert found.Some? && found.value == nextId by {
      assert nextId in after && after[nextId].filename == record.filename;
    }
    assert after - {nextId} == files;
  }

  /** FileRepository: records keyed by id, ids handed out by a counter on save. */
  class FileRepository {
    var files: map<FileId, FileRecord>
    var nextId: nat

    predicate Valid()
      reads this
    {
      WellKeyed(files, nextId)
    }

    constructor ()
      ensures Valid() && files == map[] && nextId == 0
    {
      files := map[];
      nextId := 0;
    }

    /** findById. */
    function FindById(id: FileId): (r: Option<FileRecord>)
      reads this
      requires Valid()
      ensures r.Some? <==> id in files
      ensures r.Some? ==> r.value == files[id] && r.value.id == id
    {
      if id in files then Some(files[id]) else None
    }

    /** findByFilename: the earliest-saved record with that stored name. */
    function FindByFilename(name: string): (r: Option<FileRecord>)
      reads this
      requires Valid()
      ensures r.Some? ==> r.value.id in files && files[r.value.id] == r.value && r.value.filename == name
      ensures r.None? <==> forall id :: id in files ==> files[id].filename != name
    {
      match Named(files, nextId, name)
      case None => None
      case Some(id) => Some(files[id])
    }

    /** save of a new entity: it receives the next id and is stored under it. */
    method Save(record: FileRecord) returns (saved: FileRecord)
      requires Valid()
      modifies this
      ensures Valid()
      ensures saved == record.(id := old(nextId)) && old(nextId) !in old(files)
      ensures files == old(files)[old(nextId) := saved]
      ensures nextId == old(nextId) + 1
    {
      saved := record.(id := nextId);
      files := files[nextId := saved];
      nextId := nextId + 1;
    }

    /** delete(entity): removes the record stored under the entity's id. */
    method Delete(record: FileRecord)
      requires Valid()
      modifies this
      ensures Valid()
      ensures files == old(files) - {record.id} && nextId == old(nextId)
    {
      files := files - {record.id};
    }
  }
}
