/** S3FileService: issues presigned upload and download URLs for stored files,
    checks who may read a file, and deletes records together with their objects.
    The presigner, the URL encoder and the NFC normaliser are given as functions;
    the object store is a set of keys. */
module S3FileService {
  import opened Common
  import opened Text
  import opened Entities
  import opened FileUtil
  import opened FileRepositories

  // ---------------------------------------------------------------------------
  // verifyAccess

  /** The outcome of verifyAccess: return normally or throw. */
  datatype Access = Allow | Deny(failure: Failure)

  /** verifyAccess: a profile file is readable by its uploader alone; a chat file
      by the participants of the room of the message that carries it. */
  function VerifyAccess(file: FileRecord, requesterId: string,
                        messages: map<FileId, Message>, rooms: map<string, Room>): (a: Access)
    ensures file.category == Profile ==>
      (a == Allow <==> file.user == requesterId) && (a != Allow ==> a == Deny(ProfileAccessDenied))
    ensures file.category == Chat ==>
      (file.id !in messages ==> a == Deny(MessageNotFound))
    ensures file.category == Chat && file.id in messages ==>
      (messages[file.id].roomId !in rooms ==> a == Deny(RoomNotFound))
    ensures file.category == Chat && file.id in messages && messages[file.id].roomId in rooms ==>
      (a == Allow <==> requesterId in rooms[messages[file.id].roomId].participantIds)
      && (a != Allow ==> a == Deny(FileAccessDenied))
  {
    if file.category == Profile then
      if file.user != requesterId then Deny(ProfileAccessDenied) else Allow
    else if file.id !in messages then Deny(MessageNotFound)
    else
      var message := messages[file.id];
      if message.roomId !in rooms then Deny(RoomNotFound)
      else if requesterId !in rooms[message.roomId].participantIds then Deny(FileAccessDenied)
      else Allow
  }

  /** A profile decision looks at neither messages nor rooms. */
  lemma ProfileAccessIgnoresRooms(file: FileRecord, requesterId: string,
                                  m1: map<FileId, Message>, r1: map<string, Room>,
                                  m2: map<FileId, Message>, r2: map<string, Room>)
    requires file.category == Profile
    ensures VerifyAccess(file, requesterId, m1, r1) == VerifyAccess(file, requesterId, m2, r2)
  {
  }

  /** A chat file's uploader has no special right: outside the room they are refused. */
  lemma ChatUploaderNeedsRoom(file: FileRecord, messages: map<FileId, Message>, rooms: map<string, Room>)
    requires file.category == Chat && file.id in messages && messages[file.id].roomId in rooms
    requires file.user !in rooms[messages[file.id].roomId].participantIds
    ensures VerifyAccess(file, file.user, messages, rooms) == Deny(FileAccessDenied)
  {
  }

  // ---------------------------------------------------------------------------
  // Object keys

  /** A non-blank prefix loses one trailing '/'. */
  function StripTrailingSlash(prefix: string): (r: string)
    ensures HasText(prefix) && |prefix| > 0 && prefix[|prefix| - 1] == '/' ==> r == prefix[..|prefix| - 1]
    ensures !(HasText(prefix) && prefix[|prefix| - 1] == '/') ==> r == prefix
  {
    if HasText(prefix) && prefix[|prefix| - 1] == '/' then prefix[..|prefix| - 1] else prefix
  }

  /** buildObjectKey: prefix, category segment, uploader id and filename joined by '/'. */
  function BuildObjectKey(basePrefix: string, uploaderId: string, category: FileCategory, filename: string): (key: string)
    ensures |key| > |filename| && key[|key| - |filename|..] == filename && key[|key| - |filename| - 1] == '/'
  {
    StripTrailingSlash(basePrefix) + "/" + CategorySegment(category) + "/" + uploaderId + "/" + filename
  }

  /** extractFilename: the text after the last '/', or the whole key without one. */
  function ExtractFilename(objectKey: string): (name: string)
    ensures '/' !in name
    ensures |name| <= |objectKey| && name == objectKey[|objectKey| - |name|..]
    ensures '/' !in objectKey ==> name == objectKey
    ensures '/' in objectKey ==> objectKey[|objectKey| - |name| - 1] == '/'
  {
    var idx := LastIndexOf(objectKey, '/');
    if idx == -1 then objectKey
    else
      var name := objectKey[idx + 1..];
      assert forall i :: 0 <= i < |name| ==> name[i] == objectKey[idx + 1 + i];
      name
  }

  /** Reading the filename back out of a key gives the filename, whatever the
      prefix, uploader and category, as long as the filename has no '/'. */
  lemma ObjectKeyRoundTrip(basePrefix: string, uploaderId: string, category: FileCategory, filename: string)
    requires '/' !in filename
    ensures ExtractFilename(BuildObjectKey(basePrefix, uploaderId, category, filename)) == filename
  {
    var key := BuildObjectKey(basePrefix, uploaderId, category, filename);
    var head := key[..|key| - |filename| - 1];
    assert key == head + ['/'] + filename;
    LastIndexOfJoin(head, '/', filename);
  }

  /** With the default prefix "uploads" a chat key reads uploads/chat/<uploader>/<name>. */
  lemma DefaultPrefixKey(uploaderId: string, filename: string)
    ensures BuildObjectKey("uploads", uploaderId, Chat, filename) == "uploads/chat/" + uploaderId + "/" + filename
  {
    assert "uploads"[6] == 's';
    assert HasText("uploads") by { assert !IsWhitespace("uploads"[0]); }
  }

  /** A prefix configured with a trailing '/' gives the same keys as without it. */
  lemma TrailingSlashIgnored(basePrefix: string, uploaderId: string, category: FileCategory, filename: string)
    requires HasText(basePrefix) && basePrefix[|basePrefix| - 1] != '/'
    ensures BuildObjectKey(basePrefix + "/", uploaderId, category, filename)
         == BuildObjectKey(basePrefix, uploaderId, category, filename)
  {
    var p := basePrefix + "/";
    assert p[..|p| - 1] == basePrefix;
    var i :| 0 <= i < |basePrefix| && !IsWhitespace(basePrefix[i]);
    assert p[i] == basePrefix[i];
  }

  // ---------------------------------------------------------------------------
  // Content disposition

  /** replaceAll("\\+", "%20"): every '+' becomes "%20". */
  function ReplacePlus(s: string): (r: string)
    ensures '+' !in r
  {
    if s == [] then []
    else (if s[0] == '+' then "%20" else [s[0]]) + ReplacePlus(s[1..])
  }

  /** Each '+' becomes three characters, so the text grows by two per '+'. */
  lemma {:induction false} ReplacePlusLength(s: string)
    ensures |ReplacePlus(s)| == |s| + 2 * multiset(s)['+']
  {
    if s != [] {
      assert s == [s[0]] + s[1..];
      ReplacePlusLength(s[1..]);
    }
  }

  /** A text without '+' is left as it is. */
  lemma {:induction false} ReplacePlusKeepsClean(s: string)
    ensures '+' !in s ==> ReplacePlus(s) == s
  {
    if s != [] && '+' !in s {
      assert s[0] != '+' && '+' !in s[1..];
      ReplacePlusKeepsClean(s[1..]);
    }
  }

  /** Replacement works piece by piece. */
  lemma {:induction false} ReplacePlusConcat(a: string, b: string)
    ensures ReplacePlus(a + b) == ReplacePlus(a) + ReplacePlus(b)
  {
    if a != [] {
      var head := if a[0] == '+' then "%20" else [a[0]];
      assert (a + b)[0] == a[0];
      assert (a + b)[1..] == a[1..] + b;
      assert ReplacePlus(a + b) == head + ReplacePlus(a[1..] + b);
      assert ReplacePlus(a) == head + ReplacePlus(a[1..]);
      ReplacePlusConcat(a[1..], b);
      assert head + (ReplacePlus(a[1..]) + ReplacePlus(b)) == (head + ReplacePlus(a[1..])) + ReplacePlus(b);
    } else {
      assert a + b == b;
    }
  }

  /** Each character is replaced where it stands: '+' by "%20", any other by itself. */
  lemma ReplacePlusAt(a: string, c: char, b: string)
    ensures ReplacePlus(a + [c] + b) == ReplacePlus(a) + (if c == '+' then "%20" else [c]) + ReplacePlus(b)
  {
    ReplacePlusConcat(a + [c], b);
    ReplacePlusConcat(a, [c]);
    assert ReplacePlus([c]) == (if c == '+' then "%20" else [c]) by {
      assert [c][1..] == [];
    }
  }

  /** The RFC 5987 value of the original name: URL-encoded, spaces as %20. */
  function EncodedName(originalname: string, urlEncode: string -> string): (e: string)
    ensures '+' !in e
    ensures '+' !in urlEncode(originalname) ==> e == urlEncode(originalname)
  {
    ReplacePlusKeepsClean(urlEncode(originalname));
    ReplacePlus(urlEncode(originalname))
  }

  /** buildContentDisposition: inline with a quoted name and the encoded name, or
      attachment with the encoded name alone. */
  function BuildContentDisposition(file: FileRecord, inline: bool, urlEncode: string -> string): (d: string)
    ensures var e := EncodedName(file.originalname, urlEncode);
            && |d| >= |e| && d[|d| - |e|..] == e
            && (inline ==> d == "inline; filename=\"" + file.originalname + "\"; filename*=UTF-8''" + e)
            && (!inline ==> d == "attachment; filename*=UTF-8''" + e && '+' !in d)
  {
    var encoded := EncodedName(file.originalname, urlEncode);
    if inline then "inline; filename=\"" + file.originalname + "\"; filename*=UTF-8''" + encoded
    else
      var d := "attachment; filename*=UTF-8''" + encoded;
      assert forall i :: 0 <= i < |d| - |encoded| ==> d[i] != '+';
      assert forall i :: |d| - |encoded| <= i < |d| ==> d[i] == encoded[i - (|d| - |encoded|)];
      d
  }

  // ---------------------------------------------------------------------------
  // The service

  /** PresignedUrlResponse: where to PUT the bytes, with which headers, until when. */
  datatype UploadTicket = UploadTicket(
    uploadUrl: string,
    headers: map<string, string>,
    file: FileRecord,
    expiresAt: int)

  /** PresignedFileResponse: where to GET the bytes, and what to expect. */
  datatype DownloadTicket = DownloadTicket(
    url: string,
    headers: map<string, string>,
    filename: string,
    contentType: string,
    expiresAt: int,
    inline: bool)

  /** The bucket's object keys; objects arrive through presigned PUTs made by clients. */
  class ObjectStore {
    var keys: set<string>

    constructor (keys: set<string>)
      ensures this.keys == keys
    {
      this.keys := keys;
    }

    /** deleteFromS3: best effort. An outage of the store (fails) is caught and
        logged, and the key stays; otherwise the key is gone. */
    method DeleteObject(objectKey: string, fails: bool)
      modifies this
      ensures keys == if fails then old(keys) else old(keys) - {objectKey}
    {
      if !fails {
        keys := keys - {objectKey};
      }
    }
  }

  /** The record uploadFile stores for an accepted request, before its id is assigned. */
  function NewRecord(r: UploadRequest, uploaderId: string, category: FileCategory, filename: string,
                     basePrefix: string, nfc: string -> string, nowMillis: nat): (rec: FileRecord)
    requires r.originalFilename.Some? && r.contentType.Some?
    ensures rec.filename == filename && rec.user == uploaderId && rec.category == category
    ensures rec.mimetype == r.contentType.value && rec.size == r.size && rec.uploadDate == nowMillis
    ensures rec.originalname == NormalizeOriginalFilename(r.originalFilename.value, nfc)
    ensures rec.objectKey == BuildObjectKey(basePrefix, uploaderId, category, filename)
    ensures '/' !in filename ==> ExtractFilename(rec.objectKey) == rec.filename
  {
    var rec := FileRecord(0, filename, NormalizeOriginalFilename(r.originalFilename.value, nfc), r.contentType.value,
                          r.size, BuildObjectKey(basePrefix, uploaderId, category, filename), uploaderId, category, nowMillis);
    if '/' in filename then rec
    else
      ObjectKeyRoundTrip(basePrefix, uploaderId, category, filename);
      rec
  }

  class S3FileService {
    const files: FileRepository
    const objects: ObjectStore
    const rng: SecureRandom
    const messages: map<FileId, Message>     // messageRepository.findByFileId
    const rooms: map<string, Room>           // roomRepository.findById
    const bucket: string
    const basePrefix: string                 // cloud.aws.s3.prefix, "uploads" by default
    const presignExpirationSeconds: int      // 900 by default
    const presignPut: (string, string, int) -> string
    const presignGet: (string, string, string, string, int) -> string
    const urlEncode: string -> string
    const nfc: string -> string

    predicate Valid()
      reads this, files
    {
      files.Valid()
    }

    constructor (files: FileRepository, objects: ObjectStore, rng: SecureRandom,
                 messages: map<FileId, Message>, rooms: map<string, Room>,
                 bucket: string, basePrefix: string, presignExpirationSeconds: int,
                 presignPut: (string, string, int) -> string,
                 presignGet: (string, string, string, string, int) -> string,
                 urlEncode: string -> string, nfc: string -> string)
      requires files.Valid()
      ensures Valid()
      ensures this.files == files && this.objects == objects && this.rng == rng
      ensures this.messages == messages && this.rooms == rooms && this.bucket == bucket
      ensures this.basePrefix == basePrefix && this.presignExpirationSeconds == presignExpirationSeconds
      ensures this.presignPut == presignPut && this.presignGet == presignGet
      ensures this.urlEncode == urlEncode && this.nfc == nfc
    {
      this.files := files;
      this.objects := objects;
      this.rng := rng;
      this.messages := messages;
      this.rooms := rooms;
      this.bucket := bucket;
      this.basePrefix := basePrefix;
      this.presignExpirationSeconds := presignExpirationSeconds;
      this.presignPut := presignPut;
      this.presignGet := presignGet;
      this.urlEncode := urlEncode;
      this.nfc := nfc;
    }

    /** uploadFile at clock reading nowMillis: validate, name, store the record,
        and hand out a presigned PUT. Invalid metadata changes nothing. */
    method UploadFile(request: Option<UploadRequest>, uploaderId: string, category: FileCategory, nowMillis: nat)
      returns (res: Result<UploadTicket>)
      requires Valid()
      modifies files, rng
      ensures Valid()
      ensures ValidateMetadata(request).Reject? ==>
        && res == Err(InvalidMetadata(ValidateMetadata(request).reason))
        && files.files == old(files.files) && files.nextId == old(files.nextId)
        && rng.position == old(rng.position)
      ensures ValidateMetadata(request).Accept? ==>
        var r := request.value;
        var name := GeneratedName(r.originalFilename.value, nowMillis, rng.source, old(rng.position));
        var record := NewRecord(r, uploaderId, category, name, basePrefix, nfc, nowMillis).(id := old(files.nextId));
        && res == Ok(UploadTicket(
             presignPut(bucket, record.objectKey, presignExpirationSeconds),
             map["Content-Type" := r.contentType.value],
             record,
             nowMillis + presignExpirationSeconds * 1000))
        && files.files == old(files.files)[old(files.nextId) := record]
        && files.nextId == old(files.nextId) + 1
        && rng.position == old(rng.position) + 8
      ensures ValidateMetadata(request).Accept? && SlashFree(old(files.files)) ==> SlashFree(files.files)
    {
      var verdict := ValidateMetadata(request);
      if verdict.Reject? {
        return Err(InvalidMetadata(verdict.reason));
      }
      ghost var files0, nextId0, position0 := files.files, files.nextId, rng.position;
      ValidatedNameSlashFree(request.value, nowMillis, rng.source, position0);
      var ticket := StoreUpload(request.value, uploaderId, category, nowMillis);
      if SlashFree(files0) {
        SaveKeepsSlashFree(files0, nextId0, ticket.file);
      }
      res := Ok(ticket);
    }

    /** The accepted branch of uploadFile: name the file, store its record and
        presign the PUT. */
    method StoreUpload(r: UploadRequest, uploaderId: string, category: FileCategory, nowMillis: nat)
      returns (ticket: UploadTicket)
      requires Valid() && ValidateMetadata(Some(r)).Accept?
      modifies files, rng
      ensures Valid()
      ensures var name := GeneratedName(r.originalFilename.value, nowMillis, rng.source, old(rng.position));
              var record := NewRecord(r, uploaderId, category, name, basePrefix, nfc, nowMillis).(id := old(files.nextId));
              && ticket == UploadTicket(
                   presignPut(bucket, record.objectKey, presignExpirationSeconds),
                   map["Content-Type" := r.contentType.value],
                   record,
                   nowMillis + presignExpirationSeconds * 1000)
              && files.files == old(files.files)[old(files.nextId) := record]
              && files.nextId == old(files.nextId) + 1
              && rng.position == old(rng.position) + 8
    {
      ghost var position := rng.position;
      var safeFilename := GenerateSafeFileName(r.originalFilename.value, nowMillis, rng);
      var normalizedOriginal := NormalizeOriginalFilename(r.originalFilename.value, nfc);
      var objectKey := BuildObjectKey(basePrefix, uploaderId, category, safeFilename);
      var entity := FileRecord(0, safeFilename, normalizedOriginal, r.contentType.value, r.size,
                               objectKey, uploaderId, category, nowMillis);
      assert entity == NewRecord(r, uploaderId, category, safeFilename, basePrefix, nfc, nowMillis);
      ghost var nextId := files.nextId;
      var saved := files.Save(entity);
      assert saved == entity.(id := nextId);
      var uploadUrl := presignPut(bucket, objectKey, presignExpirationSeconds);
      var headers := map["Content-Type" := r.contentType.value];
      ticket := UploadTicket(uploadUrl, headers, saved, nowMillis + presignExpirationSeconds * 1000);
    }

    /** loadFileAsResource at clock reading nowMillis: find by stored name, check
        access, and hand out a presigned GET. */
    function LoadFileAsResource(fileName: string, requesterId: string, inline: bool, nowMillis: nat)
      : (res: Result<DownloadTicket>)
      reads this, files
      requires Valid()
      ensures files.FindByFilename(fileName).None? ==> res == Err(FileNotFound)
      ensures files.FindByFilename(fileName).Some? ==>
        var file := files.FindByFilename(fileName).value;
        match VerifyAccess(file, requesterId, messages, rooms)
        case Deny(f) => res == Err(f)
        case Allow =>
          && res.Ok? && res.value.filename == fileName && res.value.contentType == file.mimetype
          && res.value.headers == map["Content-Type" := file.mimetype] && res.value.inline == inline
          && res.value.url == presignGet(bucket, file.objectKey, file.mimetype,
                                         BuildContentDisposition(file, inline, urlEncode), presignExpirationSeconds)
          && res.value.expiresAt == nowMillis + presignExpirationSeconds * 1000
    {
      match files.FindByFilename(fileName)
      case None => Err(FileNotFound)
      case Some(file) =>
        match VerifyAccess(file, requesterId, messages, rooms)
        case Deny(f) => Err(f)
        case Allow =>
          var disposition := BuildContentDisposition(file, inline, urlEncode);
          var url := presignGet(bucket, file.objectKey, file.mimetype, disposition, presignExpirationSeconds);
          Ok(DownloadTicket(url, map["Content-Type" := file.mimetype], file.filename, file.mimetype,
                            nowMillis + presignExpirationSeconds * 1000, inline))
    }

    /** deleteFile: only the uploader may delete; the record goes even when the
        object-store delete fails (s3Fails). */
    method DeleteFile(fileId: FileId, requesterId: string, s3Fails: bool) returns (res: Result<bool>)
      requires Valid()
      modifies files, objects
      ensures Valid() && files.nextId == old(files.nextId)
      ensures fileId !in old(files.files) ==>
        res == Err(FileNotFound) && files.files == old(files.files) && objects.keys == old(objects.keys)
      ensures fileId in old(files.files) && old(files.files)[fileId].user != requesterId ==>
        res == Err(DeleteDenied) && files.files == old(files.files) && objects.keys == old(objects.keys)
      ensures fileId in old(files.files) && old(files.files)[fileId].user == requesterId ==>
        && res == Ok(true)
        && files.files == old(files.files) - {fileId}
        && objects.keys == (if s3Fails then old(objects.keys) else old(objects.keys) - {old(files.files)[fileId].objectKey})
    {
      var found := files.FindById(fileId);
      if found.None? {
        return Err(FileNotFound);
      }
      var entity := found.value;
      if entity.user != requesterId {
        return Err(DeleteDenied);
      }
      objects.DeleteObject(entity.objectKey, s3Fails);
      files.Delete(entity);
      res := Ok(true);
    }

    /** deleteFileByPath: a blank key does nothing; otherwise the record named by
        the key's last segment, if any, and the object go, and the answer is true. */
    method DeleteFileByPath(objectKey: string, s3Fails: bool) returns (deleted: bool)
      requires Valid()
      modifies files, objects
      ensures Valid() && files.nextId == old(files.nextId)
      ensures !HasText(objectKey) ==>
        !deleted && files.files == old(files.files) && objects.keys == old(objects.keys)
      ensures HasText(objectKey) ==>
        && deleted
        && files.files == WithoutNamed(old(files.files), old(files.nextId), ExtractFilename(objectKey))
        && objects.keys == (if s3Fails then old(objects.keys) else old(objects.keys) - {objectKey})
    {
      if !HasText(objectKey) {
        return false;
      }
      var found := files.FindByFilename(ExtractFilename(objectKey));
      if found.Some? {
        files.Delete(found.value);
      }
      objects.DeleteObject(objectKey, s3Fails);
      deleted := true;
    }
  }

  /** Deleting by path twice leaves the records as deleting once, while stored
      names are unique. */
  lemma DeleteByPathIdempotent(files: map<FileId, FileRecord>, nextId: nat, objectKey: string)
    requires WellKeyed(files, nextId) && UniqueFilenames(files)
    ensures var once := WithoutNamed(files, nextId, ExtractFilename(objectKey));
            WithoutNamed(once, nextId, ExtractFilename(objectKey)) == once
  {
    WithoutNamedIdempotent(files, nextId, ExtractFilename(objectKey));
  }

  /** The key of an uploaded record names that record again: deleting by the key
      the service built removes the record uploadFile just stored, when no earlier
      record has the same name. */
  lemma UploadedKeyLocatesRecord(files: map<FileId, FileRecord>, nextId: nat, record: FileRecord, basePrefix: string)
    requires WellKeyed(files, nextId) && '/' !in record.filename
    requires forall id :: id in files ==> files[id].filename != record.filename
    requires record.id == nextId
    requires record.objectKey == BuildObjectKey(basePrefix, record.user, record.category, record.filename)
    ensures WithoutNamed(files[nextId := record], nextId + 1, ExtractFilename(record.objectKey)) == files
  {
    ObjectKeyRoundTrip(basePrefix, record.user, record.category, record.filename);
    SavedThenRemoved(files, nextId, record);
  }
}
