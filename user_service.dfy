/** UserService: the account operations that touch stored files (the profile
    image upload and removal, account deletion) and the profile update with its
    password rule. Users are kept by e-mail address; the password encoder is a
    given function. */
module UserService {
  import opened Common
  import opened Text
  import opened Entities
  import opened FileUtil
  import opened ImageValidationUtil
  import opened FileRepositories
  import opened S3FileService

  /** app.profile.image.max-size: the default profile-image maximum in bytes. */
  const DefaultProfileImageMaxSize: int := 5242880

  /** At the default maximum the profile limit, not the 10 MiB image limit,
      decides: an image of exactly 5 MiB passes, and one byte more is refused
      quoting 5 MB. */
  lemma DefaultLimitDecides(r: UploadRequest)
    requires NamePresent(r) && NameFits(r) && ExtensionAllowed(r)
    requires r.contentType.Some? && r.contentType.value in AllowedImageTypes
    ensures ValidateProfileImage(Some(r.(size := DefaultProfileImageMaxSize)), DefaultProfileImageMaxSize) == Accept
    ensures ValidateProfileImage(Some(r.(size := DefaultProfileImageMaxSize + 1)), DefaultProfileImageMaxSize)
         == Reject(ImageTooLarge(5))
  {
    assert DefaultProfileImageMaxSize == 5 * MiB && JavaDiv(DefaultProfileImageMaxSize, MiB) == 5 by {
      assert MiB == 1048576;
    }
    ProfileLimitInclusive(r, DefaultProfileImageMaxSize);
  }

  datatype User = User(
    id: string,
    email: string,
    name: Option<string>,
    password: string,
    profileImage: Option<string>,   // what the last upload stored, if anything
    updatedAt: int)

  /** UpdateProfileRequest: the new name and an optional password change. */
  datatype UpdateProfileRequest = UpdateProfileRequest(
    name: Option<string>,
    newPassword: Option<string>,
    confirmPassword: Option<string>)

  /** ProfileImageResponse: what the client needs to put the image. */
  datatype ProfileImageResponse = ProfileImageResponse(
    filename: string,
    uploadUrl: string,
    expiresAt: int,
    headers: map<string, string>,
    file: FileRecord)

  /** The password changes only for a non-null, non-empty new password that
      equals the confirmation. */
  predicate PasswordChangeRequested(request: UpdateProfileRequest) {
    request.newPassword.Some? && request.newPassword.value != ""
    && request.confirmPassword == Some(request.newPassword.value)
  }

  /** The rule does not care which of the two fields holds which text: swapping
      the new password and its confirmation gives the same decision, and a
      missing or empty confirmation never changes the password. */
  lemma PasswordRuleSymmetric(request: UpdateProfileRequest)
    ensures PasswordChangeRequested(request)
        <==> PasswordChangeRequested(request.(newPassword := request.confirmPassword,
                                              confirmPassword := request.newPassword))
    ensures request.confirmPassword.None? || request.confirmPassword == Some("") ==>
              !PasswordChangeRequested(request)
  {
  }

  /** The record the cleanup of a profile image removes: the one
      findByFilename(image) returns, when its owner is the user deleting it
      (deleteFile refuses any other, and the refusal is swallowed). */
  function ProfileFileToRemove(files: map<FileId, FileRecord>, nextId: nat, image: string, userId: string)
    : (r: Option<FileId>)
    requires WellKeyed(files, nextId)
    ensures r.Some? ==> r.value in files && files[r.value].filename == image && files[r.value].user == userId
    ensures r.Some? ==> forall id :: id in files && id < r.value ==> files[id].filename != image
    ensures r.None? <==> Named(files, nextId, image).None? || files[Named(files, nextId, image).value].user != userId
  {
    match Named(files, nextId, image)
    case None => None
    case Some(id) => if files[id].user == userId then Some(id) else None
  }

  /** The stored profile image is an upload URL, and a presigned URL contains '/'
      while every stored name is slash-free: the lookup by filename then finds
      nothing, so cleanup never removes the previous image. */
  lemma UploadUrlNeverLocatesRecord(files: map<FileId, FileRecord>, nextId: nat, url: string, userId: string)
    requires WellKeyed(files, nextId) && SlashFree(files) && '/' in url
    ensures ProfileFileToRemove(files, nextId, url, userId).None?
  {
    SlashedNameNotFound(files, nextId, url);
  }

  /** The records after a cleanup that removed target, if any. */
  function FilesAfter(files: map<FileId, FileRecord>, target: Option<FileId>): (r: map<FileId, FileRecord>)
    ensures forall id :: id in r <==> id in files && target != Some(id)
    ensures forall id :: id in r ==> r[id] == files[id]
  {
    if target.None? then files else files - {target.value}
  }

  /** The object keys after a cleanup that removed target, if any. */
  function KeysAfter(keys: set<string>, files: map<FileId, FileRecord>, target: Option<FileId>, s3Fails: bool)
    : (r: set<string>)
    requires target.Some? ==> target.value in files
    ensures r <= keys
    ensures target.Some? && !s3Fails ==> files[target.value].objectKey !in r
    ensures forall k :: k in keys && k !in r ==> target.Some? && !s3Fails && k == files[target.value].objectKey
  {
    if target.None? || s3Fails then keys else keys - {files[target.value].objectKey}
  }

  class UserService {
    var users: map<string, User>
    const fileService: S3FileService
    const encode: string -> string        // passwordEncoder.encode
    const maxProfileImageSize: int

    /** Every user is kept under its own e-mail address. */
    predicate Valid()
      reads this, fileService, fileService.files
    {
      fileService.Valid() && forall key :: key in users ==> users[key].email == key
    }

    constructor (users: map<string, User>, fileService: S3FileService, encode: string -> string,
                 maxProfileImageSize: int)
      requires fileService.Valid() && forall key :: key in users ==> users[key].email == key
      ensures Valid()
      ensures this.users == users && this.fileService == fileService
      ensures this.encode == encode && this.maxProfileImageSize == maxProfileImageSize
    {
      this.users := users;
      this.fileService := fileService;
      this.encode := encode;
      this.maxProfileImageSize := maxProfileImageSize;
    }

    /** The guarded deleteFile of a previous profile image: look it up by stored
        name, try to delete it as the user, and ignore any refusal. */
    method RemoveProfileFile(image: string, userId: string, s3Fails: bool)
      requires fileService.Valid()
      modifies fileService.files, fileService.objects
      ensures fileService.Valid() && fileService.files.nextId == old(fileService.files.nextId)
      ensures var target := ProfileFileToRemove(old(fileService.files.files), old(fileService.files.nextId), image, userId);
              && fileService.files.files == FilesAfter(old(fileService.files.files), target)
              && fileService.objects.keys == KeysAfter(old(fileService.objects.keys), old(fileService.files.files), target, s3Fails)
    {
      var found := fileService.files.FindByFilename(image);
      if found.Some? {
        var outcome := fileService.DeleteFile(found.value.id, userId, s3Fails);
      }
    }

    /** uploadProfileImage at clock reading nowMillis. */
    method UploadProfileImage(email: string, request: Option<UploadRequest>, nowMillis: nat, s3Fails: bool)
      returns (res: Result<ProfileImageResponse>)
      requires Valid()
      modifies this, fileService.files, fileService.objects, fileService.rng
      ensures Valid()
      ensures ToLower(email) !in old(users) ==>
        && res == Err(UserNotFound) && users == old(users)
        && fileService.files.files == old(fileService.files.files)
        && fileService.files.nextId == old(fileService.files.nextId)
        && fileService.objects.keys == old(fileService.objects.keys)
        && fileService.rng.position == old(fileService.rng.position)
      ensures ToLower(email) in old(users) && ValidateProfileImage(request, maxProfileImageSize).Reject? ==>
        && res == Err(InvalidMetadata(ValidateProfileImage(request, maxProfileImageSize).reason))
        && users == old(users)
        && fileService.files.files == old(fileService.files.files)
        && fileService.files.nextId == old(fileService.files.nextId)
        && fileService.objects.keys == old(fileService.objects.keys)
        && fileService.rng.position == old(fileService.rng.position)
      ensures ToLower(email) in old(users) && ValidateProfileImage(request, maxProfileImageSize).Accept? ==>
        ProfileImageStored(old(users), old(fileService.files.files), old(fileService.files.nextId),
                           old(fileService.objects.keys), old(fileService.rng.position),
                           ToLower(email), request, nowMillis, s3Fails, res)
    {
      var key := ToLower(email);
      if key !in users {
        return Err(UserNotFound);
      }
      var verdict := ValidateProfileImage(request, maxProfileImageSize);
      if verdict.Reject? {
        return Err(InvalidMetadata(verdict.reason));
      }
      AcceptedProfileImage(request, maxProfileImageSize);
      res := ReplaceProfileImage(key, request, nowMillis, s3Fails);
    }

    /** The state uploadProfileImage leaves for a known user and an accepted image:
        the previous image cleaned up, one PROFILE record added, and the user's
        profileImage set to the upload URL. */
    ghost predicate ProfileImageStored(users0: map<string, User>, files: map<FileId, FileRecord>, nextId: nat,
                                       keys: set<string>, position: nat, key: string,
                                       request: Option<UploadRequest>, nowMillis: nat, s3Fails: bool,
                                       res: Result<ProfileImageResponse>)
      reads this, fileService, fileService.files, fileService.objects, fileService.rng
      requires WellKeyed(files, nextId) && key in users0
      requires request.Some? && request.value.originalFilename.Some? && request.value.contentType.Some?
    {
      var user := users0[key];
      var target := if user.profileImage.None? then None
                    else ProfileFileToRemove(files, nextId, user.profileImage.value, user.id);
      && ImageStored(users0, FilesAfter(files, target), nextId, position, key, request, nowMillis, res)
      && fileService.objects.keys == KeysAfter(keys, files, target, s3Fails)
    }

    /** The state the upload step leaves, from records files numbered below nextId:
        one PROFILE record added under nextId, named from the random source at
        position, and the user's profileImage set to the upload URL. */
    ghost predicate ImageStored(users0: map<string, User>, files: map<FileId, FileRecord>, nextId: nat,
                                position: nat, key: string, request: Option<UploadRequest>, nowMillis: nat,
                                res: Result<ProfileImageResponse>)
      reads this, fileService, fileService.files, fileService.rng
      requires key in users0
      requires request.Some? && request.value.originalFilename.Some? && request.value.contentType.Some?
    {
      var user := users0[key];
      var r := request.value;
      var name := GeneratedName(r.originalFilename.value, nowMillis, fileService.rng.source, position);
      var record := NewRecord(r, user.id, Profile, name, fileService.basePrefix, fileService.nfc, nowMillis).(id := nextId);
      && res.Ok?
      && res.value.file == record && res.value.filename == name && record.category == Profile
      && res.value.uploadUrl == fileService.presignPut(fileService.bucket, record.objectKey, fileService.presignExpirationSeconds)
      && res.value.headers == map["Content-Type" := r.contentType.value]
      && res.value.expiresAt == nowMillis + fileService.presignExpirationSeconds * 1000
      && fileService.files.files == files[nextId := record]
      && fileService.files.nextId == nextId + 1
      && fileService.rng.position == position + 8
      && users == users0[key := user.(profileImage := Some(res.value.uploadUrl), updatedAt := nowMillis)]
    }

    /** The accepted branch of uploadProfileImage. */
    method ReplaceProfileImage(key: string, request: Option<UploadRequest>, nowMillis: nat, s3Fails: bool)
      returns (res: Result<ProfileImageResponse>)
      requires Valid() && key in users
      modifies this, fileService.files, fileService.objects, fileService.rng
      ensures Valid()
      ensures ValidateMetadata(request).Accept? ==> ProfileImageStored(old(users), old(fileService.files.files), old(fileService.files.nextId),
                                 old(fileService.objects.keys), old(fileService.rng.position),
                                 key, request, nowMillis, s3Fails, res)
    {
      var user := users[key];
      ghost var files0, nextId0 := fileService.files.files, fileService.files.nextId;
      ghost var keys0, position0 := fileService.objects.keys, fileService.rng.position;
      ghost var target := if user.profileImage.None? then None
                          else ProfileFileToRemove(files0, nextId0, user.profileImage.value, user.id);
      if user.profileImage.Some? {
        RemoveProfileFile(user.profileImage.value, user.id, s3Fails);
      }
      assert fileService.files.files == FilesAfter(files0, target) && fileService.files.nextId == nextId0;
      assert fileService.objects.keys == KeysAfter(keys0, files0, target, s3Fails);
      assert users == old(users) && fileService.rng.position == position0;
      res := StoreProfileImage(key, request, nowMillis);
    }

    /** The upload and the user update that follow the cleanup in uploadProfileImage. */
    method StoreProfileImage(key: string, request: Option<UploadRequest>, nowMillis: nat)
      returns (res: Result<ProfileImageResponse>)
      requires Valid() && key in users
      modifies this, fileService.files, fileService.rng
      ensures Valid()
      ensures ValidateMetadata(request).Reject? ==>
        && res == Err(InvalidMetadata(ValidateMetadata(request).reason))
        && users == old(users) && fileService.files.files == old(fileService.files.files)
        && fileService.files.nextId == old(fileService.files.nextId)
        && fileService.rng.position == old(fileService.rng.position)
      ensures ValidateMetadata(request).Accept? ==>
        ImageStored(old(users), old(fileService.files.files), old(fileService.files.nextId),
                    old(fileService.rng.position), key, request, nowMillis, res)
    {
      var user := users[key];
      var upload := fileService.UploadFile(request, user.id, Profile, nowMillis);
      if upload.Err? {
        return Err(upload.failure);
      }
      var ticket := upload.value;
      SetProfileImage(key, ticket.uploadUrl, nowMillis);
      res := Ok(ProfileImageResponse(ticket.file.filename, ticket.uploadUrl, ticket.expiresAt, ticket.headers, ticket.file));
    }

    /** Point the user's profileImage at url, stamping updatedAt. */
    method SetProfileImage(key: string, url: string, nowMillis: nat)
      requires Valid() && key in users
      modifies this
      ensures Valid()
      ensures users == old(users)[key := old(users)[key].(profileImage := Some(url), updatedAt := nowMillis)]
    {
      users := users[key := users[key].(profileImage := Some(url), updatedAt := nowMillis)];
    }

    /** deleteProfileImage at clock reading nowMillis: nothing to do for a null or
        empty image; otherwise clean up and clear the field, whatever the cleanup did. */
    method DeleteProfileImage(email: string, nowMillis: nat, s3Fails: bool) returns (res: Result<()>)
      requires Valid()
      modifies this, fileService.files, fileService.objects
      ensures Valid() && fileService.files.nextId == old(fileService.files.nextId)
      ensures ToLower(email) !in old(users) ==>
        && res == Err(UserNotFound) && users == old(users)
        && fileService.files.files == old(fileService.files.files)
        && fileService.objects.keys == old(fileService.objects.keys)
      ensures ToLower(email) in old(users) && old(users)[ToLower(email)].profileImage in {None, Some("")} ==>
        && res == Ok(()) && users == old(users)
        && fileService.files.files == old(fileService.files.files)
        && fileService.objects.keys == old(fileService.objects.keys)
      ensures ToLower(email) in old(users) && old(users)[ToLower(email)].profileImage !in {None, Some("")} ==>
        var user := old(users)[ToLower(email)];
        var files := old(fileService.files.files);
        var target := ProfileFileToRemove(files, old(fileService.files.nextId), user.profileImage.value, user.id);
        && res == Ok(())
        && fileService.files.files == FilesAfter(files, target)
        && fileService.objects.keys == KeysAfter(old(fileService.objects.keys), files, target, s3Fails)
        && users == old(users)[ToLower(email) := user.(profileImage := Some(""), updatedAt := nowMillis)]
    {
      var key := ToLower(email);
      if key !in users {
        return Err(UserNotFound);
      }
      var user := users[key];
      if user.profileImage.Some? && user.profileImage.value != "" {
        RemoveProfileFile(user.profileImage.value, user.id, s3Fails);
        users := users[key := user.(profileImage := Some(""), updatedAt := nowMillis)];
      }
      res := Ok(());
    }

    /** deleteUserAccount: clean up a non-empty profile image, then remove the
        user in every case. */
    method DeleteUserAccount(email: string, s3Fails: bool) returns (res: Result<()>)
      requires Valid()
      modifies this, fileService.files, fileService.objects
      ensures Valid() && fileService.files.nextId == old(fileService.files.nextId)
      ensures ToLower(email) !in old(users) ==>
        && res == Err(UserNotFound) && users == old(users)
        && fileService.files.files == old(fileService.files.files)
        && fileService.objects.keys == old(fileService.objects.keys)
      ensures ToLower(email) in old(users) ==>
        var user := old(users)[ToLower(email)];
        var files := old(fileService.files.files);
        var target := if user.profileImage in {None, Some("")} then None
                      else ProfileFileToRemove(files, old(fileService.files.nextId), user.profileImage.value, user.id);
        && res == Ok(())
        && users == old(users) - {ToLower(email)}
        && fileService.files.files == FilesAfter(files, target)
        && fileService.objects.keys == KeysAfter(old(fileService.objects.keys), files, target, s3Fails)
    {
      var key := ToLower(email);
      if key !in users {
        return Err(UserNotFound);
      }
      var user := users[key];
      if user.profileImage.Some? && user.profileImage.value != "" {
        RemoveProfileFile(user.profileImage.value, user.id, s3Fails);
      }
      users := users - {user.email};
      res := Ok(());
    }

    /** updateUserProfile at clock reading nowMillis: the name is always replaced
        (by null too), the password only on a confirmed non-empty change. */
    method UpdateUserProfile(email: string, request: UpdateProfileRequest, nowMillis: nat)
      returns (res: Result<User>)
      requires Valid()
      modifies this
      ensures Valid()
      ensures ToLower(email) !in old(users) ==> res == Err(UserNotFound) && users == old(users)
      ensures ToLower(email) in old(users) ==>
        var user := old(users)[ToLower(email)];
        var updated := user.(name := request.name, updatedAt := nowMillis,
                             password := if PasswordChangeRequested(request) then encode(request.newPassword.value)
                                         else user.password);
        res == Ok(updated) && users == old(users)[ToLower(email) := updated]
    {
      var key := ToLower(email);
      if key !in users {
        return Err(UserNotFound);
      }
      var user := users[key];
      user := user.(name := request.name, updatedAt := nowMillis);
      if request.newPassword.Some? && request.newPassword.value != ""
         && request.confirmPassword == Some(request.newPassword.value) {
        user := user.(password := encode(request.newPassword.value));
      }
      users := users[user.email := user];
      res := Ok(user);
    }
  }

  /** After an upload the stored image is the upload URL. While that URL contains
      '/' and stored names stay slash-free, the next upload, deleteProfileImage or
      deleteUserAccount removes no record: the old image record stays behind. */
  lemma PreviousImageStaysBehind(files: map<FileId, FileRecord>, nextId: nat, user: User)
    requires WellKeyed(files, nextId) && SlashFree(files)
    requires user.profileImage.Some? && '/' in user.profileImage.value
    ensures FilesAfter(files, ProfileFileToRemove(files, nextId, user.profileImage.value, user.id)) == files
  {
    UploadUrlNeverLocatesRecord(files, nextId, user.profileImage.value, user.id);
  }
}
