# File access in the chat backend, modelled in Dafny

This project models how the chat backend stores files and checks access to them. The backend keeps the bytes in an S3 bucket and a metadata record per file in a repository. Clients receive presigned URLs and move the bytes themselves.

The model covers four parts:

- **Upload requests.** The backend validates the declared metadata of an upload request: name, content type, extension and size. It also checks the stricter rules for profile images.
- **Stored names.** The backend generates a stored name made of a timestamp and random hex and returns it with the original extension. It also cleans the name the user supplied.
- **Records and objects.** It builds the object key `prefix/category/uploader/filename` and can read the filename back out of a key. It issues upload and download tickets and decides who may read a file. It deletes records together with their objects.
- **User accounts.** The operations that touch files are the profile-image upload and removal and account deletion, together with the password rule of the profile update.

Modules:

- `Common`: optional values, verdicts, failures and results.
- `Text`: Java's `hasText`, UTF-8 length, ASCII case mapping, `lastIndexOf` and decimal formatting.
- `Entities`: the record, request, message and room types.
- `FileUtil`: the validator, the name generator, `bytesToHex` and `SecureRandom`.
- `ImageValidationUtil`: the profile-image validator.
- `FileRepositories`: the record store.
- `S3FileService`: the file service.
- `UserService`: the account operations.

How each part is modelled:

- **Validators and helpers** are functions. Each validator's contracts state which rule fails first.
- **The record store** is a class. It has a map from id to record and an id counter. Ids are handed out on save.
- **`findByFilename`** returns the earliest-saved record with that name.
- **`bytesToHex`** is a loop over an array. It is proved equal to the `Hex` function, and `Hex` has an inverse.
- **`SecureRandom.nextBytes`** fills an array in place from a byte stream that the caller gives.
- **The services** are classes whose methods state the new record map and the new set of object keys. Error paths leave both unchanged.

External pieces are parameters:

- **The clock** is a `nowMillis` argument. One reading serves a whole call.
- **The random source** is `source: nat -> JavaByte` together with a position.
- **The presigner, the URL encoder, NFC normalisation and the password encoder** are function-valued fields.
- **Whether the S3 delete fails** is an `s3Fails` argument. The failure is caught in every case.

The profile-image behaviour is reproduced as the code has it:

- `uploadProfileImage` stores the presigned upload URL in the user's `profileImage`.
- Later cleanups look that value up with `findByFilename`.
- Stored names never contain '/' (`ValidatedNameSlashFree`), while a URL does.
- So the lookup finds nothing and the old image record stays behind (`UploadUrlNeverLocatesRecord`, `PreviousImageStaysBehind`).

## Model

| member | source | states |
|---|---|---|
| FileUtil.ValidateMetadata | apps/backend/src/main/java/com/ktb/chatapp/util/FileUtil.java:45-81 | a missing request is refused as missing; a request is accepted exactly when it is present and all six rules hold |
| FileUtil.ValidationOrder | apps/backend/src/main/java/com/ktb/chatapp/util/FileUtil.java:50-80 | each rejection reason is given exactly when all earlier rules hold and its own rule fails: filename, then length, type, extension, size > 0, family limit |
| FileUtil.FamilyLimits | apps/backend/src/main/java/com/ktb/chatapp/util/FileUtil.java:33-38 | the limit is 10 MiB for images, 50 MiB for video, 20 MiB for audio and documents, and 20 MiB (the application default) for any other family |
| FileUtil.LimitInMiB | apps/backend/src/main/java/com/ktb/chatapp/util/FileUtil.java:78 | every limit is a whole number of MiB, so limit/1024/1024 is exact |
| FileUtil.RejectsOverLimit | apps/backend/src/main/java/com/ktb/chatapp/util/FileUtil.java:75-80 | once the name, type and extension rules pass, a size over the family limit is refused as too large, quoting the limit in MiB |
| FileUtil.OverLimitSteps | apps/backend/src/main/java/com/ktb/chatapp/util/FileUtil.java:75-80 | a name with text and at most 255 UTF-8 bytes, a listed type, an allowed extension and a size over the family limit give the too-large verdict, the limit divided twice by 1024 |
| FileUtil.LimitPositive | apps/backend/src/main/java/com/ktb/chatapp/util/FileUtil.java:33-38 | every family limit is at least the 10 MiB image limit, so a size over it is positive |
| FileUtil.LimitIsInclusive | apps/backend/src/main/java/com/ktb/chatapp/util/FileUtil.java:75-80 | a size exactly at the family limit is accepted; one byte more is refused with that limit in MiB |
| FileUtil.ExtensionCaseInsensitive | apps/backend/src/main/java/com/ktb/chatapp/util/FileUtil.java:65-67 | upper-casing the extension never changes the verdict |
| FileUtil.PhotoPngAccepted | apps/backend/src/main/java/com/ktb/chatapp/util/FileUtil.java:45-81 | photo.PNG declared as image/png is accepted at every size in (0, 10 MiB] |
| FileUtil.MismatchedExtensionRejected | apps/backend/src/main/java/com/ktb/chatapp/util/FileUtil.java:65-69 | x.jpg declared as image/png is refused with an image-extension error |
| FileUtil.JpgExtensionForPng | apps/backend/src/main/java/com/ktb/chatapp/util/FileUtil.java:65-67 | the extension jpg of x.jpg is not among those allowed for image/png |
| FileUtil.OversizedPngRejected | apps/backend/src/main/java/com/ktb/chatapp/util/FileUtil.java:75-80 | photo.PNG declared as image/png and over 10 MiB is refused as too large, quoting 10 MB |
| FileUtil.Family | apps/backend/src/main/java/com/ktb/chatapp/util/FileUtil.java:75 | split("/")[0]: the longest '/'-free prefix, followed by '/' when shorter than the type |
| FileUtil.FileTypeByFamily | apps/backend/src/main/java/com/ktb/chatapp/util/FileUtil.java:83-95 | null gives the generic kind; otherwise the kind is image, video, audio or document exactly when the family is image, video, audio or application, and the generic kind for any other family |
| FileUtil.SizeLimitByFamily | apps/backend/src/main/java/com/ktb/chatapp/util/FileUtil.java:75-76 | the limit is 10 MiB exactly for the image family, 50 MiB exactly for video, and the 20 MiB application default for every other family |
| FileUtil.FamilyOf | apps/backend/src/main/java/com/ktb/chatapp/util/FileUtil.java:87 | the family of f/rest is f for a '/'-free f |
| FileUtil.GetFileExtension | apps/backend/src/main/java/com/ktb/chatapp/util/FileUtil.java:97-108 | the result is "" exactly for a blank name, a name without '.' or one ending in '.'; otherwise it is the '.'-free text after the last dot |
| FileUtil.ExtensionOfJoin | apps/backend/src/main/java/com/ktb/chatapp/util/FileUtil.java:102-107 | the extension of base.ext is ext for any base and any non-empty '.'-free ext |
| FileUtil.Hex | apps/backend/src/main/java/com/ktb/chatapp/util/FileUtil.java:127-133 | the hex text of n bytes has 2n characters, all lower-case hex digits |
| FileUtil.ByteHex | apps/backend/src/main/java/com/ktb/chatapp/util/FileUtil.java:130 | %02x of a byte is two lower-case hex digits whose value is the byte read unsigned |
| FileUtil.HexRoundTrip | apps/backend/src/main/java/com/ktb/chatapp/util/FileUtil.java:127-133 | reading the hex back gives the bytes; %02x of a signed byte is its two's-complement value |
| FileUtil.BytesToHex | apps/backend/src/main/java/com/ktb/chatapp/util/FileUtil.java:127-133 | the loop's result equals the hex text of the whole array |
| FileUtil.SecureRandom.NextBytes | apps/backend/src/main/java/com/ktb/chatapp/util/FileUtil.java:117-118 | fills the array in place with the next bytes of the stream and advances the position by its length |
| FileUtil.IntFrom | apps/backend/src/main/java/com/ktb/chatapp/util/FileUtil.java:137 | nextInt(bound) lies in [0, bound) |
| FileUtil.Bits31 | apps/backend/src/main/java/com/ktb/chatapp/util/FileUtil.java:137 | next(31) is below 2^31: the high 31 bits of the four bytes read big-endian |
| FileUtil.IntFromHighBits | apps/backend/src/main/java/com/ktb/chatapp/util/FileUtil.java:137 | the top bit of the first byte is part of next(31): bytes 80 00 00 00 give 2^30, and nextInt(10000) gives 1824 |
| FileUtil.SecureRandom.NextInt | apps/backend/src/main/java/com/ktb/chatapp/util/FileUtil.java:137 | returns the value drawn from the next four bytes and advances four positions |
| FileUtil.GenerateSafeFileName | apps/backend/src/main/java/com/ktb/chatapp/util/FileUtil.java:110-125 | the generated name is the random name for a blank original, else timestamp_hex(.ext); the stream advances 4 or 8 positions |
| FileUtil.GenerateRandomFileName | apps/backend/src/main/java/com/ktb/chatapp/util/FileUtil.java:135-139 | prefix_timestamp_dddd from one nextInt(10000) |
| FileUtil.RandomNameShape | apps/backend/src/main/java/com/ktb/chatapp/util/FileUtil.java:138 | %s_%d_%04d gives prefix, '_', the timestamp, '_' and four digits that read back as the random value |
| FileUtil.SafeNameExtension | apps/backend/src/main/java/com/ktb/chatapp/util/FileUtil.java:121-124 | for lower-hex random text, the stored name's extension is the original extension, and a name without extension has no '.' |
| FileUtil.GeneratedName | apps/backend/src/main/java/com/ktb/chatapp/util/FileUtil.java:110-125 | the name generated for a non-blank original has the original's extension |
| FileUtil.GeneratedNameShape | apps/backend/src/main/java/com/ktb/chatapp/util/FileUtil.java:115-124 | for a non-blank original: 16 lower-hex digits, the original extension kept verbatim, and no '.' when there is none |
| FileUtil.BlankNameShape | apps/backend/src/main/java/com/ktb/chatapp/util/FileUtil.java:110-113 | a blank original gives file_timestamp_dddd, the four digits denoting a value in [0, 9999] |
| FileUtil.ValidatedNameSlashFree | apps/backend/src/main/java/com/ktb/chatapp/util/FileUtil.java:115-124 | the stored name generated for an accepted request contains no '/' |
| FileUtil.SafeNameSlashFree | apps/backend/src/main/java/com/ktb/chatapp/util/FileUtil.java:121-124 | a stored name built from lower-case hex and a '/'-free extension contains no '/' |
| FileUtil.RemoveSlashes | apps/backend/src/main/java/com/ktb/chatapp/util/FileUtil.java:145 | no '/' or '\' remains |
| FileUtil.RemoveSlashesConcat | apps/backend/src/main/java/com/ktb/chatapp/util/FileUtil.java:145 | removal works piece by piece, so the other characters keep their order |
| FileUtil.RemoveSlashesCounts | apps/backend/src/main/java/com/ktb/chatapp/util/FileUtil.java:145 | every other character occurs as often as before |
| FileUtil.RemoveSlashesKeepsClean | apps/backend/src/main/java/com/ktb/chatapp/util/FileUtil.java:145 | a slash-free name is left unchanged |
| FileUtil.NormalizeOriginalFilename | apps/backend/src/main/java/com/ktb/chatapp/util/FileUtil.java:141-147 | "" for a blank name, otherwise NFC of the name without slashes |
| FileUtil.NormalizeDropsSeparators | apps/backend/src/main/java/com/ktb/chatapp/util/FileUtil.java:141-147 | three slash-free pieces joined by a forward slash and a backslash normalise to the NFC form of the three pieces joined directly |
| Text.Utf8LengthBounds | apps/backend/src/main/java/com/ktb/chatapp/util/FileUtil.java:55 | a name of n characters takes between n and 4n UTF-8 bytes |
| Text.Utf8Length | apps/backend/src/main/java/com/ktb/chatapp/util/FileUtil.java:55 | zero bytes exactly for the empty name, and one byte per character for ASCII text |
| Text.HasTextConcat | apps/backend/src/main/java/com/ktb/chatapp/util/FileUtil.java:51 | a concatenation has text exactly when one of its parts has, and the empty string has none |
| Text.ToLower | apps/backend/src/main/java/com/ktb/chatapp/util/FileUtil.java:65 | same length, each character lower-cased: no upper-case ASCII letter remains and every other character is kept |
| Text.LastIndexOf | apps/backend/src/main/java/com/ktb/chatapp/util/FileUtil.java:102 | -1 exactly when the character is absent, else its last position |
| Text.LowerOfUpper | apps/backend/src/main/java/com/ktb/chatapp/util/FileUtil.java:65 | lower-casing ignores an earlier upper-casing |
| Text.DecimalRoundTrip | apps/backend/src/main/java/com/ktb/chatapp/util/FileUtil.java:122 | %d prints digits that read back as the number |
| Text.Pad4RoundTrip | apps/backend/src/main/java/com/ktb/chatapp/util/FileUtil.java:138 | %04d prints four digits that read back as the number |
| Text.JavaDiv | apps/backend/src/main/java/com/ktb/chatapp/util/ImageValidationUtil.java:26 | Java's division truncates toward zero: the quotient has the sign of the dividend and q*b <= a < (q+1)*b for a >= 0, (q-1)*b < a <= q*b for a < 0 |
| ImageValidationUtil.ValidateProfileImage | apps/backend/src/main/java/com/ktb/chatapp/util/ImageValidationUtil.java:18-28 | a general rejection is passed on unchanged; accepted exactly when the general rules accept, the type is one of the four image types and size <= maxSize; the image-type error is given exactly for other types; an image of any size over maxSize is refused quoting maxSize / MiB in whole MiB |
| ImageValidationUtil.ImageTypesAreImages | apps/backend/src/main/java/com/ktb/chatapp/util/ImageValidationUtil.java:8-13 | each of the four image types is in the general table, in the image family, with the 10 MiB limit |
| ImageValidationUtil.AcceptedProfileImage | apps/backend/src/main/java/com/ktb/chatapp/util/ImageValidationUtil.java:18-28 | an accepted image was accepted by the general rules, is of the image family and has 0 < size <= min(maxSize, 10 MiB) |
| ImageValidationUtil.ProfileLimitInclusive | apps/backend/src/main/java/com/ktb/chatapp/util/ImageValidationUtil.java:25-27 | for 0 < maxSize <= 10 MiB, an image of exactly maxSize bytes is accepted; for 0 < maxSize < 10 MiB, one byte more is refused quoting maxSize in MiB |
| ImageValidationUtil.GeneralLimitFiresFirst | apps/backend/src/main/java/com/ktb/chatapp/util/ImageValidationUtil.java:19 | over 10 MiB the general family limit refuses first, whatever maxSize is |
| UserService.DefaultLimitDecides | apps/backend/src/main/java/com/ktb/chatapp/service/UserService.java:27 | at the default maximum of 5242880 bytes, an image of exactly that size is accepted and one byte more is refused by the profile limit quoting 5 MB |
| FileRepositories.FirstNamed | src/main/java/com/ktb/chatapp/service/S3FileService.java:101 | the earliest id in range with that filename, or None exactly when no record in range has it |
| FileRepositories.Named | src/main/java/com/ktb/chatapp/service/S3FileService.java:153 | findByFilename finds a record with that name, the earliest one, and finds none exactly when no record has it |
| FileRepositories.WithoutNamed | src/main/java/com/ktb/chatapp/service/S3FileService.java:153-154 | when findByFilename finds nothing the records are unchanged; otherwise exactly the record it finds is removed |
| FileRepositories.WithoutNamedIdempotent | src/main/java/com/ktb/chatapp/service/S3FileService.java:153-154 | with unique filenames, removing by name twice is removing once |
| FileRepositories.WithoutNamedTwice | src/main/java/com/ktb/chatapp/service/S3FileService.java:153-154 | with two records of the same name, a second removal takes the other one |
| FileRepositories.SlashedNameNotFound | src/main/java/com/ktb/chatapp/service/S3FileService.java:153-154 | in a store of slash-free names a name containing '/' finds nothing and removing by it changes nothing |
| FileRepositories.SavedThenRemoved | src/main/java/com/ktb/chatapp/service/S3FileService.java:74 | saving under a fresh name and removing by that name restores the store |
| FileRepositories.FileRepository.FindById | src/main/java/com/ktb/chatapp/service/S3FileService.java:135-136 | finds a record exactly when the id is stored |
| FileRepositories.FileRepository.FindByFilename | src/main/java/com/ktb/chatapp/service/S3FileService.java:101-102 | finds a stored record with that name, and finds none exactly when no record has it |
| FileRepositories.FileRepository.Save | src/main/java/com/ktb/chatapp/service/S3FileService.java:74 | the record is stored under the next id, which was free, and the counter advances |
| FileRepositories.SaveKeepsSlashFree | src/main/java/com/ktb/chatapp/service/S3FileService.java:74 | saving a record whose name has no '/' keeps every stored name slash-free |
| FileRepositories.FileRepository.Delete | src/main/java/com/ktb/chatapp/service/S3FileService.java:143 | removes the record stored under the entity's id |
| S3FileService.VerifyAccess | src/main/java/com/ktb/chatapp/service/S3FileService.java:160-177 | profile: allowed exactly for the uploader; chat: message missing, then room missing, then allowed exactly for room participants |
| S3FileService.ProfileAccessIgnoresRooms | src/main/java/com/ktb/chatapp/service/S3FileService.java:161-166 | a profile decision does not depend on messages or rooms |
| S3FileService.ChatUploaderNeedsRoom | src/main/java/com/ktb/chatapp/service/S3FileService.java:168-176 | the uploader of a chat file outside its room is refused |
| S3FileService.StripTrailingSlash | src/main/java/com/ktb/chatapp/service/S3FileService.java:180-183 | a non-blank prefix ending in '/' loses exactly that '/'; otherwise it is unchanged |
| S3FileService.BuildObjectKey | src/main/java/com/ktb/chatapp/service/S3FileService.java:179-189 | the key ends in '/' followed by the filename |
| S3FileService.ExtractFilename | src/main/java/com/ktb/chatapp/service/S3FileService.java:211-217 | a '/'-free suffix of the key, preceded by '/'; the key itself when it has no '/' |
| S3FileService.ObjectKeyRoundTrip | src/main/java/com/ktb/chatapp/service/S3FileService.java:179-217 | extracting the filename from a built key gives back any '/'-free filename |
| S3FileService.DefaultPrefixKey | src/main/java/com/ktb/chatapp/service/S3FileService.java:49-50 | with the default prefix a chat key reads uploads/chat/uploader/name |
| S3FileService.TrailingSlashIgnored | src/main/java/com/ktb/chatapp/service/S3FileService.java:181-183 | for a non-blank prefix not already ending in '/', adding one trailing '/' gives the same keys |
| S3FileService.ReplacePlus | src/main/java/com/ktb/chatapp/service/S3FileService.java:192-193 | no '+' remains after the replacement |
| S3FileService.ReplacePlusKeepsClean | src/main/java/com/ktb/chatapp/service/S3FileService.java:192-193 | a text without '+' is left unchanged |
| S3FileService.ReplacePlusLength | src/main/java/com/ktb/chatapp/service/S3FileService.java:192-193 | the text grows by exactly two characters per '+' |
| S3FileService.ReplacePlusAt | src/main/java/com/ktb/chatapp/service/S3FileService.java:192-193 | each character is replaced where it stands: '+' by %20, any other character by itself |
| S3FileService.ReplacePlusConcat | src/main/java/com/ktb/chatapp/service/S3FileService.java:192-193 | replacement works piece by piece: the replacement of a concatenation is the concatenation of the replacements |
| S3FileService.EncodedName | src/main/java/com/ktb/chatapp/service/S3FileService.java:192-193 | the encoded name has no '+', and is the URL encoding itself when that has none |
| S3FileService.BuildContentDisposition | src/main/java/com/ktb/chatapp/service/S3FileService.java:191-198 | inline: quoted name plus the encoded name; attachment: the encoded name alone, with no '+'; the value ends with the encoded name |
| S3FileService.ObjectStore.DeleteObject | src/main/java/com/ktb/chatapp/service/S3FileService.java:200-209 | the key is gone unless the store fails, and a failure is swallowed |
| S3FileService.NewRecord | src/main/java/com/ktb/chatapp/service/S3FileService.java:63-72 | the record holds the generated name, the request's type and size, the uploader, the category, the upload time and the normalised original name; the object key is buildObjectKey of the prefix, uploader, category and generated name; the stored name is read back from its key |
| S3FileService.S3FileService.UploadFile | src/main/java/com/ktb/chatapp/service/S3FileService.java:55-97 | invalid metadata changes nothing and reports the reason; otherwise exactly one record is added, holding the generated name and its key, and the ticket's header maps Content-Type to the request type; filenames stay slash-free |
| S3FileService.S3FileService.StoreUpload | src/main/java/com/ktb/chatapp/service/S3FileService.java:59-96 | for accepted metadata: the generated name, one record under the next id with that name and its key, the random stream advanced 8 bytes, and a ticket with the presigned PUT URL, the Content-Type header, the record and the expiry |
| S3FileService.S3FileService.LoadFileAsResource | src/main/java/com/ktb/chatapp/service/S3FileService.java:99-131 | not found, then the access failure, else a GET ticket for that record with its type and disposition |
| S3FileService.S3FileService.DeleteFile | src/main/java/com/ktb/chatapp/service/S3FileService.java:133-145 | unknown id: not found; non-owner: refused; neither changes anything; for the owner the record goes and the result is true even if the object delete fails |
| S3FileService.S3FileService.DeleteFileByPath | src/main/java/com/ktb/chatapp/service/S3FileService.java:147-158 | a blank key gives false and changes nothing; otherwise the record named by the last segment, if any, goes, and the result is true |
| S3FileService.DeleteByPathIdempotent | src/main/java/com/ktb/chatapp/service/S3FileService.java:148-158 | with unique filenames, deleting by path twice leaves the records as deleting once |
| S3FileService.UploadedKeyLocatesRecord | src/main/java/com/ktb/chatapp/service/S3FileService.java:59-74 | deleting by the key of a fresh upload removes exactly that upload's record |
| UserService.ProfileFileToRemove | apps/backend/src/main/java/com/ktb/chatapp/service/UserService.java:85-91 | cleanup removes a record only when findByFilename finds one and the user owns it, and then it is the earliest record with that name, the one findByFilename returns |
| UserService.FilesAfter | apps/backend/src/main/java/com/ktb/chatapp/service/UserService.java:85-91 | after a cleanup exactly the removed record is gone and every other record is kept as it was |
| UserService.KeysAfter | apps/backend/src/main/java/com/ktb/chatapp/service/UserService.java:85-91 | after a cleanup no key is added; the removed record's key is gone unless the S3 delete failed, and no other key is lost |
| UserService.UploadUrlNeverLocatesRecord | apps/backend/src/main/java/com/ktb/chatapp/service/UserService.java:85-95 | a stored upload URL containing '/' never names a record while stored names are slash-free |
| UserService.PreviousImageStaysBehind | apps/backend/src/main/java/com/ktb/chatapp/service/UserService.java:123-131 | in a store where no stored name contains '/', when the user's stored profile image contains '/' (an upload URL), the cleanup finds no record and leaves the records unchanged |
| UserService.UserService.RemoveProfileFile | apps/backend/src/main/java/com/ktb/chatapp/service/UserService.java:124-130 | the records and keys become those after removing the owned record found by the name; a refusal changes nothing and is swallowed |
| UserService.UserService.UploadProfileImage | apps/backend/src/main/java/com/ktb/chatapp/service/UserService.java:78-110 | unknown user, then invalid image: nothing changes; otherwise the old image is cleaned up, whatever that gives, one PROFILE record is added under the next id, the random stream advances 8 bytes, and the response carries the generated name, the upload URL (which becomes profileImage), the Content-Type header and the expiry nowMillis + 1000 * the presign lifetime |
| UserService.UserService.ReplaceProfileImage | apps/backend/src/main/java/com/ktb/chatapp/service/UserService.java:85-109 | for a known user and metadata uploadFile accepts: the old image cleaned up, then one PROFILE record added, the stream advanced 8 bytes, the response with name, URL, header and expiry, and profileImage set to the URL |
| UserService.UserService.StoreProfileImage | apps/backend/src/main/java/com/ktb/chatapp/service/UserService.java:93-109 | invalid metadata is reported and changes neither the records, the user nor the random stream; otherwise one PROFILE record under the next id, the stream advanced 8 bytes, the response with name, URL, header and expiry, and profileImage set to the URL |
| UserService.UserService.SetProfileImage | apps/backend/src/main/java/com/ktb/chatapp/service/UserService.java:95-96 | only the user's profileImage and updatedAt change; every other user is unchanged |
| UserService.UserService.DeleteProfileImage | apps/backend/src/main/java/com/ktb/chatapp/service/UserService.java:119-136 | unknown user: an error; null or empty image: nothing changes; otherwise cleanup, and profileImage becomes "" whatever the cleanup did |
| UserService.UserService.DeleteUserAccount | apps/backend/src/main/java/com/ktb/chatapp/service/UserService.java:138-154 | unknown user: an error; otherwise cleanup of a non-empty image, and the user is removed in every case |
| UserService.UserService.UpdateUserProfile | apps/backend/src/main/java/com/ktb/chatapp/service/UserService.java:36-52 | the name is always replaced; the password changes exactly for a non-null, non-empty newPassword equal to confirmPassword |
| UserService.PasswordRuleSymmetric | apps/backend/src/main/java/com/ktb/chatapp/service/UserService.java:43-44 | swapping the new password and its confirmation gives the same decision; a missing or empty confirmation never changes the password |

## Left out

- **Exception message texts.** Each distinct message is a `Failure` or `Invalid` constructor, and the Korean wording is not modelled.
- **Case mapping.** `toLowerCase` and the `findByEmail(email.toLowerCase())` lookup are modelled on the ASCII letters only. Locale and other Unicode case mappings are not.
- **UTF-8 length.** It is counted per code point. Unpaired surrogates, which Java would encode as '?', are not distinguished.
- **Null values.** A null `size` (a NullPointerException in the source) is not modelled. `size` is a plain integer. A null prefix in `buildObjectKey` is not modelled either.
- **FileUtil.IntFrom.** `nextInt(bound)` is modelled as `next(31)`, the high 31 bits of four stream bytes read big-endian, reduced modulo the bound. Java's rejection loop, which draws again when the draw falls in the final partial block of 2^31, is not modelled. Nor is its power-of-two shortcut, which takes the high bits of `bound * next(31)`. For the bound 10000 the shortcut does not apply. The loop redraws only for the 3648 largest values of `next(31)`, so the model and Java differ only on those.
- **Clock.** The clock is one `nowMillis` reading per call. The source reads it separately for the name, the upload date and each expiry.
- **Presigning, URL encoding, NFC and password encoding.** They are given functions. Their signing failures, and the bytes they actually produce, are not modelled.
- **The `FileResponse.from` DTO mapping.** The ticket carries the record itself.
- **Framework code.** These are not part of this model: the HTTP controller (FileController.java), the AWS client configuration (S3Config.java), bean-validation annotations and logging.
- **Read-only user operations.** `getCurrentUserProfile`, `getProfileImage` and `getUserProfile` only read a user and build a DTO, so they are not modelled.
- **Repository query mechanics.** `findByFilename` is modelled as returning the earliest-saved record with that name. Which duplicate a real query returns is not specified by the source.
- **Persistence of the user.** The user store is a map keyed by e-mail address. A file id is a natural number that the repository assigns, not a string. Ids that cannot name a record are therefore not modelled.
- **Concurrency.** Concurrent requests on the shared repository and `SecureRandom` are not modelled.
