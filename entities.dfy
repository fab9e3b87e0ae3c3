/** The records the core reads and writes. */
module Entities {
  import opened Common

  /** FileCategory: the purpose of a stored file, which decides its access policy. */
  datatype FileCategory = Chat | Profile

  /** category.name().toLowerCase(): the key segment of a category. */
  function CategorySegment(category: FileCategory): string {
    match category
    case Chat => "chat"
    case Profile => "profile"
  }

  /** Identifiers of file records; the repository hands them out. */
  type FileId = nat

  /** The persisted metadata of one stored object (the File document).
      Instants are epoch milliseconds. */
  datatype FileRecord = FileRecord(
    id: FileId,
    filename: string,       // generated stored name
    originalname: string,   // normalised user-supplied name
    mimetype: string,
    size: int,
    objectKey: string,      // full key in the bucket
    user: string,           // uploader id, the sole owner
    category: FileCategory,
    uploadDate: int)

  /** The part of a chat message the access check reads. */
  datatype Message = Message(roomId: string)

  /** The part of a chat room the access check reads. */
  datatype Room = Room(participantIds: seq<string>)

  /** FileUploadRequest: declared metadata of a file the client will upload.
      The two strings may be null. */
  datatype UploadRequest = UploadRequest(
    originalFilename: Option<string>,
    contentType: Option<string>,
    size: int)
}
