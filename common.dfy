/** Values shared by every layer: optional values, the outcome of a validator,
    and the failures the services raise. Each failure constructor stands for one
    exception message of the source; the messages themselves are not modelled. */
module Common {

  /** A Java reference that may be null. */
  datatype Option<+T> = None | Some(value: T)

  /** The family word a validation message uses for a content type
      (getFileType: "이미지", "동영상", "오디오", "문서", "파일"). */
  datatype FileKind = Image | Video | Audio | Document | OtherFile

  /** Why a metadata validator threw IllegalArgumentException. */
  datatype Invalid =
    | MissingRequest                          // no request at all
    | InvalidFilename                         // blank or null filename
    | FilenameTooLong                         // over 255 UTF-8 bytes
    | UnsupportedType                         // content type not in the table
    | InvalidExtension(kind: FileKind)        // extension not allowed for the type
    | InvalidSize                             // size <= 0
    | TooLarge(kind: FileKind, limitMiB: int) // size over the family limit
    | NotAnImage                              // profile image: not one of four image types
    | ImageTooLarge(maxMiB: int)              // profile image: over the configured maximum

  /** A validator either accepts or names the first rule that failed. */
  datatype Verdict = Accept | Reject(reason: Invalid)

  /** The exceptions the services throw, one constructor per message. */
  datatype Failure =
    | InvalidMetadata(reason: Invalid)
    | FileNotFound          // "파일을 찾을 수 없습니다."
    | ProfileAccessDenied   // "프로필 이미지에 접근할 권한이 없습니다."
    | MessageNotFound       // "파일과 연결된 메시지를 찾을 수 없습니다."
    | RoomNotFound          // "방을 찾을 수 없습니다."
    | FileAccessDenied      // "파일에 접근할 권한이 없습니다."
    | DeleteDenied          // "파일을 삭제할 권한이 없습니다."
    | UserNotFound          // UsernameNotFoundException

  /** A service call either returns a value or throws one failure. */
  datatype Result<+T> = Ok(value: T) | Err(failure: Failure)
}
