/**
 * Shapes shared by the storage and upload components: the bucket
 * configuration records, the argument records of the object operations,
 * the multer options, and the log entries the operations emit.
 */
module Types {

  datatype Option<+T> = None | Some(value: T)

  /** One entry of `options.s3`: a named bucket with its region, credentials and default visibility. */
  datatype BucketConfig = BucketConfig(
    isPrivateAccess: bool,
    bucketName: string,
    bucketRegion: string,
    accessKey: string,
    secretKey: string)

  /**
   * Arguments of `uploadFile`. `folder` defaults to undefined (None) and
   * `isPrivateAccess` may be left undefined (None), so that `??` falls back.
   */
  datatype UploadFileArgs = UploadFileArgs(
    file: seq<bv8>,
    folder: Option<string>,
    bucketName: string,
    isPrivateAccess: Option<bool>,
    contentType: string)

  /** Arguments of `generatePreSignedUrl`; `expiresIn` may be left undefined (None). */
  datatype PreSignedUrlArgs = PreSignedUrlArgs(key: string, bucketName: string, expiresIn: Option<int>)

  /** Arguments of `deleteFile`. */
  datatype DeleteFileArgs = DeleteFileArgs(key: string, bucketName: string)

  /** Options of the multer middleware factory; an undefined field is None. */
  datatype MulterOptions = MulterOptions(allowedMimes: Option<seq<string>>, maxSize: Option<int>)

  /** A message handed to the logger: `logger.log`, `logger.warn` or `logger.error`. */
  datatype LogEntry = Info(message: string) | Warn(message: string) | Error(message: string)
}
