/**
 * What the object-storage client hands the gateway: an object's attributes,
 * the reader opened on it, and the errors both calls can fail with.
 */
module Storage {
  import opened GoTime

  /** `storage.ObjectAttrs`, restricted to the fields the gateway reads. */
  datatype ObjectAttrs = ObjectAttrs(
    name: string,
    contentType: string,
    contentLanguage: string,
    cacheControl: string,
    contentDisposition: string,
    updated: Time,
    metadata: map<string, string>)

  /** `storage.ReaderObjectAttrs`: what the opened reader reports about the bytes it serves. */
  datatype ReaderAttrs = ReaderAttrs(contentEncoding: string, size: int)

  /** An opened `storage.Reader`: its attributes and the bytes it yields. */
  datatype Reader = Reader(attrs: ReaderAttrs, content: string)

  /**
   * A Go `error` as the handler sees it: the storage client's distinguished
   * `storage.ErrObjectNotExist`, or any other error with its message.
   */
  datatype Error = ObjectNotExist | Failure(text: string)

  /** `err.Error()`. */
  function ErrorText(e: Error): string
  {
    match e
    case ObjectNotExist => "storage: object doesn't exist"
    case Failure(text) => text
  }
}
