/** The records that travel between the two peers, and the records each side
    keeps about them. */
module Protocol {

  /** Raw file contents, as an ArrayBuffer holds them. */
  type Bytes = seq<bv8>

  /** A browser File as the sender's picker or drop surface hands it over:
      its name, MIME type, size in bytes and contents. */
  datatype FileRec = FileRec(name: string, mime: string, size: nat, content: Bytes)

  /** A browser File always reports the byte length of its contents as its size. */
  type File = f: FileRec | f.size == |f.content| witness FileRec("", "", 0, [])

  /** The message the sender emits once per file: `{filename, filetype, filesize, filedata}`. */
  datatype Payload = Payload(filename: string, filetype: string, filesize: nat, filedata: Bytes)

  /** The message the receiver answers each payload with: `{ack: filename}`. */
  datatype Ack = Ack(ack: string)

  /** The receiver's record of one arrived file; `url` is the object URL the
      browser minted for its contents, an opaque token here. */
  datatype ReceivedFile = ReceivedFile(filename: string, filesize: nat, url: string)

  /** A payload whose declared size is the length of the data it carries. */
  predicate Consistent(p: Payload) {
    p.filesize == |p.filedata|
  }
}
