/** Uploaded files and in-memory zip archives, as the image tools see them. */
module Files {

  type Byte = bv8
  type Bytes = seq<Byte>

  /** An uploaded file: its name as uploaded and its contents. */
  datatype Upload = Upload(name: string, data: Bytes)

  /** A zip archive as the list of entries written to it, in writing order;
      the byte format and the compression are not modelled. */
  type Archive = seq<(string, Bytes)>
}
