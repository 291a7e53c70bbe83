/**
  The archive side of the collector: the input file, its entries by name, the errors a
  read can raise, and the library functions (XML parser, base64 encoder) it calls.
 */
module Archive {
  import opened Wrappers
  import opened Xml

  newtype Byte = b: int | 0 <= b < 256

  type Bytes = seq<Byte>

  /** The file handed to the collector: whether `zipfile.is_zipfile` accepts it and, if it
      does, the archive's entries by member name. */
  datatype EpubFile = EpubFile(isZip: bool, entries: map<string, Bytes>)

  /** The exceptions that escape the collector. */
  datatype Error =
    | UnknownFile                 // EPubException('Unknown file'): not a zip archive
    | MissingEntry(name: string)  // KeyError from ZipFile.read: no member of that name
    | MalformedXml(name: string)  // the XML parser rejects the member's bytes
    | NoRootfile                  // IndexError: the container lists no rootfile element
    | NoFullPath                  // KeyError: the first rootfile has no full-path attribute

  /** Library functions the collector calls and this model does not describe: the XML
      parser (`None` when it raises) and the base64 encoder. */
  datatype Libs = Libs(parseXml: Bytes -> Option<Document>, base64: Bytes -> Bytes)

  /** `zf.read(name)`. */
  function Read(entries: map<string, Bytes>, name: string): (r: Result<Bytes, Error>)
    ensures r.Success? <==> name in entries
    ensures r.Success? ==> r.value == entries[name]
    ensures r.Failure? ==> r.error == MissingEntry(name)
  {
    if name in entries then Success(entries[name]) else Failure(MissingEntry(name))
  }

  /** `minidom.parseString(zf.read(name))`. */
  function ReadXml(entries: map<string, Bytes>, libs: Libs, name: string): (r: Result<Document, Error>)
    ensures r.Success? <==> name in entries && libs.parseXml(entries[name]).Some?
    ensures r.Success? ==> libs.parseXml(entries[name]) == Some(r.value)
    ensures r.Failure? ==> r.error == (if name in entries then MalformedXml(name) else MissingEntry(name))
  {
    var bytes :- Read(entries, name);
    match libs.parseXml(bytes)
    case Some(doc) => Success(doc)
    case None => Failure(MalformedXml(name))
  }
}
