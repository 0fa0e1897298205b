/** The backing file `links.json` as far as the dispatcher sees it.

    The file holds the serialized link map. The serializer is a library
    whose encoding is not part of this model, so a file is described by
    what it decodes to: nothing at all (zero length), a document holding a
    map, or content that does not parse.
 */
module Store {

  datatype BackingFile = Empty | Document(links: map<string, string>) | Corrupt

  datatype Loaded = Links(links: map<string, string>) | ParseError

  /** `read_links`: a zero-length file is the empty map of a first run,
      not an error; any other file must decode to a map. */
  function Load(f: BackingFile): (r: Loaded)
    ensures f.Empty? ==> r == Links(map[])
    ensures r.ParseError? <==> f.Corrupt?
  {
    match f
    case Empty => Links(map[])
    case Document(links) => Links(links)
    case Corrupt => ParseError
  }

  /** `write_links_to_file` after `File::create`: the file is truncated and
      receives the whole map, which loads back unchanged. */
  function Save(m: map<string, string>): (f: BackingFile)
    ensures Load(f) == Links(m)
  {
    Document(m)
  }
}
