/**
 What the archive reader yields for one level file, with the decompression,
 text decoding and JSON parsing already done: the model receives their
 outcomes as data.
 */
module LevelArchive {
  import opened JsValue
  import opened Index

  /** The only entry name whose contents are read. */
  const MetaFileName: string := "meta.json"

  /** What reading a considered entry's metadata yields: `ParseFailed` for
      any throw while decoding its data, parsing its text or destructuring the
      parsed value (a `null` document, say), or else the three fields read
      from the parsed object (`None` when absent). */
  datatype Meta =
    | ParseFailed
    | Parsed(songName: Option<string>, songProducer: Option<string>, levelAuthor: Option<string>)

  /** One archive entry: its name, whether it is a directory marker, the text
      its data decodes to (`None` when the reader gives none), and what parsing
      that text yields. An entry whose `getData` throws is one with some
      `text` and `meta == ParseFailed`; an entry with `text == None` is
      skipped whatever its `meta`. */
  datatype Entry = Entry(filename: string, directory: bool, text: Option<string>, meta: Meta)

  /** Opening the archive and listing its entries either fails or yields them in order. */
  datatype Archive = Unreadable | Entries(entries: seq<Entry>)

  /** The entry is looked at: it is named exactly "meta.json", is not a
      directory, and has decoded text. Every other entry is skipped. */
  predicate Considered(e: Entry) {
    e.filename == MetaFileName && !e.directory && e.text.Some?
  }

  /** The parsed metadata carries all three required fields, each truthy. */
  predicate Valid(meta: Meta) {
    meta.Parsed? && Truthy(meta.songName) && Truthy(meta.songProducer) && Truthy(meta.levelAuthor)
  }

  /** A considered entry whose metadata is stored. */
  predicate Accepts(e: Entry) {
    Considered(e) && Valid(e.meta)
  }

  /** A considered entry that ends the scan of its archive: its text does not
      parse, or a required field is falsy. */
  predicate Stops(e: Entry) {
    Considered(e) && !Valid(e.meta)
  }

  /** The record stored for valid metadata: the producer becomes the song's author. */
  function ToLevel(meta: Meta, url: string): (x: Level)
    requires Valid(meta)
    ensures Complete(x)
    ensures x.url == url
    ensures Some(x.songName) == meta.songName && Some(x.songAuthor) == meta.songProducer
    ensures Some(x.levelAuthor) == meta.levelAuthor
  {
    Level(meta.songName.value, meta.songProducer.value, meta.levelAuthor.value, url)
  }
}
