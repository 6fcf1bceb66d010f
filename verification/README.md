# Level index of TheRhythmGardenLevelServer, in Dafny

The level server keeps an in-memory index from level-archive path to a level
record (song name, song author, level author, download URL). A filesystem
event for a path runs `handleFile`. The routine drops the path from the index
when the file is gone. It leaves the index alone when the archive cannot be
opened. Otherwise it walks the archive's entries, storing the metadata of each
readable `meta.json` file and giving up at the first one that does not parse or
lacks a field. `GET /` lists copies of all records, each with its URL made
absolute.

This project models that decision logic as pure functions over an immutable
`map<string, Level>`:

- `js_value.dfy` (`JsValue`): `undefined`-able values and JavaScript truthiness of optional strings.
- `index.dfy` (`Index`): the `Level` record, the index type, and the frame predicates (`OnlyTouches`, `SameAt`, `WellFormed`).
- `archive.dfy` (`LevelArchive`): archive entries, the abstract JSON parse result, which entries are considered, valid or stopping, and the stored record.
- `indexer.dfy` (`Indexer`): the entry scan, the `handleFile` transition, the same routine written as the source's loop, and the laws about them.
- `watch.dfy` (`Watch`): the watch callback with its no-name sentinel path.
- `listing.dfy` (`Listing`): the `GET /` projection.

The I/O results arrive as data. `existsSync` becomes a boolean, or membership in a `Disk` map. The zip reader, the text decoder and `JSON.parse` become an `Archive` value: either `Unreadable` or a sequence of entries, each with optional text and a parse result. `path.basename`, `path.join` and the WHATWG URL parser become function-typed parameters. The parser returns `None` where `new URL` would throw.

Three details of `handleFile` are easy to misread:

- A falsy field returns from the whole routine (server.ts:38); it does not `continue` to the next entry. Entries after it are never looked at.
- A throw from `JSON.parse` (server.ts:36) leaves in place the records that earlier `meta.json` entries of the same archive already stored.
- An entry is considered only when its name is exactly `meta.json` (server.ts:31). An entry `sub/meta.json` deeper in the archive is skipped.

Because the index is a value, the listing cannot modify it. The contract of `Listing.Project` states what the source's copy (`{ ...x }`) ensures: only `url` differs.

## Model

| member | source | states |
|---|---|---|
| LevelArchive.ToLevel | server.ts:37-45 | the stored record takes the song name, the producer as song author and the level author verbatim from the metadata; all three are non-empty |
| Indexer.Scan | server.ts:30-47 | the scan changes the index at most at `path`; a record it leaves there that was not there before comes from some accepted entry; it runs to the end exactly when no considered entry has a parse failure or a falsy field; it ends by throwing only if some considered entry failed to parse |
| Indexer.HandleFile | server.ts:18-48 | only `path` can change; a missing file removes `path` and keeps every other key; an unreadable archive leaves the index unchanged; any new record at `path` comes from an accepted `meta.json` entry with URL "/" + basename(path) |
| Indexer.RunHandleFile | server.ts:18-48 | the imperative routine as server.ts writes it (early returns, `continue` past skipped entries, `return` at an invalid one) computes exactly the transition `HandleFile` |
| Indexer.ScanAppend | server.ts:30-47 | scanning `a + b` is scanning `a` and, only if that ran to its end, continuing with `b` from the index it left |
| Indexer.SkippedEntryIsIgnored | server.ts:31-34 | an entry with another name, a directory entry, or one without text has no effect anywhere in the sequence |
| Indexer.StoppingEntryEndsScan | server.ts:36-38 | after a considered entry with a parse failure or a falsy field, later entries are never examined, and the index keeps the upserts made before it; if it is the first such entry, the run ends by throwing for a parse failure and by returning for a falsy field |
| Indexer.NoMetaLeavesIndex | server.ts:30-34 | an archive with no non-directory `meta.json` entry with text leaves the index unchanged |
| Indexer.FirstMetaInvalidLeavesIndex | server.ts:30-38 | when the first considered entry fails to parse or has a falsy field, nothing is stored and the scan does not complete |
| Indexer.NoAcceptedEntryLeavesIndex | server.ts:30-47 | entries none of which is a valid `meta.json` leave the index unchanged, whether the scan completes, returns or throws |
| Indexer.ValidEntryWithNoValidSuccessorWins | server.ts:30-47 | when no entry before the k-th one stops the scan and no valid entry follows it, the k-th entry's record is what remains at `path`, however the scan ends |
| Indexer.LastValidEntryWins | server.ts:30-47 | of the valid `meta.json` entries before the entry where the scan stops (or the end), the last one's record is what remains at `path`; the stopping entry's `return` or throw keeps it, and valid entries after the stop are never read |
| Indexer.DeletingAbsentPathIsNoop | server.ts:19-22 | handling a missing path that is not indexed leaves the index exactly as it was |
| Indexer.SingleValidMetaIsStored | server.ts:40-45 | an archive whose only considered entry is valid ends with exactly that record at `path` and every other key unchanged |
| Indexer.HandleFileKeepsWellFormed | server.ts:37-45 | if every indexed record is complete and has URL "/" + basename of its key, that still holds after the routine |
| Indexer.ScanIsLocal | server.ts:30-47 | what the scan leaves at `path`, and how it ends, depends on the index only through its record at `path` |
| Indexer.HandleFileIsLocal | server.ts:18-48 | what the routine leaves at `path` depends on the index only through its record at `path` |
| Indexer.HandleFileCommutes | server.ts:18-48 | runs for two different paths give the same index in either order |
| Watch.OnEvent | server.ts:53 | a notification changes the index at most at its own path; a path absent from disk ends up absent from the index; an unreadable archive changes nothing |
| Watch.NamelessEventIsNoop | server.ts:53 | a notification without a usable name is handled for "levels/nonexistent" and, when that path is neither on disk nor indexed, leaves the index unchanged |
| Listing.Project | server.ts:59-61 | a listed element equals its record except that `url` is the resolved URL; it fails exactly when resolution fails |
| Listing.ListLevels | server.ts:56-63 | the body holds one element per indexed path, each the projection of that path's record, with no path repeated; it fails exactly when some record's URL cannot be resolved |

## Left out

- Filesystem access (`existsSync`, `readFileSync`, `readdirSync`): replaced by a boolean or a `Disk` map. A file that vanishes between the existence check and the read is not modelled.
- Zip decompression, text decoding and `JSON.parse`: replaced by an `Archive` value whose entries carry optional text and an abstract parse result. JSON syntax is not modelled.
- JavaScript truthiness is modelled only for optional strings. A parsed field that is a number, an object or a boolean is not represented.
- `path.basename`, `path.join` and the WHATWG URL parser are function-typed parameters. Their own behaviour is not specified, so the absolute-URL round trip of the listing is not stated.
- The startup scan runs `handleFile` for every file concurrently (server.ts:51). It is not modelled. `Indexer.HandleFileCommutes` shows only that two complete runs for distinct paths commute. Runs that interleave at the `await`s (server.ts:28, 33) are not modelled, and neither are interleaved runs on the same path, which have no defined winner.
- `readFileSync` (server.ts:24) sits outside the `try`. It throws for a subdirectory of the watched directory or an unreadable file, and the model has no outcome for that; `Archive.Unreadable` covers only the failures caught at server.ts:26-29.
- A throw from `entry.getData` (server.ts:33, a CRC error or an encrypted entry, say) or from destructuring a `null` document (server.ts:37) is modelled as `ParseFailed`, the same as a `JSON.parse` failure.
- A throw is an unhandled rejection. At server.ts:51 it fails the top-level `await`, so the server never starts listening; at server.ts:53 it rejects the callback's promise. `Finished(Threw)` records only the index at the moment of the throw, not what happens to the process afterwards.
- Listing.ListLevels: allows any order of the elements, while `Object.values` (server.ts:58) lists the paths in insertion order; insertion order is not tracked by the map.
- The watch event type is ignored by the source and is not a parameter.
- The express server, static file serving, the CORS header and its `ORIGIN` default, the port and `dotenv` are HTTP plumbing with no decision logic.
- Console logging is left out. This includes the "Deleted" message that is printed even when nothing was deleted.
- The `in` test on a plain object also sees prototype properties. Every path starts with "levels/", so such keys cannot occur, and the index is modelled as a map.
