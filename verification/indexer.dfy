/**
 The file-handling routine: how one filesystem event for one path changes the
 level index. The disk check, the archive reader and `basename` are inputs.
 */
module Indexer {
  import opened JsValue
  import opened Index
  import opened LevelArchive

  /** How the scan of an archive's entries ended: it ran off the end, it
      returned at an entry with a falsy field, or reading an entry's metadata
      threw. `Threw` is an unhandled rejection of the routine's promise; the
      index is what it was when the throw happened. */
  datatype ScanEnd = Completed | Rejected | Threw

  /** The index after a scan, and how the scan ended. */
  datatype Scanned = Scanned(levels: Levels, end: ScanEnd)

  /** How one run of the routine ended. */
  datatype Outcome = Deleted | Unopened | Finished(end: ScanEnd)

  /** The index after one run of the routine, and how it ended. */
  datatype Step = Step(levels: Levels, outcome: Outcome)

  /** The loop over the archive's entries. Entries that are not a readable
      "meta.json" file are skipped; a considered entry whose text does not
      parse, or whose metadata lacks a truthy field, ends the whole scan with
      the index as it stands; a valid one overwrites the record at `path`. */
  function Scan(m: Levels, path: string, url: string, es: seq<Entry>): (r: Scanned)
    decreases |es|
    ensures OnlyTouches(m, r.levels, path)
    ensures path in r.levels ==>
              || (path in m && r.levels[path] == m[path])
              || exists i :: 0 <= i < |es| && Accepts(es[i]) && r.levels[path] == ToLevel(es[i].meta, url)
    ensures r.end == Completed <==> forall i :: 0 <= i < |es| ==> !Stops(es[i])
    ensures r.end == Threw ==> exists i :: 0 <= i < |es| && Considered(es[i]) && es[i].meta.ParseFailed?
  {
    if |es| == 0 then
      Scanned(m, Completed)
    else
      var e := es[0];
      if !Considered(e) then
        Scan(m, path, url, es[1..])
      else
        match e.meta
        case ParseFailed => Scanned(m, Threw)
        case Parsed(name, producer, author) =>
          if !Truthy(name) || !Truthy(producer) || !Truthy(author) then
            Scanned(m, Rejected)
          else
            Scan(m[path := ToLevel(e.meta, url)], path, url, es[1..])
  }

  /** The URL fragment a level file is downloaded from. */
  function UrlOf(path: string, basename: string -> string): string {
    "/" + basename(path)
  }

  /** One run of the file-handling routine for `path`. A missing file is
      removed from the index; an archive that cannot be opened leaves the
      index alone; otherwise its entries are scanned. */
  function HandleFile(m: Levels, path: string, onDisk: bool, archive: Archive, basename: string -> string): (r: Step)
    ensures OnlyTouches(m, r.levels, path)
    ensures r.outcome == Deleted <==> !onDisk
    ensures !onDisk ==> path !in r.levels && r.levels.Keys == m.Keys - {path}
    ensures r.outcome == Unopened <==> onDisk && archive.Unreadable?
    ensures r.outcome == Unopened ==> r.levels == m
    ensures path in r.levels && !(path in m && r.levels[path] == m[path]) ==>
              && archive.Entries?
              && exists i :: 0 <= i < |archive.entries| && Accepts(archive.entries[i])
                               && r.levels[path] == ToLevel(archive.entries[i].meta, UrlOf(path, basename))
  {
    if !onDisk then
      Step(if path in m then m - {path} else m, Deleted)
    else
      match archive
      case Unreadable => Step(m, Unopened)
      case Entries(es) =>
        var s := Scan(m, path, UrlOf(path, basename), es);
        Step(s.levels, Finished(s.end))
  }

  /** Scanning a concatenation is scanning the first part and, only when that
      ran to its end, going on with the second from the index it left. */
  lemma {:induction false} ScanAppend(m: Levels, path: string, url: string, a: seq<Entry>, b: seq<Entry>)
    ensures var first := Scan(m, path, url, a);
            Scan(m, path, url, a + b)
            == if first.end == Completed then Scan(first.levels, path, url, b) else first
    decreases |a|
  {
    if |a| == 0 {
      assert a + b == b;
    } else {
      assert (a + b)[0] == a[0];
      assert (a + b)[1..] == a[1..] + b;
      var e := a[0];
      if Considered(e) && Valid(e.meta) {
        ScanAppend(m[path := ToLevel(e.meta, url)], path, url, a[1..], b);
      } else if !Considered(e) {
        ScanAppend(m, path, url, a[1..], b);
      }
    }
  }

  /** An entry that is not a readable "meta.json" file has no effect on the scan. */
  lemma SkippedEntryIsIgnored(m: Levels, path: string, url: string, a: seq<Entry>, e: Entry, b: seq<Entry>)
    requires !Considered(e)
    ensures Scan(m, path, url, a + [e] + b) == Scan(m, path, url, a + b)
  {
    ScanAppend(m, path, url, a, [e] + b);
    ScanAppend(m, path, url, a, b);
    assert a + [e] + b == a + ([e] + b);
    assert ([e] + b)[1..] == b;
  }

  /** A considered entry with unparsable text or a falsy field ends the scan:
      whatever follows it is never examined, and the index is left as the
      entries before it made it. */
  lemma StoppingEntryEndsScan(m: Levels, path: string, url: string, a: seq<Entry>, e: Entry, rest: seq<Entry>)
    requires Stops(e)
    ensures Scan(m, path, url, a + [e] + rest) == Scan(m, path, url, a + [e])
    ensures Scan(m, path, url, a + [e] + rest).levels == Scan(m, path, url, a).levels
    ensures Scan(m, path, url, a + [e] + rest).end != Completed
    ensures (forall j :: 0 <= j < |a| ==> !Stops(a[j])) ==>
              Scan(m, path, url, a + [e] + rest).end == if e.meta.ParseFailed? then Threw else Rejected
  {
    ScanAppend(m, path, url, a + [e], rest);
    ScanAppend(m, path, url, a, [e]);
  }

  /** An archive without a readable "meta.json" file leaves the index as it was. */
  lemma {:induction false} NoMetaLeavesIndex(m: Levels, path: string, url: string, es: seq<Entry>)
    requires forall i :: 0 <= i < |es| ==> !Considered(es[i])
    ensures Scan(m, path, url, es) == Scanned(m, Completed)
    decreases |es|
  {
    if |es| > 0 {
      NoMetaLeavesIndex(m, path, url, es[1..]);
    }
  }

  /** When the first considered entry stops the scan, nothing is stored. */
  lemma FirstMetaInvalidLeavesIndex(m: Levels, path: string, url: string, es: seq<Entry>, k: nat)
    requires k < |es| && Stops(es[k])
    requires forall j :: 0 <= j < k ==> !Considered(es[j])
    ensures Scan(m, path, url, es).levels == m
    ensures Scan(m, path, url, es).end != Completed
  {
    assert es == es[..k] + [es[k]] + es[k + 1..];
    StoppingEntryEndsScan(m, path, url, es[..k], es[k], es[k + 1..]);
    NoMetaLeavesIndex(m, path, url, es[..k]);
  }

  /** Entries none of which is stored leave the index as it was, however the
      scan ends. */
  lemma {:induction false} NoAcceptedEntryLeavesIndex(m: Levels, path: string, url: string, es: seq<Entry>)
    requires forall i :: 0 <= i < |es| ==> !Accepts(es[i])
    ensures Scan(m, path, url, es).levels == m
    decreases |es|
  {
    if |es| > 0 && !Considered(es[0]) {
      NoAcceptedEntryLeavesIndex(m, path, url, es[1..]);
    }
  }

  /** With no valid entry after the k-th one, the k-th one's record is what
      remains, provided no entry before it stopped the scan. */
  lemma ValidEntryWithNoValidSuccessorWins(m: Levels, path: string, url: string, es: seq<Entry>, k: nat)
    requires k < |es| && Accepts(es[k])
    requires forall j :: 0 <= j < k ==> !Stops(es[j])
    requires forall j :: k < j < |es| ==> !Accepts(es[j])
    ensures Scan(m, path, url, es).levels == m[path := ToLevel(es[k].meta, url)]
  {
    var before := Scan(m, path, url, es[..k]);
    assert es == es[..k] + ([es[k]] + es[k + 1..]);
    ScanAppend(m, path, url, es[..k], [es[k]] + es[k + 1..]);
    assert before.end == Completed;
    assert ([es[k]] + es[k + 1..])[1..] == es[k + 1..];
    NoAcceptedEntryLeavesIndex(before.levels[path := ToLevel(es[k].meta, url)], path, url, es[k + 1..]);
    OverwriteAfterTouch(m, before.levels, path, ToLevel(es[k].meta, url));
  }

  /** Of the valid metadata entries before the scan stops, the last one wins.
      The scan stops at position `s` (or runs to the end when `s == |es|`);
      an invalid entry there ends the routine but keeps the record, and valid
      entries after it are never read. */
  lemma LastValidEntryWins(m: Levels, path: string, url: string, es: seq<Entry>, k: nat, s: nat)
    requires k < s <= |es| && Accepts(es[k])
    requires forall j :: 0 <= j < k ==> !Stops(es[j])
    requires forall j :: k < j < s ==> !Accepts(es[j])
    requires s < |es| ==> Stops(es[s])
    ensures Scan(m, path, url, es).levels == m[path := ToLevel(es[k].meta, url)]
  {
    if s == |es| {
      ValidEntryWithNoValidSuccessorWins(m, path, url, es, k);
    } else {
      assert es == es[..s] + [es[s]] + es[s + 1..];
      StoppingEntryEndsScan(m, path, url, es[..s], es[s], es[s + 1..]);
      ValidEntryWithNoValidSuccessorWins(m, path, url, es[..s], k);
    }
  }

  /** Handling a path that is gone and was never indexed changes nothing; the
      watcher's no-name event relies on this. */
  lemma DeletingAbsentPathIsNoop(m: Levels, path: string, archive: Archive, basename: string -> string)
    requires path !in m
    ensures HandleFile(m, path, false, archive, basename) == Step(m, Deleted)
  {
  }

  /** An archive whose only readable "meta.json" entry is valid gets exactly
      that entry's record under its path. */
  lemma SingleValidMetaIsStored(m: Levels, path: string, es: seq<Entry>, k: nat, basename: string -> string)
    requires k < |es| && Accepts(es[k])
    requires forall j :: 0 <= j < |es| && j != k ==> !Considered(es[j])
    ensures var r := HandleFile(m, path, true, Entries(es), basename);
            && r.levels == m[path := ToLevel(es[k].meta, UrlOf(path, basename))]
            && r.outcome == Finished(Completed)
  {
    ValidEntryWithNoValidSuccessorWins(m, path, UrlOf(path, basename), es, k);
  }

  /** Every record in the index is complete and carries its own path's URL,
      and each run of the routine keeps it so. */
  lemma HandleFileKeepsWellFormed(m: Levels, path: string, onDisk: bool, archive: Archive, basename: string -> string)
    requires WellFormed(m, basename)
    ensures WellFormed(HandleFile(m, path, onDisk, archive, basename).levels, basename)
  {
  }

  /** What a scan leaves at `path`, and how it ends, depends on the starting
      index only through what that index holds at `path`. */
  lemma {:induction false} ScanIsLocal(m1: Levels, m2: Levels, path: string, url: string, es: seq<Entry>)
    requires SameAt(m1, m2, path)
    ensures SameAt(Scan(m1, path, url, es).levels, Scan(m2, path, url, es).levels, path)
    ensures Scan(m1, path, url, es).end == Scan(m2, path, url, es).end
    decreases |es|
  {
    if |es| > 0 {
      var e := es[0];
      if !Considered(e) {
        ScanIsLocal(m1, m2, path, url, es[1..]);
      } else if Valid(e.meta) {
        var x := ToLevel(e.meta, url);
        ScanIsLocal(m1[path := x], m2[path := x], path, url, es[1..]);
      }
    }
  }

  /** The routine's effect at its own path depends only on the index's record there. */
  lemma HandleFileIsLocal(m1: Levels, m2: Levels, path: string, onDisk: bool, archive: Archive, basename: string -> string)
    requires SameAt(m1, m2, path)
    ensures SameAt(HandleFile(m1, path, onDisk, archive, basename).levels,
                   HandleFile(m2, path, onDisk, archive, basename).levels, path)
  {
    if onDisk && archive.Entries? {
      ScanIsLocal(m1, m2, path, UrlOf(path, basename), archive.entries);
    }
  }

  /** Two runs for different paths do not interfere: either order gives the
      same index. */
  lemma HandleFileCommutes(m: Levels, p: string, pOnDisk: bool, pArchive: Archive,
                           q: string, qOnDisk: bool, qArchive: Archive, basename: string -> string)
    requires p != q
    ensures var pq := HandleFile(HandleFile(m, p, pOnDisk, pArchive, basename).levels, q, qOnDisk, qArchive, basename).levels;
            var qp := HandleFile(HandleFile(m, q, qOnDisk, qArchive, basename).levels, p, pOnDisk, pArchive, basename).levels;
            pq == qp
  {
    var mp := HandleFile(m, p, pOnDisk, pArchive, basename).levels;
    var mq := HandleFile(m, q, qOnDisk, qArchive, basename).levels;
    var pq := HandleFile(mp, q, qOnDisk, qArchive, basename).levels;
    var qp := HandleFile(mq, p, pOnDisk, pArchive, basename).levels;
    UntouchedKey(m, mp, p, q);
    UntouchedKey(m, mq, q, p);
    UntouchedKey(mp, pq, q, p);
    UntouchedKey(mq, qp, p, q);
    HandleFileIsLocal(m, mp, q, qOnDisk, qArchive, basename);
    HandleFileIsLocal(mq, m, p, pOnDisk, pArchive, basename);
    forall k
      ensures SameAt(pq, qp, k)
    {
      if k != p && k != q {
        UntouchedKey(m, mp, p, k);
        UntouchedKey(mp, pq, q, k);
        UntouchedKey(m, mq, q, k);
        UntouchedKey(mq, qp, p, k);
      }
    }
    SameEverywhere(pq, qp);
  }

  /** The routine as server.ts writes it: an early return for a missing file
      and for an unreadable archive, then a loop over the entries that
      `continue`s past uninteresting ones and `return`s at the first invalid one. */
  method RunHandleFile(m: Levels, path: string, onDisk: bool, archive: Archive, basename: string -> string)
    returns (r: Step)
    ensures r == HandleFile(m, path, onDisk, archive, basename)
  {
    var levels := m;
    if !onDisk {
      if path in levels {
        levels := levels - {path};
      }
      return Step(levels, Deleted);
    }
    if archive.Unreadable? {
      return Step(levels, Unopened);
    }
    var es := archive.entries;
    var url := UrlOf(path, basename);
    var i := 0;
    while i < |es|
      invariant 0 <= i <= |es|
      invariant Scan(m, path, url, es) == Scan(levels, path, url, es[i..])
    {
      var e := es[i];
      assert es[i..][1..] == es[i + 1..];
      i := i + 1;
      if e.filename != MetaFileName {
        continue;
      }
      if e.directory {
        continue;
      }
      if e.text.None? {
        continue;
      }
      match e.meta {
        case ParseFailed =>
          return Step(levels, Finished(Threw));
        case Parsed(name, producer, author) =>
          if !Truthy(name) || !Truthy(producer) || !Truthy(author) {
            return Step(levels, Finished(Rejected));
          }
          levels := levels[path := ToLevel(e.meta, url)];
      }
    }
    return Step(levels, Finished(Completed));
  }
}
