/**
 The in-memory level index: a record per archive path, and the frame
 predicates the rest of the model states its results with.
 */
module Index {

  /** One discovered level, as stored in the index and sent to clients. */
  datatype Level = Level(songName: string, songAuthor: string, levelAuthor: string, url: string)

  /** The process-wide index, keyed by archive path. */
  type Levels = map<string, Level>

  /** `a` and `b` agree at `key`: both lack it, or both hold the same record. */
  predicate SameAt(a: Levels, b: Levels, key: string) {
    (key in a <==> key in b) && (key in a ==> a[key] == b[key])
  }

  /** `after` differs from `before` at most at `key`: no key other than `key`
      appears, disappears or changes its record. */
  ghost predicate OnlyTouches(before: Levels, after: Levels, key: string) {
    && after.Keys <= before.Keys + {key}
    && forall k :: k in before && k != key ==> k in after && after[k] == before[k]
  }

  /** The three descriptive fields of a record are all non-empty. */
  predicate Complete(x: Level) {
    x.songName != "" && x.songAuthor != "" && x.levelAuthor != ""
  }

  /** Every stored record is complete and downloads from "/" followed by its
      path's base name. */
  ghost predicate WellFormed(m: Levels, basename: string -> string) {
    forall k :: k in m ==> Complete(m[k]) && m[k].url == "/" + basename(k)
  }

  /** Overwriting `key` erases any difference confined to `key`. */
  lemma OverwriteAfterTouch(before: Levels, after: Levels, key: string, x: Level)
    requires OnlyTouches(before, after, key)
    ensures after[key := x] == before[key := x]
  {
  }

  /** A change confined to `key` leaves every other key as it was. */
  lemma UntouchedKey(before: Levels, after: Levels, key: string, k: string)
    requires OnlyTouches(before, after, key) && k != key
    ensures SameAt(before, after, k)
  {
  }

  /** Maps that agree at every key are equal. */
  lemma SameEverywhere(a: Levels, b: Levels)
    requires forall k :: SameAt(a, b, k)
    ensures a == b
  {
    assert a.Keys == b.Keys by {
      forall k ensures k in a <==> k in b { assert SameAt(a, b, k); }
    }
    forall k | k in a ensures a[k] == b[k] { assert SameAt(a, b, k); }
  }
}
