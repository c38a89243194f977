/** The lightweight index: one row per novel, without the synopsis column,
    and its normalisation at load time. */
module Records {
  import opened Wrappers

  /** The genre given to a novel whose genre cell is missing ("unknown"). */
  const UnknownGenre: string := "不明"

  /** A row as read from the store: any cell may be missing. The `length`
      and `lastUp` (general_lastup) cells are carried through untouched. */
  datatype RawRecord = RawRecord(
    ncode: string,
    title: Option<string>,
    genre: Option<string>,
    globalPoint: Option<int>,
    length: Option<int>,
    lastUp: Option<string>,
    keyword: Option<string>)

  /** A row of the index after normalisation: genre and score are always present. */
  datatype Record = Record(
    ncode: string,
    title: Option<string>,
    genre: string,
    globalPoint: int,
    length: Option<int>,
    lastUp: Option<string>,
    keyword: Option<string>)

  /** Fill a missing score with 0 and a missing genre with `UnknownGenre`. */
  function NormalizeRow(raw: RawRecord): (r: Record)
    ensures raw.globalPoint.Some? ==> r.globalPoint == raw.globalPoint.value
    ensures raw.globalPoint.None? ==> r.globalPoint == 0
    ensures raw.genre.Some? ==> r.genre == raw.genre.value
    ensures raw.genre.None? ==> r.genre == UnknownGenre
    ensures && r.ncode == raw.ncode && r.title == raw.title && r.length == raw.length
            && r.lastUp == raw.lastUp && r.keyword == raw.keyword
  {
    Record(raw.ncode, raw.title, raw.genre.GetOr(UnknownGenre), raw.globalPoint.GetOr(0),
           raw.length, raw.lastUp, raw.keyword)
  }

  /** The row a normalised record would have been read from, with every cell present. */
  function Lift(r: Record): (raw: RawRecord) {
    RawRecord(r.ncode, r.title, Some(r.genre), Some(r.globalPoint), r.length, r.lastUp, r.keyword)
  }

  /** Normalise a whole table, column by column, keeping its rows and their order. */
  function Normalize(raws: seq<RawRecord>): (index: seq<Record>)
    ensures |index| == |raws|
    ensures forall i :: 0 <= i < |raws| ==> index[i] == NormalizeRow(raws[i])
  {
    seq(|raws|, i requires 0 <= i < |raws| => NormalizeRow(raws[i]))
  }

  function LiftAll(index: seq<Record>): (raws: seq<RawRecord>)
    ensures |raws| == |index|
    ensures forall i :: 0 <= i < |index| ==> raws[i] == Lift(index[i])
  {
    seq(|index|, i requires 0 <= i < |index| => Lift(index[i]))
  }

  /** A table with every score and genre present is left exactly as it is. */
  lemma NormalizeRoundTrip(index: seq<Record>)
    ensures Normalize(LiftAll(index)) == index
  {
  }
}
