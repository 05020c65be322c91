// Offsets and ranges of text. A `TextUnit` is an offset counted in bytes of
// the UTF-8 text; here every character of a `string` stands for one byte.

module TextUnits {

  datatype Interval = Interval(start: nat, end: nat)

  /** A `TextRange` is a half-open interval `[start, end)` with `start <= end`. */
  type TextRange = r: Interval | r.start <= r.end witness Interval(0, 0)

  /** `TextRange::from_to`: the constructor asserts `start <= end`. */
  function FromTo(start: nat, end: nat): (r: TextRange)
    requires start <= end
    ensures r.start == start && r.end == end
  {
    Interval(start, end)
  }

  /** `TextRange::offset_len`. */
  function OffsetLen(offset: nat, len: nat): (r: TextRange)
    ensures r.start == offset && r.end - r.start == len
  {
    Interval(offset, offset + len)
  }

  function RangeLen(r: TextRange): nat {
    r.end - r.start
  }

  /** Strictly inside: neither at the start nor at the end of the range. */
  predicate StrictlyInside(r: TextRange, pos: nat) {
    r.start < pos < r.end
  }
}
