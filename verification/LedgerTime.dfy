/**
 Ledger timestamps: signed 64-bit Unix nanoseconds, with the zero time mapped to a sentinel
 (internal/dbtime/dbtime.go).
 */
module LedgerTime {
  import opened Results
  import opened Int64

  const BILLION: int := 1_000_000_000

  /** A UTC instant: whole seconds since the Unix epoch and nanoseconds within the second. */
  datatype Time = Time(sec: int, nsec: int) {
    ghost predicate Valid() { 0 <= nsec < BILLION }

    /** The exact nanosecond count, without any width. */
    ghost function Count(): int { sec * BILLION + nsec }

    /** `time.Time.UnixNano`: computed in 64 bits, so it wraps. */
    function UnixNano(): int { Wrap64(Wrap64(sec * BILLION) + nsec) }
  }

  /** January 1, year 1, 00:00:00 UTC. */
  const ZERO := Time(-62_135_596_800, 0)

  const UNSET: int := MIN_INT64

  /** Go's integer division truncates toward zero. */
  function TruncDiv(a: int, b: int): int
    requires b > 0
  {
    if a >= 0 then a / b else -((-a) / b)
  }

  /** `time.Unix(0, nanos)`. */
  function Unix(nanos: int): Time {
    if 0 <= nanos < BILLION then Time(0, nanos)
    else
      var n := TruncDiv(nanos, BILLION);
      var rest := nanos - n * BILLION;
      if rest < 0 then Time(n - 1, rest + BILLION) else Time(n, rest)
  }

  datatype TimeError = OutOfRange | Unparseable | Corrupt

  function ToUnixNano(t: Time): Result<int, TimeError> {
    if t == ZERO then Ok(UNSET)
    else
      var nanos := t.UnixNano();
      if nanos == UNSET || Unix(nanos) != t then Err(OutOfRange) else Ok(nanos)
  }

  function FromUnixNano(nanos: int): Time {
    if nanos == UNSET then ZERO else Unix(nanos)
  }

  lemma UnixCounts(nanos: int)
    ensures Unix(nanos).Valid() && Unix(nanos).Count() == nanos
  {
  }

  lemma CountUnique(t: Time, u: Time)
    requires t.Valid() && u.Valid() && t.Count() == u.Count()
    ensures t == u
  {
  }

  /** Although UnixNano wraps, exactly the representable instants and the zero time are accepted. */
  lemma ToUnixNanoExact(t: Time)
    requires t.Valid()
    ensures ToUnixNano(t).Ok? <==> t == ZERO || -9_223_372_036_854_775_808 < t.Count() <= 9_223_372_036_854_775_807
    ensures ToUnixNano(t).Ok? && t != ZERO ==> ToUnixNano(t).value == t.Count()
  {
    var nanos := t.UnixNano();
    WrapStep(t.sec * BILLION, t.nsec);
    UnixCounts(nanos);
    if t.Count() == nanos { CountUnique(Unix(nanos), t); }
  }

  lemma FromTo(nanos: int)
    requires MIN_INT64 <= nanos <= MAX_INT64
    ensures ToUnixNano(FromUnixNano(nanos)) == Ok(nanos)
  {
    UnixCounts(nanos);
    ToUnixNanoExact(FromUnixNano(nanos));
  }

  lemma ToFrom(t: Time)
    requires t.Valid() && ToUnixNano(t).Ok?
    ensures FromUnixNano(ToUnixNano(t).value) == t
  {
    ToUnixNanoExact(t);
    if t != ZERO {
      UnixCounts(t.Count());
      CountUnique(Unix(t.Count()), t);
    }
  }

  /** Comparing the stored numbers is comparing the instants. */
  lemma OrderPreserved(t: Time, u: Time)
    requires t.Valid() && u.Valid() && t != ZERO && u != ZERO && ToUnixNano(t).Ok? && ToUnixNano(u).Ok?
    ensures ToUnixNano(t).value < ToUnixNano(u).value <==> t.Count() < u.Count()
  {
    ToUnixNanoExact(t);
    ToUnixNanoExact(u);
  }
}
