/**
 The infrastructure circuit breaker: one persisted row per backend and an append-only audit log
 (internal/breaker/breaker.go).
 */
module Breaker {
  import opened Results
  import opened Int64

  // Times are nanoseconds after Go's zero time; 0 is the zero time itself.
  type Instant = t: int | 0 < t witness 1

  const MINUTE: int := 60_000_000_000
  const RATE_BASE: int := 5 * MINUTE
  const RATE_MAX: int := 120 * MINUTE
  const QUOTA_COOLDOWN: int := 60 * MINUTE
  const TRANSIENT_THRESHOLD: int := 3
  const TRANSIENT_WINDOW: int := 30 * MINUTE
  const TRANSIENT_COOLDOWN: int := 5 * MINUTE

  datatype State = Closed | Degraded | Open | HalfOpen

  /** A failure taxonomy: the six infrastructure kinds, or any quality kind. */
  datatype Kind =
    | RateLimit | QuotaExhausted | AuthExpired | BinaryMissing | FlagDrift | TransientUpstream
    | Quality(name: string)

  predicate IsInfra(k: Kind) { !k.Quality? }

  predicate DoctorGated(k: Kind) { k.AuthExpired? || k.BinaryMissing? || k.FlagDrift? }

  datatype Row = Row(state: State, kind: Option<Kind>, openedAt: int, cooldownUntil: int, failures: nat,
                     lastProbeAt: int, updatedAt: int)

  const NEVER_FAILED := Row(Closed, None, 0, 0, 0, 0, 0)

  /** The state the broker routes on: an OPEN row past its cooldown reads as HALF_OPEN. */
  function EffectiveState(row: Row, now: int): State {
    if row.state == Open && row.cooldownUntil != 0 && now >= row.cooldownUntil then HalfOpen else row.state
  }

  // ---- the specification: a row as a function of what happened

  datatype Failure = Failure(kind: Kind, at: Instant, reset: int)

  datatype Op = Succeeded(at: Instant) | Failed(failure: Failure) | WasReset(at: Instant)

  function Last<T>(s: seq<T>): T
    requires s != []
  {
    s[|s|-1]
  }

  function Front<T>(s: seq<T>): seq<T>
    requires s != []
  {
    s[..|s|-1]
  }

  /** The infrastructure failures since the last success or reset. */
  ghost function Episode(h: seq<Op>): seq<Failure> {
    if h == [] then []
    else match Last(h)
      case Succeeded(_) => []
      case WasReset(_) => []
      case Failed(f) => if IsInfra(f.kind) then Episode(Front(h)) + [f] else Episode(Front(h))
  }

  /** How many failures at the end are rate limits. */
  ghost function RateRun(e: seq<Failure>): nat {
    if e == [] || Last(e).kind != RateLimit then 0 else 1 + RateRun(Front(e))
  }

  predicate Linked(earlier: Failure, later: Failure) {
    earlier.kind == TransientUpstream == later.kind && later.at - earlier.at <= TRANSIENT_WINDOW
  }

  /** How many failures at the end are transient with gaps of at most the window. */
  ghost function TransientRun(e: seq<Failure>): nat {
    if e == [] || Last(e).kind != TransientUpstream then 0
    else if |e| >= 2 && Linked(e[|e|-2], e[|e|-1]) then 1 + TransientRun(Front(e))
    else 1
  }

  ghost function CountOf(e: seq<Failure>): nat {
    if e == [] then 0
    else match Last(e).kind
      case RateLimit => RateRun(e)
      case TransientUpstream => TransientRun(e)
      case _ => 0
  }

  ghost function StateOf(e: seq<Failure>): State {
    if e == [] then Closed
    else if Last(e).kind == TransientUpstream && CountOf(e) < TRANSIENT_THRESHOLD then Degraded
    else Open
  }

  ghost function OpenedAt(e: seq<Failure>): int {
    if e == [] then 0
    else if OpenedAt(Front(e)) != 0 then OpenedAt(Front(e))
    else if StateOf(e) == Open then Last(e).at
    else 0
  }

  /** The capped exponential: 5 minutes doubled for every earlier failure, at most 2 hours. */
  ghost function Backoff(n: nat): int
    requires n >= 1
  {
    var exact := RATE_BASE * Pow2(n - 1);
    if exact < RATE_MAX then exact else RATE_MAX
  }

  ghost function CooldownUntil(e: seq<Failure>): int {
    if e == [] then 0
    else
      var f := Last(e);
      match f.kind
      case TransientUpstream => if CountOf(e) >= TRANSIENT_THRESHOLD then f.at + TRANSIENT_COOLDOWN else 0
      case RateLimit => f.at + Backoff(RateRun(e))
      case QuotaExhausted => if f.reset > f.at then f.reset else f.at + QUOTA_COOLDOWN
      case _ => 0
  }

  ghost predicate Cooled(e: seq<Failure>, now: int) {
    StateOf(e) == Open && CooldownUntil(e) != 0 && now >= CooldownUntil(e)
  }

  /** The last success that found the breaker half open. */
  ghost function LastProbe(h: seq<Op>): int {
    if h == [] then 0
    else if Last(h).Succeeded? && Cooled(Episode(Front(h)), Last(h).at) then Last(h).at
    else LastProbe(Front(h))
  }

  /** The last operation that wrote the row. */
  ghost function LastUpdate(h: seq<Op>): int {
    if h == [] then 0
    else match Last(h)
      case Failed(f) => if IsInfra(f.kind) then f.at else LastUpdate(Front(h))
      case Succeeded(t) => if Episode(Front(h)) != [] then t else LastUpdate(Front(h))
      case WasReset(t) => if Episode(Front(h)) != [] then t else LastUpdate(Front(h))
  }

  ghost function RowOf(h: seq<Op>): Row {
    var e := Episode(h);
    Row(StateOf(e), if e == [] then None else Some(Last(e).kind), OpenedAt(e), CooldownUntil(e), CountOf(e),
        LastProbe(h), LastUpdate(h))
  }

  lemma {:induction false} UpdateIsLastFailure(h: seq<Op>)
    requires Episode(h) != []
    ensures LastUpdate(h) == Last(Episode(h)).at
  {
    if Last(h).Failed? && !IsInfra(Last(h).failure.kind) { UpdateIsLastFailure(Front(h)); }
  }

  // ---- the policy

  /** `base << shift` with the exponent clamped first, as the code computes it in 64 bits. */
  function ClampedCooldown(failures: int): int
    requires failures >= 1
  {
    var shift := failures - 1;
    if shift <= 5 then
      var cd := Wrap64(RATE_BASE * Pow2(shift));
      if cd > RATE_MAX then RATE_MAX else cd
    else RATE_MAX
  }

  /** The clamped shift never wraps and equals the unbounded capped exponential. */
  lemma ClampIsExact(n: nat)
    requires n >= 1
    ensures ClampedCooldown(n) == Backoff(n)
    ensures n <= 6 ==> RATE_BASE * Pow2(n - 1) <= MAX_INT64
    ensures 0 < Backoff(n) <= RATE_MAX
  {
    assert Pow2(3) == 8 && Pow2(5) == 4 * Pow2(3);
    if n <= 6 {
      Pow2Monotone(n - 1, 5);
    } else {
      Pow2Monotone(5, n - 1);
    }
  }

  lemma BackoffMonotone(m: nat, n: nat)
    requires 1 <= m <= n
    ensures Backoff(m) <= Backoff(n)
  {
    Pow2Monotone(m - 1, n - 1);
  }

  /** The row fields that describe an episode. */
  ghost predicate Describes(row: Row, e: seq<Failure>) {
    && row.state == StateOf(e) && row.kind == (if e == [] then None else Some(Last(e).kind))
    && row.openedAt == OpenedAt(e) && row.cooldownUntil == CooldownUntil(e) && row.failures == CountOf(e)
    && (e != [] ==> row.updatedAt == Last(e).at)
  }

  method ApplyPolicy(rec0: Row, kind: Kind, now: Instant, reset: int, ghost e: seq<Failure>) returns (rec: Row)
    requires IsInfra(kind) && Describes(rec0, e)
    ensures Describes(rec, e + [Failure(kind, now, reset)])
    ensures rec.lastProbeAt == rec0.lastProbeAt && rec.updatedAt == now
  {
    ghost var e' := e + [Failure(kind, now, reset)];
    assert Front(e') == e && Last(e') == Failure(kind, now, reset);
    assert e != [] ==> e'[|e'|-2] == Last(e);
    var kindChanged := rec0.kind.Some? && rec0.kind.value != kind;
    rec := rec0.(kind := Some(kind));
    match kind {
      case TransientUpstream =>
        if kindChanged || rec.updatedAt == 0 || now - rec.updatedAt > TRANSIENT_WINDOW {
          rec := rec.(failures := 0);
        }
        rec := rec.(failures := rec.failures + 1);
        assert rec.failures == TransientRun(e');
        if rec.failures >= TRANSIENT_THRESHOLD {
          rec := rec.(state := Open, cooldownUntil := now + TRANSIENT_COOLDOWN);
          if rec.openedAt == 0 { rec := rec.(openedAt := now); }
        } else {
          rec := rec.(state := Degraded, cooldownUntil := 0);
        }
      case RateLimit =>
        if kindChanged {
          rec := rec.(failures := 0);
        }
        rec := rec.(failures := rec.failures + 1);
        assert rec.failures == RateRun(e');
        ClampIsExact(rec.failures);
        rec := rec.(state := Open, cooldownUntil := now + ClampedCooldown(rec.failures));
        if rec.openedAt == 0 { rec := rec.(openedAt := now); }
      case QuotaExhausted =>
        rec := rec.(failures := 0, state := Open, cooldownUntil := if reset > now then reset else now + QUOTA_COOLDOWN);
        if rec.openedAt == 0 { rec := rec.(openedAt := now); }
      case AuthExpired | BinaryMissing | FlagDrift =>
        rec := rec.(failures := 0, state := Open, cooldownUntil := 0);
        if rec.openedAt == 0 { rec := rec.(openedAt := now); }
    }
    rec := rec.(updatedAt := now);
  }

  // ---- the store

  datatype Event = Event(backend: string, event: string, kind: Option<Kind>, from: State, to: State, at: Instant)

  datatype Error = UnknownBackend | StoreFailed

  /** What the database does during one call. */
  datatype Fault = NoFault | LoadFails | SaveFails | AppendFails

  const BACKENDS: set<string> := {"claude-code", "codex", "glm", "opencode", "pi"}

  /** The state the log last recorded for a backend. */
  function Recorded(log: seq<Event>, backend: string): State {
    if log == [] then Closed
    else if Last(log).backend == backend then Last(log).to
    else Recorded(Front(log), backend)
  }

  /** Every entry of the log starts where the previous entry of the same backend ended. */
  predicate Chained(log: seq<Event>) {
    forall i | 0 <= i < |log| :: log[i].from == Recorded(log[..i], log[i].backend)
  }

  lemma ChainStep(log: seq<Event>, ev: Event)
    requires Chained(log) && ev.from == Recorded(log, ev.backend)
    ensures Chained(log + [ev])
    ensures forall b :: Recorded(log + [ev], b) == if b == ev.backend then ev.to else Recorded(log, b)
  {
    var longer := log + [ev];
    assert Front(longer) == log;
    forall i | 0 <= i < |longer| ensures longer[i].from == Recorded(longer[..i], longer[i].backend) {
      if i < |log| { assert longer[..i] == log[..i]; } else { assert longer[..i] == log; }
    }
  }

  function Get<T>(m: map<string, T>, k: string, default: T): T {
    if k in m then m[k] else default
  }

  class Store {
    var rows: map<string, Row>
    var log: seq<Event>
    /** Per backend, every operation that reached the row, in order. */
    ghost var history: map<string, seq<Op>>
    /** No audit write was ever lost. */
    ghost var audited: bool

    constructor ()
      ensures Valid() && audited && history == map[] && log == []
    {
      rows, log, history, audited := map[], [], map[], true;
    }

    ghost predicate Valid()
      reads this
    {
      RowsValid() && (audited ==> Chained(log) && forall b :: Recorded(log, b) == Get(rows, b, NEVER_FAILED).state)
    }

    /** Every row is the function of its backend's history. */
    ghost predicate RowsValid()
      reads this
    {
      forall b :: Get(rows, b, NEVER_FAILED) == RowOf(Get(history, b, []))
    }

    /** The log is complete, except that `backend` has just left the state it records. */
    ghost predicate AuditUpTo(backend: string, from: State)
      reads this
    {
      && Chained(log) && Recorded(log, backend) == from
      && forall b | b != backend :: Recorded(log, b) == Get(rows, b, NEVER_FAILED).state
    }

    ghost function After(backend: string, op: Op): map<string, seq<Op>>
      reads this
    {
      history[backend := Get(history, backend, []) + [op]]
    }

    /** `load`: a backend without a row is CLOSED. */
    function Load(backend: string): Row
      reads this
    {
      Get(rows, backend, NEVER_FAILED)
    }

    /**
     `appendEvent`: one audit row for an operation that leaves `backend` in `ev.to`; it is lost
     when the write fails.
     */
    method Append(ev: Event, fault: Fault) returns (err: Option<Error>)
      requires RowsValid() && (audited ==> AuditUpTo(ev.backend, ev.from))
      requires ev.to == Load(ev.backend).state
      modifies this`log, this`audited
      ensures Valid()
      ensures fault.AppendFails? ==> err == Some(StoreFailed) && log == old(log) && !audited
      ensures !fault.AppendFails? ==> err == None && log == old(log) + [ev] && audited == old(audited)
    {
      if fault.AppendFails? {
        audited := false;
        return Some(StoreFailed);
      }
      if audited { ChainStep(log, ev); }
      log := log + [ev];
      return None;
    }

    /** `save` followed by `appendEvent`. */
    method Commit(rec: Row, ghost op: Op, ev: Event, fault: Fault) returns (err: Option<Error>)
      requires Valid() && !fault.LoadFails?
      requires rec == RowOf(Get(history, ev.backend, []) + [op])
      requires ev.from == Load(ev.backend).state && ev.to == rec.state
      modifies this
      ensures Valid()
      ensures fault.SaveFails? ==> err == Some(StoreFailed) && unchanged(this)
      ensures !fault.SaveFails? ==> rows == old(rows)[ev.backend := rec] && history == old(After(ev.backend, op))
      ensures fault.AppendFails? ==> err == Some(StoreFailed) && log == old(log)
      ensures fault.NoFault? ==> err == None && log == old(log) + [ev]
    {
      if fault.SaveFails? {
        return Some(StoreFailed);
      }
      rows := rows[ev.backend := rec];
      history := After(ev.backend, op);
      assert forall b | b != ev.backend :: Get(rows, b, NEVER_FAILED) == old(Get(rows, b, NEVER_FAILED));
      assert forall b | b != ev.backend :: Get(history, b, []) == old(Get(history, b, []));
      err := Append(ev, fault);
    }

    method RecordSuccess(backend: string, now: Instant, fault: Fault) returns (err: Option<Error>)
      requires Valid()
      modifies this
      ensures Valid()
      ensures backend !in BACKENDS ==> err == Some(UnknownBackend) && unchanged(this)
      ensures backend in BACKENDS && fault.LoadFails? ==> err == Some(StoreFailed) && unchanged(this)
      ensures backend in BACKENDS && fault.SaveFails? && old(Load(backend)).state != Closed ==>
                err == Some(StoreFailed) && unchanged(this)
      ensures backend in BACKENDS && fault.NoFault? ==> err == None
      ensures history == old(history) || history == old(After(backend, Succeeded(now)))
      ensures err == None ==> history == old(After(backend, Succeeded(now)))
      ensures err == None ==> log == old(log) + if Load(backend) == old(Load(backend)) then [] else
                [Event(backend,
                       if old(EffectiveState(Load(backend), now)) == HalfOpen then "probe_success" else "close",
                       old(Load(backend)).kind, old(Load(backend)).state, Closed, now)]
    {
      if backend !in BACKENDS {
        return Some(UnknownBackend);
      }
      if fault.LoadFails? {
        return Some(StoreFailed);
      }
      var rec := Load(backend);
      SuccessRow(Get(history, backend, []), now);
      if rec.state == Closed {
        history := After(backend, Succeeded(now));
        return None;
      }
      var from, fromKind := rec.state, rec.kind;
      var wasProbe := EffectiveState(rec, now) == HalfOpen;
      rec := rec.(state := Closed, kind := None, openedAt := 0, cooldownUntil := 0, failures := 0);
      if wasProbe {
        rec := rec.(lastProbeAt := now);
      }
      rec := rec.(updatedAt := now);
      var ev := Event(backend, if wasProbe then "probe_success" else "close", fromKind, from, Closed, now);
      err := Commit(rec, Succeeded(now), ev, fault);
    }

    /** Only infrastructure kinds move the breaker; `reset` is what quota.NextReset answers at this moment. */
    method RecordFailure(backend: string, kind: Kind, now: Instant, reset: int, fault: Fault)
      returns (err: Option<Error>)
      requires Valid()
      modifies this
      ensures Valid()
      ensures backend !in BACKENDS ==> err == Some(UnknownBackend) && unchanged(this)
      ensures backend in BACKENDS && !IsInfra(kind) ==> err == None && rows == old(rows) && log == old(log)
      ensures backend in BACKENDS && IsInfra(kind) && (fault.LoadFails? || fault.SaveFails?) ==>
                err == Some(StoreFailed) && unchanged(this)
      ensures backend in BACKENDS && fault.NoFault? ==> err == None
      ensures history == old(history) || history == old(After(backend, Failed(Failure(kind, now, reset))))
      ensures err == None ==> history == old(After(backend, Failed(Failure(kind, now, reset))))
      ensures err == None && IsInfra(kind) ==>
                var was, now' := old(Load(backend)), Load(backend);
                log == old(log) + [Event(backend,
                                         if now'.state == Degraded then "degrade"
                                         else if EffectiveState(was, now) == HalfOpen then "probe_fail" else "open",
                                         Some(kind), was.state, now'.state, now)]
    {
      if backend !in BACKENDS {
        return Some(UnknownBackend);
      }
      ghost var h, f := Get(history, backend, []), Failure(kind, now, reset);
      if !IsInfra(kind) {
        QualityRow(h, f);
        history := After(backend, Failed(f));
        return None;
      }
      if fault.LoadFails? {
        return Some(StoreFailed);
      }
      var prev := Load(backend);
      InfraRow(h, f);
      var rec := ApplyPolicy(prev, kind, now, reset, Episode(h));
      var wasProbe := EffectiveState(prev, now) == HalfOpen;
      var event := "open";
      if rec.state == Degraded {
        event := "degrade";
      } else if rec.state == Open && wasProbe {
        event := "probe_fail";
      }
      err := Commit(rec, Failed(f), Event(backend, event, Some(kind), prev.state, rec.state, now), fault);
    }

    method Reset(backend: string, now: Instant, fault: Fault) returns (err: Option<Error>)
      requires Valid()
      modifies this
      ensures Valid()
      ensures backend !in BACKENDS ==> err == Some(UnknownBackend) && unchanged(this)
      ensures backend in BACKENDS && fault.LoadFails? ==> err == Some(StoreFailed) && unchanged(this)
      ensures backend in BACKENDS && fault.NoFault? ==> err == None
      ensures history == old(history) || history == old(After(backend, WasReset(now)))
      ensures err == None ==> history == old(After(backend, WasReset(now)))
      ensures err == None ==> log == old(log) + [Event(backend, "reset", None, old(Load(backend)).state, Closed, now)]
    {
      if backend !in BACKENDS {
        return Some(UnknownBackend);
      }
      if fault.LoadFails? {
        return Some(StoreFailed);
      }
      var rec := Load(backend);
      ResetRow(Get(history, backend, []), now);
      if rec.state == Closed {
        history := After(backend, WasReset(now));
        err := Append(Event(backend, "reset", rec.kind, Closed, Closed, now), fault);
        return;
      }
      var ev := Event(backend, "reset", None, rec.state, Closed, now);
      rec := rec.(state := Closed, kind := None, openedAt := 0, cooldownUntil := 0, failures := 0, updatedAt := now);
      err := Commit(rec, WasReset(now), ev, fault);
    }

    /** A pure read; a load error reads as CLOSED. */
    method Snapshot(backend: string, now: int, fault: Fault) returns (row: Row, effective: State)
      requires Valid()
      ensures fault.LoadFails? ==> row == NEVER_FAILED && effective == Closed
      ensures !fault.LoadFails? ==> row == RowOf(Get(history, backend, []))
      ensures !fault.LoadFails? ==>
                var e := Episode(Get(history, backend, []));
                (effective == HalfOpen <==> Cooled(e, now)) && (effective != HalfOpen ==> effective == StateOf(e))
    {
      if fault.LoadFails? {
        return NEVER_FAILED, Closed;
      }
      row := Load(backend);
      effective := EffectiveState(row, now);
      assert StateOf(Episode(Get(history, backend, []))) != HalfOpen;
    }
  }

  lemma QualityRow(h: seq<Op>, f: Failure)
    requires !IsInfra(f.kind)
    ensures RowOf(h + [Failed(f)]) == RowOf(h)
  {
    var h' := h + [Failed(f)];
    assert Front(h') == h && Last(h') == Failed(f);
  }

  lemma InfraRow(h: seq<Op>, f: Failure)
    requires IsInfra(f.kind)
    ensures Describes(RowOf(h), Episode(h)) && Episode(h + [Failed(f)]) == Episode(h) + [f]
    ensures RowOf(h + [Failed(f)]).lastProbeAt == RowOf(h).lastProbeAt && RowOf(h + [Failed(f)]).updatedAt == f.at
  {
    var h' := h + [Failed(f)];
    assert Front(h') == h && Last(h') == Failed(f);
    if Episode(h) != [] { UpdateIsLastFailure(h); }
  }

  lemma SuccessRow(h: seq<Op>, now: Instant)
    ensures RowOf(h).state == Closed ==> RowOf(h + [Succeeded(now)]) == RowOf(h)
    ensures RowOf(h).state != Closed ==>
              RowOf(h + [Succeeded(now)]) ==
              Row(Closed, None, 0, 0, 0,
                  if EffectiveState(RowOf(h), now) == HalfOpen then now else RowOf(h).lastProbeAt, now)
  {
    var h' := h + [Succeeded(now)];
    assert Front(h') == h && Last(h') == Succeeded(now);
  }

  lemma ResetRow(h: seq<Op>, now: Instant)
    ensures RowOf(h).state == Closed ==> RowOf(h + [WasReset(now)]) == RowOf(h) && RowOf(h).kind == None
    ensures RowOf(h).state != Closed ==>
            RowOf(h + [WasReset(now)]) == Row(Closed, None, 0, 0, 0, RowOf(h).lastProbeAt, now)
  {
    var h' := h + [WasReset(now)];
    assert Front(h') == h && Last(h') == WasReset(now);
  }

  // ---- what every reachable row satisfies

  /** The shape of a row that some history produces. */
  lemma RowShape(h: seq<Op>)
    ensures var row := RowOf(h);
            && row.state != HalfOpen
            && (row.state == Closed <==> row.kind == None)
            && (row.state == Closed ==> row.openedAt == 0 && row.cooldownUntil == 0 && row.failures == 0)
            && (row.state == Degraded ==>
                row.kind == Some(TransientUpstream) && 1 <= row.failures <= 2 && row.cooldownUntil == 0)
            && (row.kind == Some(RateLimit) ==> row.failures >= 1)
            && (row.kind != Some(RateLimit) && row.kind != Some(TransientUpstream) ==> row.failures == 0)
            && (row.state == Open ==> row.openedAt > 0 && (row.cooldownUntil == 0 <==> DoctorGated(row.kind.value)))
  {
    var e := Episode(h);
    InfraEpisode(h);
    if e != [] {
      OpenedAtNonNegative(e);
      if Last(e).kind == RateLimit { ClampIsExact(RateRun(e)); }
    }
  }

  lemma {:induction false} InfraEpisode(h: seq<Op>)
    ensures forall f | f in Episode(h) :: IsInfra(f.kind)
  {
    if h != [] { InfraEpisode(Front(h)); }
  }

  lemma {:induction false} OpenedAtNonNegative(e: seq<Failure>)
    ensures OpenedAt(e) >= 0
  {
    if e != [] { OpenedAtNonNegative(Front(e)); }
  }

  /** Rule 3: quality failures are invisible. Erasing them from the history changes no field of the row. */
  ghost function WithoutQuality(h: seq<Op>): seq<Op> {
    if h == [] then []
    else if Last(h).Failed? && !IsInfra(Last(h).failure.kind) then WithoutQuality(Front(h))
    else WithoutQuality(Front(h)) + [Last(h)]
  }

  lemma {:induction false} QualityInvisible(h: seq<Op>)
    ensures Episode(WithoutQuality(h)) == Episode(h)
    ensures RowOf(WithoutQuality(h)) == RowOf(h)
  {
    if h != [] {
      QualityInvisible(Front(h));
      var w := WithoutQuality(h);
      if !(Last(h).Failed? && !IsInfra(Last(h).failure.kind)) {
        assert Front(w) == WithoutQuality(Front(h)) && Last(w) == Last(h);
      }
    }
  }

  /** `opened_at` is the time of the first failure that left the breaker OPEN. */
  lemma {:induction false} OpenedAtIsFirst(e: seq<Failure>)
    ensures OpenedAt(e) == 0 <==> forall n | 1 <= n <= |e| :: StateOf(e[..n]) != Open
    ensures OpenedAt(e) != 0 ==>
              exists n :: 1 <= n <= |e| && StateOf(e[..n]) == Open && OpenedAt(e) == e[n-1].at &&
                          forall m | 1 <= m < n :: StateOf(e[..m]) != Open
  {
    if e != [] {
      var d := Front(e);
      OpenedAtIsFirst(d);
      assert e[..|e|] == e;
      assert forall n | 0 <= n <= |d| :: e[..n] == d[..n];
      if OpenedAt(d) != 0 {
        var n :| 1 <= n <= |d| && StateOf(d[..n]) == Open && OpenedAt(d) == d[n-1].at &&
                 forall m | 1 <= m < n :: StateOf(d[..m]) != Open;
        assert StateOf(e[..n]) == Open && e[n-1] == d[n-1];
        assert forall m | 1 <= m < n :: StateOf(e[..m]) != Open;
      } else {
        assert forall m | 1 <= m < |e| :: StateOf(e[..m]) == StateOf(d[..m]) != Open;
        assert StateOf(e[..|e|]) == StateOf(e);
      }
    }
  }

  /** The rate-limit count is the length of the longest suffix of rate limits. */
  lemma {:induction false} RateRunIsMaximal(e: seq<Failure>)
    ensures RateRun(e) <= |e|
    ensures forall i | |e| - RateRun(e) <= i < |e| :: e[i].kind == RateLimit
    ensures RateRun(e) < |e| ==> e[|e| - RateRun(e) - 1].kind != RateLimit
  {
    if e != [] && Last(e).kind == RateLimit { RateRunIsMaximal(Front(e)); }
  }

  /** The transient count is the length of the longest suffix of transient failures with short gaps. */
  lemma {:induction false} TransientRunIsMaximal(e: seq<Failure>)
    ensures TransientRun(e) <= |e|
    ensures forall i | |e| - TransientRun(e) <= i < |e| :: e[i].kind == TransientUpstream
    ensures forall i | |e| - TransientRun(e) < i < |e| :: Linked(e[i-1], e[i])
    ensures 0 < TransientRun(e) < |e| ==> !Linked(e[|e| - TransientRun(e) - 1], e[|e| - TransientRun(e)])
  {
    if e != [] && Last(e).kind == TransientUpstream && |e| >= 2 && Linked(e[|e|-2], e[|e|-1]) {
      TransientRunIsMaximal(Front(e));
    }
  }

  /** Within one episode, consecutive rate limits are never granted a shorter cooldown than before. */
  lemma RateCooldownsGrow(e: seq<Failure>, f: Failure)
    requires e != [] && Last(e).kind == RateLimit == f.kind
    ensures CooldownUntil(e) - Last(e).at <= CooldownUntil(e + [f]) - f.at
  {
    assert Front(e + [f]) == e && Last(e + [f]) == f;
    BackoffMonotone(RateRun(e), RateRun(e + [f]));
  }

  /**
   When the next infrastructure failure finds the breaker OPEN (half open or not), it stays OPEN
   unless the failure is transient and either follows another kind or comes after the window:
   those demote the breaker to DEGRADED.
   */
  lemma FailureKeepsOpenIff(e: seq<Failure>, f: Failure)
    requires StateOf(e) == Open && IsInfra(f.kind)
    ensures StateOf(e + [f]) == Open <==> f.kind != TransientUpstream || Linked(Last(e), f)
    ensures StateOf(e + [f]) != Open ==> StateOf(e + [f]) == Degraded && CooldownUntil(e + [f]) == 0
  {
    var e' := e + [f];
    assert Front(e') == e && Last(e') == f && e'[|e'|-2] == Last(e);
  }

  /** Time alone re-admits a backend exactly from its cooldown on, and never a doctor-gated one. */
  lemma OnlyTimedKindsCoolDown(e: seq<Failure>, now: int)
    requires StateOf(e) == Open && IsInfra(Last(e).kind)
    ensures DoctorGated(Last(e).kind) ==> !Cooled(e, now)
    ensures !DoctorGated(Last(e).kind) ==>
            (Cooled(e, now) <==> now >= CooldownUntil(e)) && CooldownUntil(e) > Last(e).at
  {
    if Last(e).kind == RateLimit { ClampIsExact(RateRun(e)); }
  }

  /** The failing side, doctor-gated: expired credentials, then one transient error, and the row is no longer OPEN. */
  lemma DoctorGateLost(t: Instant, u: Instant, reset: int)
    ensures var gated := [Failed(Failure(AuthExpired, t, reset))];
            && RowOf(gated).state == Open && RowOf(gated).cooldownUntil == 0
            && RowOf(gated + [Failed(Failure(TransientUpstream, u, reset))]).state == Degraded
  {
    var gated, next := [Failed(Failure(AuthExpired, t, reset))], Failed(Failure(TransientUpstream, u, reset));
    assert Front(gated) == [] && Episode(gated) == [Failure(AuthExpired, t, reset)];
    InfraRow(gated, next.failure);
    FailureKeepsOpenIff(Episode(gated), next.failure);
  }

  /** The failing side, half open: a probe that fails with a transient error after a rate limit does not re-open. */
  lemma FailedProbeDemotes(t: Instant, u: Instant, reset: int)
    requires u >= t + RATE_BASE
    ensures var limited := [Failed(Failure(RateLimit, t, reset))];
            && EffectiveState(RowOf(limited), u) == HalfOpen
            && RowOf(limited + [Failed(Failure(TransientUpstream, u, reset))]).state == Degraded
  {
    var limited, next := [Failed(Failure(RateLimit, t, reset))], Failed(Failure(TransientUpstream, u, reset));
    assert Front(limited) == [] && Episode(limited) == [Failure(RateLimit, t, reset)];
    assert RateRun(Episode(limited)) == 1 && Backoff(1) == RATE_BASE;
    InfraRow(limited, next.failure);
    FailureKeepsOpenIff(Episode(limited), next.failure);
  }

  // ---- when a backend is admitted again, in plain numbers

  /** Only quality failures. */
  predicate OnlyQuality(q: seq<Op>) {
    forall op | op in q :: op.Failed? && op.failure.kind.Quality?
  }

  /** Nothing happened yet, or the last thing was a success or a reset. */
  predicate AtRest(h: seq<Op>) {
    h == [] || !Last(h).Failed?
  }

  lemma {:induction false} QualityTail(h: seq<Op>, q: seq<Op>)
    requires OnlyQuality(q)
    ensures RowOf(h + q) == RowOf(h) && Episode(h + q) == Episode(h)
    decreases |q|
  {
    if q == [] {
      assert h + q == h;
    } else {
      assert Last(q) in q && forall op | op in Front(q) :: op in q;
      QualityTail(h, Front(q));
      QualityRow(h + Front(q), Last(q).failure);
      assert h + q == (h + Front(q)) + [Last(q)];
      assert Front(h + q) == h + Front(q);
    }
  }

  lemma AfterFailure(h: seq<Op>, f: Failure, q: seq<Op>)
    requires IsInfra(f.kind) && OnlyQuality(q)
    ensures RowOf(h + [Failed(f)] + q).kind == Some(f.kind) && RowOf(h + [Failed(f)] + q).updatedAt == f.at
    ensures Episode(h + [Failed(f)] + q) == Episode(h) + [f]
  {
    InfraRow(h, f);
    QualityTail(h + [Failed(f)], q);
  }

  /** A quota failure excludes the backend until the quota resets, or for one hour when no later reset is known. */
  lemma QuotaSchedule(h: seq<Op>, f: Failure, q: seq<Op>, now: int)
    requires f.kind == QuotaExhausted && OnlyQuality(q)
    ensures var until := if f.reset > f.at then f.reset else f.at + 3_600_000_000_000;
            EffectiveState(RowOf(h + [Failed(f)] + q), now) == if now < until then Open else HalfOpen
  {
    AfterFailure(h, f, q);
    assert Last(Episode(h) + [f]) == f;
  }

  lemma BackoffMinutes(n: nat)
    requires n >= 1
    ensures Backoff(n) == 60_000_000_000 * (if n == 1 then 5 else if n == 2 then 10 else if n == 3 then 20
                                            else if n == 4 then 40 else if n == 5 then 80 else 120)
  {
    assert Pow2(0) == 1 && Pow2(1) == 2 && Pow2(2) == 4 && Pow2(3) == 8 && Pow2(4) == 16 && Pow2(5) == 32;
    if n >= 6 { Pow2Monotone(5, n - 1); }
  }

  function AsOps(fs: seq<Failure>): (ops: seq<Op>)
    ensures |ops| == |fs| && forall i | 0 <= i < |fs| :: ops[i] == Failed(fs[i])
  {
    seq(|fs|, i requires 0 <= i < |fs| => Failed(fs[i]))
  }

  lemma OneMoreOp(h: seq<Op>, fs: seq<Failure>)
    requires fs != []
    ensures h + AsOps(fs) == (h + AsOps(Front(fs))) + [Failed(Last(fs))] && fs == Front(fs) + [Last(fs)]
  {
    assert AsOps(fs) == AsOps(Front(fs)) + [Failed(Last(fs))];
  }

  lemma {:induction false} FreshEpisode(h: seq<Op>, fs: seq<Failure>)
    requires AtRest(h) && forall f | f in fs :: IsInfra(f.kind)
    ensures Episode(h + AsOps(fs)) == fs
    decreases |fs|
  {
    if fs == [] {
      assert h + AsOps(fs) == h;
    } else {
      var front := Front(fs);
      assert Last(fs) in fs && forall f | f in front :: f in fs;
      FreshEpisode(h, front);
      OneMoreOp(h, fs);
      InfraRow(h + AsOps(front), Last(fs));
    }
  }

  lemma {:induction false} AllRate(fs: seq<Failure>)
    requires forall f | f in fs :: f.kind == RateLimit
    ensures RateRun(fs) == |fs|
  {
    if fs != [] {
      assert Last(fs) in fs && forall f | f in Front(fs) :: f in fs;
      AllRate(Front(fs));
    }
  }

  /** The n-th rate limit in a row excludes the backend for 5, 10, 20, 40, 80 and from then on 120 minutes. */
  lemma RateSchedule(h: seq<Op>, fs: seq<Failure>, now: int)
    requires AtRest(h) && fs != [] && forall f | f in fs :: f.kind == RateLimit
    ensures var n := |fs|;
            var minutes := if n == 1 then 5 else if n == 2 then 10 else if n == 3 then 20
                           else if n == 4 then 40 else if n == 5 then 80 else 120;
            var until := fs[n-1].at + minutes * 60_000_000_000;
            EffectiveState(RowOf(h + AsOps(fs)), now) == if now < until then Open else HalfOpen
  {
    assert Last(fs) in fs;
    FreshEpisode(h, fs);
    AllRate(fs);
    BackoffMinutes(|fs|);
  }

  /**
   Three transient failures with gaps of at most thirty minutes exclude the backend for five
   minutes after the last.
   */
  lemma TransientSchedule(h: seq<Op>, a: Failure, b: Failure, c: Failure, q: seq<Op>, now: int)
    requires a.kind == b.kind == c.kind == TransientUpstream && OnlyQuality(q)
    requires b.at - a.at <= 1_800_000_000_000 && c.at - b.at <= 1_800_000_000_000
    ensures EffectiveState(RowOf(h + [Failed(a)] + [Failed(b)] + [Failed(c)] + q), now) ==
            if now < c.at + 300_000_000_000 then Open else HalfOpen
  {
    var h1 := h + [Failed(a)];
    var h2 := h1 + [Failed(b)];
    InfraRow(h, a);
    InfraRow(h1, b);
    AfterFailure(h2, c, q);
    var e1 := Episode(h) + [a];
    var e2 := e1 + [b];
    var e3 := e2 + [c];
    assert Front(e3) == e2 && Front(e2) == e1 && e3[|e3|-2] == b && e2[|e2|-2] == a;
    assert TransientRun(e1) >= 1 && TransientRun(e2) >= 2 && TransientRun(e3) >= 3;
  }

  /** One or two transient failures, or a late one, only degrade. */
  lemma LateTransient(h: seq<Op>, a: Failure, b: Failure, q: seq<Op>, now: int)
    requires IsInfra(a.kind) && b.kind == TransientUpstream && OnlyQuality(q)
    requires a.kind != TransientUpstream || b.at - a.at > 1_800_000_000_000 || AtRest(h)
    ensures EffectiveState(RowOf(h + [Failed(a)] + [Failed(b)] + q), now) == Degraded
  {
    InfraRow(h, a);
    AfterFailure(h + [Failed(a)], b, q);
    var e1 := Episode(h) + [a];
    var e2 := e1 + [b];
    assert Front(e2) == e1 && e2[|e2|-2] == a;
    if AtRest(h) { assert Episode(h) == [] && Front(e1) == [] && |e1| == 1; }
  }

  /** The backends the breaker knows. */
  lemma KnownBackends(b: string)
    ensures b in BACKENDS <==> b == "claude-code" || b == "codex" || b == "glm" || b == "opencode" || b == "pi"
  {
  }
}
