/**
 Release checkpoints: records replaced atomically in a state directory, scoped to one release
 attempt (scripts/release_checkpoint.py, and the order scripts/release.sh calls it in).
 */
module Checkpoint {
  import opened Results

  /** A JSON object; every field the commands compare is a string. */
  type Json = map<string, string>

  /** What a path holds: a parseable record, or bytes a crash left behind. */
  datatype File = Complete(record: Json) | Torn

  const IDENTITY_FIELDS: seq<string> := [
    "governator_commit", "governator_tag", "assayer_commit", "go_sum_hash", "toolchain_hash", "environment_hash",
    "capabilities_hash", "go_test_parallelism", "requested_version", "expected_exact_tag", "release_mode",
    "distribution_allowed"]

  const ATTEMPT: string := "release_attempt_id"

  const CHECK_FIELDS: seq<string> := [ATTEMPT] + IDENTITY_FIELDS

  const IDENTITY_FILE: string := "identity.json"

  function TierFile(tier: string): string { tier + ".json" }

  /** `dict.get`. */
  function Get(j: Json, field: string): Option<string> {
    if field in j then Some(j[field]) else None
  }

  predicate Agree(a: Json, b: Json, fields: seq<string>) {
    forall f | f in fields :: Get(a, f) == Get(b, f)
  }

  predicate HasAll(j: Json, fields: seq<string>) {
    forall f | f in fields :: f in j
  }

  function Select(j: Json, fields: seq<string>): Json
    requires HasAll(j, fields)
  {
    map f | f in fields :: j[f]
  }

  // ---- temporary names

  predicate IsHex(c: char) { '0' <= c <= '9' || 'a' <= c <= 'f' }

  /** The process id and random part of a temporary name end in a hexadecimal digit. */
  predicate IsNonce(nonce: string) { nonce != "" && IsHex(nonce[|nonce|-1]) }

  function TempName(name: string, nonce: string): string { "." + name + ".tmp-" + nonce }

  ghost predicate IsTemp(path: string) {
    exists name, nonce :: IsNonce(nonce) && path == TempName(name, nonce)
  }

  /** No record path is a temporary name. */
  lemma RecordsAreNotTemp(stem: string)
    ensures !IsTemp(stem + ".json")
  {
    var path := stem + ".json";
    assert path[|path|-1] == 'n';
    forall name, nonce | IsNonce(nonce) ensures path != TempName(name, nonce) {
      var temp := TempName(name, nonce);
      assert temp[|temp|-1] == nonce[|nonce|-1];
    }
  }

  // ---- the specification: a directory as a function of what was committed

  datatype Step =
    | Committed(path: string, record: Json)
    | Wiped(gone: set<string>)

  /** The record last committed to a path and not wiped since. */
  ghost function Content(h: seq<Step>, path: string): Option<Json> {
    if h == [] then None
    else match h[|h|-1]
      case Wiped(gone) => if path in gone then None else Content(h[..|h|-1], path)
      case Committed(p, r) => if p == path then Some(r) else Content(h[..|h|-1], path)
  }

  lemma ContentAfter(h: seq<Step>, s: Step)
    ensures forall path :: Content(h + [s], path) ==
              if s.Wiped? && path in s.gone then None
              else if s.Committed? && s.path == path then Some(s.record)
              else Content(h, path)
  {
    assert (h + [s])[..|h|] == h;
  }

  /** The index of the commit that `Content` answers. */
  lemma {:induction false} ContentCommitted(h: seq<Step>, path: string) returns (i: nat)
    requires Content(h, path).Some?
    ensures i < |h| && h[i] == Committed(path, Content(h, path).value)
    ensures forall j | i < j < |h| :: if h[j].Committed? then h[j].path != path else path !in h[j].gone
  {
    var n := |h| - 1;
    if h[n].Committed? && h[n].path == path {
      i := n;
    } else {
      i := ContentCommitted(h[..n], path);
    }
  }

  /** Nothing happened to the path after entry `i`. */
  ghost predicate Untouched(h: seq<Step>, i: nat, path: string) {
    forall j | i < j < |h| :: if h[j].Committed? then h[j].path != path else path !in h[j].gone
  }

  /** What a path holds is the last committed record that nothing has replaced or removed since. */
  lemma {:induction false} ContentMeans(h: seq<Step>, path: string)
    ensures forall i, r | 0 <= i < |h| && h[i] == Committed(path, r) && Untouched(h, i, path) ::
              Content(h, path) == Some(r)
    ensures Content(h, path).Some? ==> exists i :: 0 <= i < |h| && h[i].Committed? && h[i].path == path
  {
    if h != [] {
      var n := |h| - 1;
      ContentMeans(h[..n], path);
      forall i, r | 0 <= i < |h| && h[i] == Committed(path, r) && Untouched(h, i, path)
        ensures Content(h, path) == Some(r)
      {
        if i < n {
          assert h[..n][i] == h[i] && Untouched(h[..n], i, path);
        }
      }
    }
    if Content(h, path).Some? { var i := ContentCommitted(h, path); }
  }

  /** Field by field, when a record may stand in for running its tier again. */
  lemma PassedMeans(h: seq<Step>, tier: string, current: Json)
    ensures Passed(h, TierFile(tier), current) <==>
            var c := Content(h, tier + ".json");
            && c.Some? && Get(c.value, "result") == Some("PASS")
            && forall f | f in ["release_attempt_id", "governator_commit", "governator_tag", "assayer_commit",
                                "go_sum_hash", "toolchain_hash", "environment_hash", "capabilities_hash",
                                "go_test_parallelism", "requested_version", "expected_exact_tag", "release_mode",
                                "distribution_allowed"] :: Get(c.value, f) == Get(current, f)
  {
    assert CHECK_FIELDS ==
           ["release_attempt_id", "governator_commit", "governator_tag", "assayer_commit", "go_sum_hash",
            "toolchain_hash", "environment_hash", "capabilities_hash", "go_test_parallelism", "requested_version",
            "expected_exact_tag", "release_mode", "distribution_allowed"];
  }

  /** A record that `write` leaves: every match field, a command, and PASS or FAIL. */
  predicate IsOutcome(r: Json) {
    HasAll(r, CHECK_FIELDS) && "command" in r && "result" in r
  }

  /** A record that `init` leaves: the match fields and nothing else. */
  predicate IsIdentity(r: Json) {
    HasAll(r, CHECK_FIELDS) && r.Keys == set f | f in CHECK_FIELDS
  }

  ghost predicate WellFormed(h: seq<Step>) {
    forall s | s in h && s.Committed? :: IsOutcome(s.record) || IsIdentity(s.record)
  }

  /** The checkpoint may stand in for running the tier again under `current`. */
  ghost predicate Passed(h: seq<Step>, path: string, current: Json) {
    var c := Content(h, path);
    c.Some? && Agree(c.value, current, CHECK_FIELDS) && Get(c.value, "result") == Some("PASS")
  }

  // ---- the state directory

  datatype Crash = NoCrash | WhileWriting | BeforeRename | AfterRename(durable: bool)

  class StateDir {
    var files: map<string, File>
    ghost var history: seq<Step>

    constructor ()
      ensures Valid() && history == []
    {
      files, history := map[], [];
    }

    /** Record paths hold exactly the last committed record; only temporary names can be torn. */
    ghost predicate Valid()
      reads this
    {
      && WellFormed(history)
      && forall path | !IsTemp(path) ::
           match Content(history, path)
           case None => path !in files
           case Some(r) => path in files && files[path] == Complete(r)
    }

    /**
     Temporary file, flush, rename, directory flush; a crash can strike between any two of them, and
     a rename that was not flushed may or may not survive.
     */
    method AtomicWrite(path: string, data: Json, nonce: string, crash: Crash) returns (crashed: bool)
      requires Valid() && IsNonce(nonce) && !IsTemp(path)
      requires IsOutcome(data) || IsIdentity(data)
      modifies this
      ensures Valid()
      ensures crashed <==> crash != NoCrash
      ensures history == old(history) || history == old(history) + [Committed(path, data)]
      ensures !crashed ==> history == old(history) + [Committed(path, data)]
      ensures crash.WhileWriting? || crash.BeforeRename? ==> history == old(history)
      ensures crash.AfterRename? && crash.durable ==> history == old(history) + [Committed(path, data)]
      ensures crash.AfterRename? && !crash.durable ==> history == old(history)
    {
      var temp := TempName(path, nonce);
      assert IsTemp(temp);
      files := files[temp := Torn];
      if crash == WhileWriting {
        return true;
      }
      files := files[temp := Complete(data)];
      if crash == BeforeRename {
        return true;
      }
      if crash.AfterRename? && !crash.durable {
        return true;
      }
      files := (files - {temp})[path := Complete(data)];
      ghost var before := history;
      history := history + [Committed(path, data)];
      assert history[..|history|-1] == before;
      return crash != NoCrash;
    }

    /** Recursive removal; when interrupted, only the given paths are gone. */
    method Wipe(interrupted: Option<set<string>>)
      requires Valid()
      modifies this
      ensures Valid()
      ensures interrupted.None? ==> files == map[] && history == old(history) + [Wiped(old(files.Keys))]
      ensures interrupted.Some? ==> history == old(history) + [Wiped(interrupted.value)]
    {
      var gone := match interrupted case None => files.Keys case Some(paths) => paths;
      files := files - gone;
      ContentAfter(history, Wiped(gone));
      history := history + [Wiped(gone)];
    }

    /** A pure read: is the directory's identity the candidate's, and under which attempt? */
    method Peek(candidate: Json) returns (resumed: bool, attempt: Option<string>)
      requires Valid()
      ensures resumed <==> Content(history, "identity.json").Some? &&
                           Agree(Content(history, "identity.json").value, candidate, IDENTITY_FIELDS)
      ensures resumed ==> attempt.Some? && Get(Content(history, IDENTITY_FILE).value, ATTEMPT) == attempt
      ensures !resumed ==> attempt == None
    {
      RecordsAreNotTemp("identity");
      if IDENTITY_FILE !in files {
        return false, None;
      }
      var existing: Json := match files[IDENTITY_FILE] case Complete(r) => r case Torn => map[];
      resumed := SameFields(existing, candidate, IDENTITY_FIELDS);
      attempt := if resumed then Get(existing, ATTEMPT) else None;
      ghost var i := ContentCommitted(history, IDENTITY_FILE);
      assert history[i] in history && ATTEMPT in CHECK_FIELDS;
    }

    /** Exit code 0, or 1 when the candidate lacks a field (nothing is written then). */
    method Init(candidate: Json, attempt: string, nonce: string, crash: Crash) returns (code: int, crashed: bool)
      requires Valid() && IsNonce(nonce)
      modifies this
      ensures Valid()
      ensures !HasAll(candidate, IDENTITY_FIELDS) ==> code == 1 && !crashed && unchanged(this)
      ensures HasAll(candidate, IDENTITY_FIELDS) ==> code == 0 && (crashed <==> crash != NoCrash)
      ensures history == old(history) ||
              (HasAll(candidate, IDENTITY_FIELDS) &&
               history == old(history) +
               [Committed(IDENTITY_FILE, Select(candidate, IDENTITY_FIELDS)[ATTEMPT := attempt])])
      ensures code == 0 && !crashed ==> history != old(history)
    {
      var complete := Present(candidate, IDENTITY_FIELDS);
      if !complete {
        return 1, false;
      }
      var data := Select(candidate, IDENTITY_FIELDS)[ATTEMPT := attempt];
      assert IsIdentity(data);
      RecordsAreNotTemp("identity");
      crashed := AtomicWrite(IDENTITY_FILE, data, nonce, crash);
      code := 0;
    }

    /** Exit codes: 2 missing, 3 stale, 4 not PASS, 0 reusable. */
    method Check(tier: string, current: Json, command: string) returns (code: int)
      requires Valid()
      ensures code in {0, 2, 3, 4}
      ensures code == 2 <==> Content(history, TierFile(tier)).None?
      ensures code == 0 <==> Passed(history, TierFile(tier), current) &&
                             Get(Content(history, TierFile(tier)).value, "command") == Some(command)
      ensures code == 3 <==> Content(history, TierFile(tier)).Some? &&
                             !(Agree(Content(history, TierFile(tier)).value, current, CHECK_FIELDS) &&
                               Get(Content(history, TierFile(tier)).value, "command") == Some(command))
    {
      RecordsAreNotTemp(tier);
      if TierFile(tier) !in files {
        return 2;
      }
      match files[TierFile(tier)] {
        case Torn => return 2;
        case Complete(ckpt) =>
          var same := SameFields(ckpt, current, CHECK_FIELDS);
          if !same || Get(ckpt, "command") != Some(command) {
            return 3;
          }
          if Get(ckpt, "result") != Some("PASS") {
            return 4;
          }
          return 0;
      }
    }

    method Write(tier: string, identity: Json, command: string, pass: bool, details: Json, nonce: string, crash: Crash)
      returns (code: int, crashed: bool)
      requires Valid() && IsNonce(nonce)
      modifies this
      ensures Valid()
      ensures !HasAll(identity, CHECK_FIELDS) ==> code == 1 && !crashed && unchanged(this)
      ensures HasAll(identity, CHECK_FIELDS) ==> code == 0 && (crashed <==> crash != NoCrash)
      ensures history == old(history) ||
              (HasAll(identity, CHECK_FIELDS) &&
               history == old(history) + [Committed(TierFile(tier), OutcomeRecord(identity, command, pass, details))])
      ensures code == 0 && !crashed ==> history != old(history)
    {
      var complete := Present(identity, CHECK_FIELDS);
      if !complete {
        return 1, false;
      }
      RecordsAreNotTemp(tier);
      OutcomeShape(identity, command, pass, details);
      crashed := AtomicWrite(TierFile(tier), OutcomeRecord(identity, command, pass, details), nonce, crash);
      code := 0;
    }

    /**
     The opening of a release: peek; resume the recorded attempt, or wipe the directory and mint a new
     one; then init (scripts/release.sh). Both the removal and the write may be cut short.
     */
    method BeginAttempt(candidate: Json, minted: string, nonce: string, interrupted: Option<set<string>>, crash: Crash)
      returns (resumed: bool, crashed: bool)
      requires Valid() && IsNonce(nonce) && HasAll(candidate, IDENTITY_FIELDS) && Unused(history, minted)
      modifies this
      ensures Valid()
      ensures crashed <==> crash != NoCrash || (!resumed && interrupted.Some?)
      ensures resumed <==> Content(old(history), IDENTITY_FILE).Some? &&
                           Agree(Content(old(history), IDENTITY_FILE).value, candidate, IDENTITY_FIELDS)
      ensures !crashed ==> Content(history, IDENTITY_FILE).Some? &&
                           Agree(Content(history, IDENTITY_FILE).value, candidate, IDENTITY_FIELDS)
      ensures resumed ==> forall path | path != IDENTITY_FILE :: Content(history, path) == Content(old(history), path)
      ensures resumed && !crashed ==>
                Get(Content(history, IDENTITY_FILE).value, ATTEMPT) ==
                Get(Content(old(history), IDENTITY_FILE).value, ATTEMPT)
      ensures !resumed && !crashed ==> Get(Content(history, IDENTITY_FILE).value, ATTEMPT) == Some(minted)
      ensures !resumed && interrupted.None? ==>
              forall path | path != IDENTITY_FILE && !IsTemp(path) :: Content(history, path) == None
      ensures !resumed && interrupted.Some? ==>
              forall path :: Content(history, path).None? || Content(history, path) == Content(old(history), path)
    {
      var recorded;
      resumed, recorded := Peek(candidate);
      var id := minted;
      if resumed {
        id := recorded.value;
      } else {
        Wipe(interrupted);
        ContentAfter(old(history), history[|history|-1]);
        if interrupted.Some? {
          return false, true;
        }
      }
      IdentityRecord(candidate, id);
      ghost var before := history;
      var _, c := Init(candidate, id, nonce, crash);
      crashed := c;
      if history != before { ContentAfter(before, history[|before|]); }
    }

    /** Exit code 0 with the records, or 1 at the first tier that is missing, foreign or not PASS. */
    method Aggregate(current: Json, required: seq<string>) returns (code: int, aggregated: map<string, Json>)
      requires Valid()
      ensures code == 0 || code == 1
      ensures code == 0 <==> forall t | t in required :: Passed(history, TierFile(t), current)
      ensures code == 0 ==> aggregated.Keys == (set t | t in required) &&
                            forall t | t in required :: Content(history, t + ".json") == Some(aggregated[t])
    {
      aggregated := map[];
      for i := 0 to |required|
        invariant forall n | 0 <= n < i :: Passed(history, TierFile(required[n]), current)
        invariant aggregated.Keys == set t | t in required[..i]
        invariant forall t | t in aggregated :: Content(history, TierFile(t)) == Some(aggregated[t])
      {
        var tier := required[i];
        RecordsAreNotTemp(tier);
        assert required[..i+1] == required[..i] + [tier];
        if TierFile(tier) !in files || files[TierFile(tier)].Torn? {
          return 1, map[];
        }
        var ckpt := files[TierFile(tier)].record;
        var same := SameFields(ckpt, current, CHECK_FIELDS);
        if !same || Get(ckpt, "result") != Some("PASS") {
          return 1, map[];
        }
        aggregated := aggregated[tier := ckpt];
      }
      assert required[..|required|] == required;
      code := 0;
    }
  }

  /** The record `write` builds: match fields from the identity file, then the outcome. */
  function OutcomeRecord(identity: Json, command: string, pass: bool, details: Json): Json
    requires HasAll(identity, CHECK_FIELDS)
  {
    details + Select(identity, CHECK_FIELDS) + map["command" := command, "result" := if pass then "PASS" else "FAIL"]
  }

  /** What `init` writes carries the candidate's identity and the attempt. */
  lemma IdentityRecord(candidate: Json, id: string)
    requires HasAll(candidate, IDENTITY_FIELDS)
    ensures var r := Select(candidate, IDENTITY_FIELDS)[ATTEMPT := id];
            Agree(r, candidate, IDENTITY_FIELDS) && Get(r, ATTEMPT) == Some(id)
  {
    assert ATTEMPT !in IDENTITY_FIELDS;
  }

  lemma PlainFields()
    ensures "command" !in CHECK_FIELDS && "result" !in CHECK_FIELDS
  {
  }

  lemma MergeKeeps(details: Json, identity: Json, last: Json, fields: seq<string>)
    requires HasAll(identity, fields) && forall f | f in fields :: f !in last
    ensures HasAll(details + Select(identity, fields) + last, fields)
    ensures Agree(details + Select(identity, fields) + last, identity, fields)
  {
  }

  lemma OutcomeShape(identity: Json, command: string, pass: bool, details: Json)
    requires HasAll(identity, CHECK_FIELDS)
    ensures var r := OutcomeRecord(identity, command, pass, details);
            && IsOutcome(r) && Agree(r, identity, CHECK_FIELDS)
            && Get(r, "command") == Some(command) && Get(r, "result") == Some(if pass then "PASS" else "FAIL")
            && forall f | f in details && f !in CHECK_FIELDS && f != "command" && f != "result" ::
               Get(r, f) == Get(details, f)
  {
    PlainFields();
    MergeKeeps(details, identity, map["command" := command, "result" := if pass then "PASS" else "FAIL"], CHECK_FIELDS);
  }

  method SameFields(a: Json, b: Json, fields: seq<string>) returns (same: bool)
    ensures same <==> Agree(a, b, fields)
  {
    for i := 0 to |fields|
      invariant forall n | 0 <= n < i :: Get(a, fields[n]) == Get(b, fields[n])
    {
      if Get(a, fields[i]) != Get(b, fields[i]) {
        return false;
      }
    }
    return true;
  }

  method Present(j: Json, fields: seq<string>) returns (all: bool)
    ensures all <==> HasAll(j, fields)
  {
    for i := 0 to |fields|
      invariant forall n | 0 <= n < i :: fields[n] in j
    {
      if fields[i] !in j {
        return false;
      }
    }
    return true;
  }

  // ---- attempts never mix

  /** No committed record carries the attempt id. */
  ghost predicate Unused(h: seq<Step>, id: string) {
    forall s | s in h && s.Committed? :: Get(s.record, ATTEMPT) != Some(id)
  }

  /**
   Whatever `check` or `aggregate` accepts under an attempt was committed after the attempt's id was
   first used: at every later moment of every run, no record of an earlier attempt is reused.
   */
  lemma AttemptsNeverMix(h: seq<Step>, k: nat, id: string, path: string, current: Json)
    requires k <= |h| && Unused(h[..k], id) && Get(current, ATTEMPT) == Some(id)
    requires Passed(h, path, current)
    ensures exists i :: k <= i < |h| && h[i] == Committed(path, Content(h, path).value)
  {
    var i := ContentCommitted(h, path);
    assert ATTEMPT in CHECK_FIELDS;
    assert forall j | 0 <= j < k :: h[j] == h[..k][j] && h[..k][j] in h[..k];
  }

  /** With an unused id nothing is reusable, whether or not the directory was wiped. */
  lemma NothingReusableAtStart(h: seq<Step>, id: string, path: string, current: Json)
    requires Unused(h, id) && Get(current, ATTEMPT) == Some(id)
    ensures !Passed(h, path, current)
  {
    if Passed(h, path, current) {
      assert h[..|h|] == h;
      AttemptsNeverMix(h, |h|, id, path, current);
    }
  }

  /** An accepted tier was recorded as passing by `write`: the identity file cannot stand in for it. */
  lemma PassedWasWritten(h: seq<Step>, path: string, current: Json)
    requires WellFormed(h) && Passed(h, path, current)
    ensures IsOutcome(Content(h, path).value) && Content(h, path).value["result"] == "PASS"
  {
    var i := ContentCommitted(h, path);
    assert h[i] in h;
    PlainFields();
  }

  /** A failing tier stays unusable until it is written again: the last committed record decides. */
  lemma LastRecordDecides(h: seq<Step>, tier: string, identity: Json, command: string, pass: bool, details: Json)
    requires HasAll(identity, CHECK_FIELDS)
    ensures var written := Committed(TierFile(tier), OutcomeRecord(identity, command, pass, details));
            Passed(h + [written], TierFile(tier), identity) <==> pass
  {
    OutcomeShape(identity, command, pass, details);
  }
}
