/**
 The one-shot sweep owed to the first enabled indexer
 (backend/src/foragerr/api/indexers.py). Requests run concurrently; each step
 below is one database session of one request, and a schedule picks any request
 at any time, or crashes it.
 */
module IndexerSweep {
  import opened Strings

  datatype Op =
    | Create(enabled: bool)
    | Update(id: nat, setEnabled: Option<bool>)
    | Delete(target: nat)

  /** Where a request is, with what it has captured so far. */
  datatype Pc =
    | Start
    | Loaded(becameEnabled: bool)
    | Checked(attempts: bool, hadEnabled: bool)
    | Written(enabled: bool, hadEnabled: bool)
    | Won
    | Done

  datatype Request = Request(op: Op, pc: Pc)

  /**
   The database (indexer rows by id and whether they are enabled, and the
   one-shot marker), the requests, and what has happened so far: claims tried and
   won, sweeps enqueued, winners that died or could not enqueue, rows enabled, and
   requests that came to owe the sweep and that died owing it.
   */
  datatype State = State(
    rows: map<nat, bool>, next: nat, marker: bool, requests: seq<Request>, wired: bool,
    claims: nat, wins: nat, enqueued: nat, failed: nat, enablings: nat, owed: nat, lost: nat)

  predicate HadEnabled(rows: map<nat, bool>) {
    exists id :: id in rows && rows[id]
  }

  /** From `s` to `t` only request `i` has moved, and what it asks for is unchanged. */
  predicate OnlyMoves(s: State, t: State, i: nat) {
    && |t.requests| == |s.requests|
    && (forall j :: 0 <= j < |s.requests| && j != i ==> t.requests[j] == s.requests[j])
    && (i < |s.requests| ==> t.requests[i].op == s.requests[i].op)
  }

  function Move(s: State, i: nat, pc: Pc): (t: State)
    requires i < |s.requests|
    ensures OnlyMoves(s, t, i)
  {
    s.(requests := s.requests[i := s.requests[i].(pc := pc)])
  }

  /** A row is written; the write is an enabling iff it leaves enabled a row that was not. */
  function WriteRow(s: State, id: nat, enabled: bool): State {
    var turnsOn := enabled && !(id in s.rows && s.rows[id]);
    s.(rows := s.rows[id := enabled], enablings := s.enablings + (if turnsOn then 1 else 0))
  }

  /** The request has written its row; it owes the sweep when it enabled one and had found none enabled. */
  function Wrote(s: State, i: nat, id: nat, enabled: bool, hadEnabled: bool): (t: State)
    requires i < |s.requests|
    ensures OnlyMoves(s, t, i)
  {
    Move(WriteRow(s, id, enabled), i, Written(enabled, hadEnabled)).(
      owed := s.owed + (if enabled && !hadEnabled then 1 else 0))
  }

  /** `_claim_first_indexer_sweep`: insert the marker where it does not exist, atomically. */
  function Claim(s: State, i: nat): (t: State)
    requires i < |s.requests|
    ensures OnlyMoves(s, t, i)
  {
    if s.marker then Move(s, i, Done).(claims := s.claims + 1)
    else Move(s, i, Won).(marker := true, claims := s.claims + 1, wins := s.wins + 1)
  }

  /** `_maybe_first_indexer_sweep` up to the claim. */
  function MaybeClaim(s: State, i: nat, enabled: bool, hadEnabled: bool): (t: State)
    requires i < |s.requests|
    ensures OnlyMoves(s, t, i)
  {
    if !enabled || hadEnabled || !s.wired then Move(s, i, Done) else Claim(s, i)
  }

  /** One step of request `i`; `ok` says whether validation, or the enqueue, succeeds. */
  function Go(s: State, i: nat, ok: bool): (t: State)
    requires i < |s.requests|
    ensures OnlyMoves(s, t, i)
  {
    var r := s.requests[i];
    match r.pc
    case Done => s
    case Won => if ok then Move(s, i, Done).(enqueued := s.enqueued + 1) else Move(s, i, Done).(failed := s.failed + 1)
    case Written(enabled, hadEnabled) => MaybeClaim(s, i, enabled, hadEnabled)
    case _ =>
      match r.op
      case Create(enabled) => CreateStep(s, i, enabled, ok)
      case Update(id, enabled) => UpdateStep(s, i, id, enabled, ok)
      case Delete(id) => Move(s, i, Done).(rows := s.rows - {id})
  }

  function CreateStep(s: State, i: nat, enabled: bool, ok: bool): (t: State)
    requires i < |s.requests|
    ensures OnlyMoves(s, t, i)
  {
    match s.requests[i].pc
    case Checked(_, hadEnabled) =>
      // Ids are never reused while a row has them.
      var id := s.next;
      Wrote(s, i, id, enabled, hadEnabled).(next := id + 1)
    case _ =>
      if !ok then Move(s, i, Done) else Move(s, i, Checked(true, HadEnabled(s.rows)))
  }

  function UpdateStep(s: State, i: nat, id: nat, enabled: Option<bool>, ok: bool): (t: State)
    requires i < |s.requests|
    ensures OnlyMoves(s, t, i)
  {
    match s.requests[i].pc
    case Loaded(became) =>
      Move(s, i, Checked(became, if became then HadEnabled(s.rows) else true))
    case Checked(attempts, hadEnabled) =>
      if id !in s.rows then Move(s, i, Done)
      else
        var enabled' := if enabled.Some? then enabled.value else s.rows[id];
        if attempts then Wrote(s, i, id, enabled', hadEnabled) else Move(WriteRow(s, id, enabled'), i, Done)
    case _ =>
      if id !in s.rows || !ok then Move(s, i, Done)
      else Move(s, i, Loaded(enabled == Some(true) && !s.rows[id]))
  }

  /**
   A request that dies between its enabling write and its claim loses the sweep it owed, and
   one that dies after its claim, the sweep it won.
   */
  function Crash(s: State, i: nat): (t: State)
    requires i < |s.requests|
    ensures OnlyMoves(s, t, i)
  {
    Move(s, i, Done).(
      lost := s.lost + (if Owes(s.requests[i]) then 1 else 0),
      failed := s.failed + (if s.requests[i].pc.Won? then 1 else 0))
  }

  predicate Owes(r: Request) {
    r.pc == Written(true, false)
  }

  datatype Pick = Proceed(i: nat, ok: bool) | Die(i: nat)

  function Step(s: State, p: Pick): State {
    if p.i >= |s.requests| then s
    else if p.Proceed? then Go(s, p.i, p.ok) else Crash(s, p.i)
  }

  function Run(s: State, picks: seq<Pick>): State {
    if picks == [] then s else Step(Run(s, picks[..|picks| - 1]), picks[|picks| - 1])
  }

  /** No enabled indexer, no marker, nothing begun. */
  predicate Initial(s: State) {
    && !HadEnabled(s.rows) && !s.marker
    && s.claims == 0 && s.wins == 0 && s.enqueued == 0 && s.failed == 0
    && s.enablings == 0 && s.owed == 0 && s.lost == 0
    && (forall id :: id in s.rows ==> id < s.next)
    && (forall i :: 0 <= i < |s.requests| ==> s.requests[i].pc == Start)
  }

  predicate Quiescent(s: State) {
    forall i :: 0 <= i < |s.requests| ==> s.requests[i].pc == Done
  }

  // ----- what every step keeps ---------------------------------------------------

  /** Before anything was ever enabled, no request can have seen an enabled row. */
  predicate NothingSeenYet(s: State) {
    && !HadEnabled(s.rows)
    && forall i :: 0 <= i < |s.requests| ==>
        && !(s.requests[i].pc.Written? && s.requests[i].pc.enabled)
        && !s.requests[i].pc.Won?
        && (s.requests[i].pc.Checked? && s.requests[i].op.Create? ==> !s.requests[i].pc.hadEnabled)
        && (s.requests[i].op.Update? && s.requests[i].op.setEnabled == Some(true) ==>
              && (s.requests[i].pc.Loaded? ==> s.requests[i].pc.becameEnabled)
              && (s.requests[i].pc.Checked? ==> s.requests[i].pc.attempts && !s.requests[i].pc.hadEnabled))
        && !(s.requests[i].op.Delete? && s.requests[i].pc.Checked?)
  }

  predicate Inv(s: State) {
    && s.wins == (if s.marker then 1 else 0)
    && (forall id :: id in s.rows ==> id < s.next)
    && (s.marker <==> s.claims > 0)
    && (s.owed > 0 <==> s.enablings > 0)
    && (s.enablings == 0 ==> NothingSeenYet(s))
    && Owers(s.requests) + s.lost + s.claims <= s.owed
    && (s.wired ==> Owers(s.requests) + s.lost + s.claims == s.owed)
    && s.enqueued + Winners(s.requests) + s.failed == s.wins
  }

  /** How many requests have won the claim and not yet enqueued. */
  function Winners(rs: seq<Request>): nat {
    if rs == [] then 0 else Winners(rs[..|rs| - 1]) + (if rs[|rs| - 1].pc.Won? then 1 else 0)
  }

  /** How many requests owe the sweep. */
  function Owers(rs: seq<Request>): nat {
    if rs == [] then 0 else Owers(rs[..|rs| - 1]) + (if Owes(rs[|rs| - 1]) then 1 else 0)
  }

  lemma {:induction false} WinnersMove(rs: seq<Request>, i: nat, r: Request)
    requires i < |rs|
    ensures Winners(rs[i := r]) == Winners(rs) - (if rs[i].pc.Won? then 1 else 0) + (if r.pc.Won? then 1 else 0)
  {
    var n := |rs| - 1;
    if i == n {
      assert rs[i := r][..n] == rs[..n];
    } else {
      assert rs[i := r][..n] == rs[..n][i := r];
      WinnersMove(rs[..n], i, r);
    }
  }

  lemma {:induction false} OwersMove(rs: seq<Request>, i: nat, r: Request)
    requires i < |rs|
    ensures Owers(rs[i := r]) == Owers(rs) - (if Owes(rs[i]) then 1 else 0) + (if Owes(r) then 1 else 0)
  {
    var n := |rs| - 1;
    if i == n {
      assert rs[i := r][..n] == rs[..n];
    } else {
      assert rs[i := r][..n] == rs[..n][i := r];
      OwersMove(rs[..n], i, r);
    }
  }

  /** How a move of one request changes who has won and who owes. */
  lemma CountsMove(s: State, t: State, i: nat)
    requires i < |s.requests| == |t.requests| && t.requests == s.requests[i := t.requests[i]]
    ensures Winners(t.requests) ==
            Winners(s.requests) - (if s.requests[i].pc.Won? then 1 else 0) + (if t.requests[i].pc.Won? then 1 else 0)
    ensures Owers(t.requests) ==
            Owers(s.requests) - (if Owes(s.requests[i]) then 1 else 0) + (if Owes(t.requests[i]) then 1 else 0)
  {
    WinnersMove(s.requests, i, t.requests[i]);
    OwersMove(s.requests, i, t.requests[i]);
  }

  lemma CrashKeeps(s: State, i: nat)
    requires i < |s.requests| && Inv(s)
    ensures Inv(Crash(s, i)) && Crash(s, i).wired == s.wired
  {
    hide Winners, Owers;
    CountsMove(s, Crash(s, i), i);
  }

  lemma ClaimStepKeeps(s: State, i: nat, ok: bool)
    requires i < |s.requests| && Inv(s) &&
             (s.requests[i].pc.Written? || s.requests[i].pc.Won? || s.requests[i].pc.Done?)
    ensures Inv(Go(s, i, ok)) && Go(s, i, ok).wired == s.wired
  {
    hide Winners, Owers;
    CountsMove(s, Go(s, i, ok), i);
  }

  /** The write of a create or of an update that attempts the sweep. */
  lemma WroteKeeps(s: State, i: nat, id: nat, enabled: bool, hadEnabled: bool, next: nat)
    requires i < |s.requests| && Inv(s) && s.requests[i].pc.Checked? && id < next && s.next <= next
    requires s.enablings == 0 && enabled ==> !hadEnabled
    ensures Inv(Wrote(s, i, id, enabled, hadEnabled).(next := next))
  {
    hide Winners, Owers;
    CountsMove(s, Wrote(s, i, id, enabled, hadEnabled), i);
  }

  /** A step that writes no row, or disables one, and leaves nobody owing. */
  lemma QuietStepKeeps(s: State, t: State, i: nat, pc: Pc)
    requires i < |s.requests| && Inv(s) && !Owes(s.requests[i]) && !s.requests[i].pc.Won?
    requires t == Move(s, i, pc).(rows := t.rows) && (pc.Loaded? || pc.Checked? || pc.Done?)
    requires forall id :: id in t.rows ==> id in s.rows
    requires s.enablings == 0 ==> NothingSeenYet(t)
    ensures Inv(t)
  {
    hide Winners, Owers, NothingSeenYet;
    CountsMove(s, t, i);
  }

  lemma CreateKeeps(s: State, i: nat, ok: bool)
    requires i < |s.requests| && Inv(s) && s.requests[i].op.Create?
    requires !s.requests[i].pc.Written? && !s.requests[i].pc.Won? && !s.requests[i].pc.Done?
    ensures Inv(Go(s, i, ok)) && Go(s, i, ok).wired == s.wired
  {
    hide Winners, Owers;
    var r := s.requests[i];
    if r.pc.Checked? {
      WroteKeeps(s, i, s.next, r.op.enabled, r.pc.hadEnabled, s.next + 1);
    } else {
      var t := Go(s, i, ok);
      QuietStepKeeps(s, t, i, t.requests[i].pc);
    }
  }

  lemma UpdateWriteKeeps(s: State, i: nat, ok: bool)
    requires i < |s.requests| && Inv(s) && s.requests[i].op.Update? && s.requests[i].pc.Checked?
    ensures Inv(Go(s, i, ok)) && Go(s, i, ok).wired == s.wired
  {
    hide Winners, Owers;
    var r := s.requests[i];
    var id := r.op.id;
    if id in s.rows {
      var enabled := if r.op.setEnabled.Some? then r.op.setEnabled.value else s.rows[id];
      if r.pc.attempts {
        WroteKeeps(s, i, id, enabled, r.pc.hadEnabled, s.next);
      } else {
        CountsMove(s, Go(s, i, ok), i);
      }
    } else {
      QuietStepKeeps(s, Go(s, i, ok), i, Done);
    }
  }

  lemma UpdateKeeps(s: State, i: nat, ok: bool)
    requires i < |s.requests| && Inv(s) && s.requests[i].op.Update?
    requires !s.requests[i].pc.Written? && !s.requests[i].pc.Won? && !s.requests[i].pc.Done?
    ensures Inv(Go(s, i, ok)) && Go(s, i, ok).wired == s.wired
  {
    hide Winners, Owers;
    if s.requests[i].pc.Checked? {
      UpdateWriteKeeps(s, i, ok);
    } else {
      var t := Go(s, i, ok);
      QuietStepKeeps(s, t, i, t.requests[i].pc);
    }
  }

  lemma DeleteKeeps(s: State, i: nat, ok: bool)
    requires i < |s.requests| && Inv(s) && s.requests[i].op.Delete?
    requires !s.requests[i].pc.Written? && !s.requests[i].pc.Won? && !s.requests[i].pc.Done?
    ensures Inv(Go(s, i, ok)) && Go(s, i, ok).wired == s.wired
  {
    hide Winners, Owers;
    CountsMove(s, Go(s, i, ok), i);
  }

  /** Every step of every request, and every crash, keeps the invariant. */
  lemma StepKeeps(s: State, p: Pick)
    requires Inv(s)
    ensures Inv(Step(s, p)) && Step(s, p).wired == s.wired
  {
    hide Go, Crash, Inv;
    if p.i < |s.requests| {
      if p.Die? {
        CrashKeeps(s, p.i);
      } else {
        var r := s.requests[p.i];
        if r.pc.Written? || r.pc.Won? || r.pc.Done? {
          ClaimStepKeeps(s, p.i, p.ok);
        } else if r.op.Create? {
          CreateKeeps(s, p.i, p.ok);
        } else if r.op.Update? {
          UpdateKeeps(s, p.i, p.ok);
        } else {
          DeleteKeeps(s, p.i, p.ok);
        }
      }
    }
  }

  lemma {:induction false} NobodyAtFirst(rs: seq<Request>)
    requires forall i :: 0 <= i < |rs| ==> !rs[i].pc.Won? && !Owes(rs[i])
    ensures Winners(rs) == 0 && Owers(rs) == 0
  {
    if rs != [] {
      NobodyAtFirst(rs[..|rs| - 1]);
    }
  }

  lemma {:induction false} RunKeeps(s: State, picks: seq<Pick>)
    requires Initial(s)
    ensures Inv(Run(s, picks)) && Run(s, picks).wired == s.wired
  {
    if picks == [] {
      NobodyAtFirst(s.requests);
    } else {
      hide Inv, Step, Initial;
      RunKeeps(s, picks[..|picks| - 1]);
      StepKeeps(Run(s, picks[..|picks| - 1]), picks[|picks| - 1]);
    }
  }

  // ----- exactly one sweep ---------------------------------------------------------

  /**
   Under every interleaving and every crash the claim is won at most once, and a won
   claim is one sweep enqueued, unless its winner has yet to go on, died, or could not
   enqueue. Some request comes to owe the sweep iff some indexer is ever enabled; and
   when all requests have ended, the claim was won exactly once iff not every request
   that came to owe the sweep died between its write and its claim.
   */
  lemma ExactlyOneSweep(s: State, picks: seq<Pick>)
    requires Initial(s)
    ensures var t := Run(s, picks);
            && t.wins <= 1 && t.wins == t.enqueued + Winners(t.requests) + t.failed && t.lost <= t.owed
            && (t.owed > 0 <==> t.enablings > 0)
            && (t.wins == 1 ==> t.owed > t.lost)
            && (s.wired && Quiescent(t) ==> (t.wins == 1 <==> t.owed > t.lost))
            && (Quiescent(t) ==> t.wins == t.enqueued + t.failed)
  {
    RunKeeps(s, picks);
    var t := Run(s, picks);
    if Quiescent(t) {
      NobodyAtFirst(t.requests);
    }
  }

  lemma OnlyCrashesLose(s: State, i: nat, ok: bool)
    requires i < |s.requests|
    ensures Go(s, i, ok).lost == s.lost
    ensures ok || !s.requests[i].pc.Won? ==> Go(s, i, ok).failed == s.failed
  {
    hide HadEnabled, OnlyMoves, Owes;
  }

  /** Without crashes nothing is lost, so the claim is won exactly once iff some indexer is ever enabled. */
  lemma {:induction false} NothingLostWithoutCrashes(s: State, picks: seq<Pick>)
    requires Initial(s) && forall k :: 0 <= k < |picks| ==> picks[k].Proceed?
    ensures var t := Run(s, picks);
            t.lost == 0 && (s.wired && Quiescent(t) ==> (t.wins == 1 <==> t.enablings > 0))
  {
    hide Go, Initial, Quiescent;
    ExactlyOneSweep(s, picks);
    if picks == [] {
      assert s.lost == 0 by { InitiallyNothingLost(s); }
    } else {
      assert forall k :: 0 <= k < |picks| - 1 ==> picks[..|picks| - 1][k] == picks[k];
      NothingLostWithoutCrashes(s, picks[..|picks| - 1]);
      var before, p := Run(s, picks[..|picks| - 1]), picks[|picks| - 1];
      if p.i < |before.requests| {
        OnlyCrashesLose(before, p.i, p.ok);
      }
    }
  }

  /** Every winner that goes on does enqueue. */
  ghost predicate EnqueuesSucceed(s: State, picks: seq<Pick>) {
    forall k :: 0 <= k < |picks| ==> EnqueueSucceeds(Run(s, picks[..k]), picks[k])
  }

  predicate EnqueueSucceeds(s: State, p: Pick) {
    p.Proceed? && (p.i < |s.requests| && s.requests[p.i].pc.Won? ==> p.ok)
  }

  lemma {:induction false} NothingFails(s: State, picks: seq<Pick>)
    requires Initial(s) && EnqueuesSucceed(s, picks)
    ensures Run(s, picks).failed == 0
  {
    if picks != [] {
      hide Go, Initial;
      var init, p := picks[..|picks| - 1], picks[|picks| - 1];
      forall k | 0 <= k < |init| ensures EnqueueSucceeds(Run(s, init[..k]), init[k]) {
        assert init[..k] == picks[..k] && init[k] == picks[k];
      }
      NothingFails(s, init);
      var before := Run(s, init);
      assert EnqueueSucceeds(before, p);
      if p.i < |before.requests| {
        OnlyCrashesLose(before, p.i, p.ok);
      }
    }
  }

  /**
   Without crashes and with a queue that takes the command, the sweep is enqueued exactly
   once, as soon as all requests have ended, iff some indexer was ever enabled.
   */
  lemma SweepIsEnqueuedOnce(s: State, picks: seq<Pick>)
    requires Initial(s) && s.wired && EnqueuesSucceed(s, picks) && Quiescent(Run(s, picks))
    ensures var t := Run(s, picks); t.enqueued <= 1 && (t.enqueued == 1 <==> t.enablings > 0)
  {
    hide Initial, Run, Quiescent, Winners;
    forall k | 0 <= k < |picks| ensures picks[k].Proceed? {
      assert EnqueueSucceeds(Run(s, picks[..k]), picks[k]);
    }
    NothingLostWithoutCrashes(s, picks);
    ExactlyOneSweep(s, picks);
    NothingFails(s, picks);
  }

  lemma InitiallyNothingLost(s: State)
    requires Initial(s)
    ensures s.lost == 0
  {
  }

  /**
   The exception is real: a create that dies after its write, alone in owing the
   sweep, is not made up for by the next one, which finds an enabled indexer.
   */
  lemma CrashLosesTheSweep() returns (s: State, picks: seq<Pick>)
    ensures Initial(s) && s.wired && Quiescent(Run(s, picks))
    ensures Run(s, picks).enablings > 0 && Run(s, picks).wins == 0 && Run(s, picks).lost == Run(s, picks).owed
  {
    hide OnlyMoves, NothingSeenYet;
    var start, checked := Request(Create(true), Start), Request(Create(true), Checked(true, false));
    var written, done := Request(Create(true), Written(true, false)), Request(Create(true), Done);
    s := State(map[], 0, false, [start, start], true, 0, 0, 0, 0, 0, 0, 0);
    var t0 := s.(requests := [checked, start]);
    var t1 := s.(rows := map[0 := true], next := 1, requests := [written, start], enablings := 1, owed := 1);
    var t2 := t1.(requests := [done, start], lost := 1);
    var t3 := t2.(requests := [done, Request(Create(true), Checked(true, true))]);
    var t4 := t3.(rows := map[0 := true, 1 := true], next := 2,
      requests := [done, Request(Create(true), Written(true, true))], enablings := 2);
    var t5 := t4.(requests := [done, done]);
    var go0, go1 := Proceed(0, true), Proceed(1, true);
    assert Step(s, go0) == t0;
    assert Step(t0, go0) == t1 by { hide HadEnabled; }
    assert Step(t1, Die(0)) == t2 by { hide HadEnabled; }
    assert Step(t2, go1) == t3 by { assert t2.rows[0]; }
    assert Step(t3, go1) == t4 by { hide HadEnabled; }
    assert Step(t4, go1) == t5 by { hide HadEnabled; }
    picks := [go0, go0, Die(0), go1, go1, go1];
    RunSix(s, picks);
  }

  lemma RunSix(s: State, picks: seq<Pick>)
    requires |picks| == 6
    ensures Run(s, picks) ==
            Step(Step(Step(Step(Step(Step(s, picks[0]), picks[1]), picks[2]), picks[3]), picks[4]), picks[5])
  {
    hide Step;
    assert picks[..5][..4] == picks[..4] && picks[..4][..3] == picks[..3];
    assert picks[..3][..2] == picks[..2] && picks[..2][..1] == picks[..1] && picks[..1][..0] == [];
    assert Run(s, picks[..1]) == Step(s, picks[0]);
    assert Run(s, picks[..2]) == Step(Run(s, picks[..1]), picks[1]);
    assert Run(s, picks[..3]) == Step(Run(s, picks[..2]), picks[2]);
    assert Run(s, picks[..4]) == Step(Run(s, picks[..3]), picks[3]);
  }

  // ----- saving an enabled indexer again -----------------------------------------------

  /** An update that found its row enabled, or does not enable it, will not go for the sweep. */
  predicate OutOfTheRace(r: Request) {
    r.op.Update? && (r.pc == Loaded(false) || (r.pc.Checked? && !r.pc.attempts) || r.pc.Done?)
  }

  lemma StepStaysOut(s: State, i: nat, p: Pick)
    requires i < |s.requests| && OutOfTheRace(s.requests[i])
    ensures |Step(s, p).requests| == |s.requests| && OutOfTheRace(Step(s, p).requests[i])
  {
    hide HadEnabled, CreateStep, MaybeClaim, Owes;
  }

  lemma {:induction false} RunStaysOut(s: State, i: nat, picks: seq<Pick>)
    requires i < |s.requests| && OutOfTheRace(s.requests[i])
    ensures |Run(s, picks).requests| == |s.requests| && OutOfTheRace(Run(s, picks).requests[i])
  {
    if picks != [] {
      RunStaysOut(s, i, picks[..|picks| - 1]);
      var t := Run(s, picks[..|picks| - 1]);
      hide OutOfTheRace;
      StepStaysOut(t, i, picks[|picks| - 1]);
    }
  }

  /**
   An update that loads its row drops out of the race there iff it does not ask to
   enable, finds the row enabled or gone, or is refused; and then, whatever else
   happens, it never reaches the claim.
   */
  lemma ResavingNeverAttempts(s: State, i: nat, ok: bool, picks: seq<Pick>)
    requires i < |s.requests| && s.requests[i].op.Update? && s.requests[i].pc == Start
    ensures var op, t := s.requests[i].op, Step(s, Proceed(i, ok));
            && |t.requests| == |s.requests| == |Run(t, picks).requests|
            && (OutOfTheRace(t.requests[i])
                <==> op.setEnabled != Some(true) || op.id !in s.rows || s.rows[op.id] || !ok)
            && (OutOfTheRace(t.requests[i]) ==> OutOfTheRace(Run(t, picks).requests[i]))
  {
    var t := Step(s, Proceed(i, ok));
    if OutOfTheRace(t.requests[i]) {
      RunStaysOut(t, i, picks);
    }
    RunKeepsLength(t, picks);
  }

  lemma {:induction false} RunKeepsLength(s: State, picks: seq<Pick>)
    ensures |Run(s, picks).requests| == |s.requests|
  {
    if picks != [] {
      RunKeepsLength(s, picks[..|picks| - 1]);
    }
  }

  // ----- rows -------------------------------------------------------------------------------

  /** Rows that are gone stay gone: an id below the next one that has no row never gets one again. */
  lemma {:induction false} GoneStaysGone(s: State, id: nat, picks: seq<Pick>)
    requires id !in s.rows && id < s.next
    ensures id !in Run(s, picks).rows && id < Run(s, picks).next
  {
    if picks != [] {
      GoneStaysGone(s, id, picks[..|picks| - 1]);
      StepStaysGone(Run(s, picks[..|picks| - 1]), id, picks[|picks| - 1]);
    }
  }

  /** A create writes one new row, with its flag, once it has found out what was enabled. */
  lemma RowsOfCreate(s: State, i: nat, ok: bool)
    requires i < |s.requests| && s.requests[i].op.Create?
    ensures var r, t := s.requests[i], Go(s, i, ok);
            if r.pc.Checked? then t.rows == s.rows[s.next := r.op.enabled] && t.next == s.next + 1
            else t.rows == s.rows && t.next == s.next
  {
    hide HadEnabled, OnlyMoves;
  }

  lemma RowsOfUpdateWrite(s: State, i: nat, ok: bool)
    requires i < |s.requests| && s.requests[i].op.Update? && s.requests[i].pc.Checked?
    ensures var op, t := s.requests[i].op, Go(s, i, ok);
            && t.next == s.next
            && t.rows == if op.id !in s.rows then s.rows
                         else s.rows[op.id := if op.setEnabled.Some? then op.setEnabled.value else s.rows[op.id]]
  {
    hide HadEnabled, OnlyMoves;
  }

  lemma RowsOfUpdateElse(s: State, i: nat, ok: bool)
    requires i < |s.requests| && s.requests[i].op.Update? && !s.requests[i].pc.Checked?
    ensures Go(s, i, ok).rows == s.rows && Go(s, i, ok).next == s.next
  {
    hide HadEnabled, OnlyMoves;
  }

  /** An update writes its row, if that is there, with the flag it asks for or the one it had. */
  lemma RowsOfUpdate(s: State, i: nat, ok: bool)
    requires i < |s.requests| && s.requests[i].op.Update?
    ensures var op, t := s.requests[i].op, Go(s, i, ok);
            && t.next == s.next
            && t.rows == if !s.requests[i].pc.Checked? || op.id !in s.rows then s.rows
                         else s.rows[op.id := if op.setEnabled.Some? then op.setEnabled.value else s.rows[op.id]]
  {
    hide Go;
    if s.requests[i].pc.Checked? {
      RowsOfUpdateWrite(s, i, ok);
    } else {
      RowsOfUpdateElse(s, i, ok);
    }
  }

  lemma RowsOfDelete(s: State, i: nat, ok: bool)
    requires i < |s.requests| && s.requests[i].op.Delete?
    ensures var r, t := s.requests[i], Go(s, i, ok);
            && t.next == s.next
            && if r.pc.Written? || r.pc.Won? || r.pc.Done? then t.rows == s.rows else t.rows == s.rows - {r.op.target}
  {
    hide HadEnabled, OnlyMoves;
  }

  lemma StepStaysGone(s: State, id: nat, p: Pick)
    requires id !in s.rows && id < s.next
    ensures id !in Step(s, p).rows && id < Step(s, p).next
  {
    if p.i < |s.requests| && p.Proceed? {
      RowsOfCreateUpdateDelete(s, p.i, p.ok);
    }
    hide Go;
  }

  lemma RowsOfCreateUpdateDelete(s: State, i: nat, ok: bool)
    requires i < |s.requests|
    ensures var t := Go(s, i, ok);
            t.next >= s.next && forall id :: id in t.rows ==> id in s.rows || id == s.next < t.next
  {
    hide Go;
    match s.requests[i].op
    case Create(_) => RowsOfCreate(s, i, ok);
    case Update(_, _) => RowsOfUpdate(s, i, ok);
    case Delete(_) => RowsOfDelete(s, i, ok);
  }

  /** A deleted row is gone for good, whatever creates and updates follow or were under way. */
  lemma DeletedIsGone(s: State, i: nat, ok: bool, picks: seq<Pick>)
    requires i < |s.requests| && s.requests[i].op.Delete? && s.requests[i].pc == Start
    requires s.requests[i].op.target in s.rows && forall id :: id in s.rows ==> id < s.next
    ensures var t := Step(s, Proceed(i, ok));
            && t.requests[i].pc == Done && s.requests[i].op.target !in Run(t, picks).rows
            && forall id :: id in s.rows && id != s.requests[i].op.target ==> id in t.rows && t.rows[id] == s.rows[id]
  {
    GoneStaysGone(Step(s, Proceed(i, ok)), s.requests[i].op.target, picks);
  }

  /**
   Only three things befall a row: an update of it writes the flag it asks for, its delete
   removes it, and everything else leaves it alone.
   */
  lemma WhoWritesARow(s: State, id: nat, p: Pick)
    requires id in s.rows && id < s.next
    ensures var t := Step(s, p);
            || (id in t.rows && t.rows[id] == s.rows[id])
            || (p.Proceed? && p.i < |s.requests| && s.requests[p.i].op == Delete(id) && id !in t.rows)
            || (p.Proceed? && p.i < |s.requests| && id in t.rows && s.requests[p.i].op == Update(id, Some(t.rows[id])))
  {
    hide Go;
    if p.i < |s.requests| && p.Proceed? {
      match s.requests[p.i].op
      case Create(_) => RowsOfCreate(s, p.i, p.ok);
      case Update(_, _) => RowsOfUpdate(s, p.i, p.ok);
      case Delete(_) => RowsOfDelete(s, p.i, p.ok);
    }
  }
}
