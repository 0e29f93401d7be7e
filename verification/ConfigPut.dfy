/**
 Configuration updates (backend/src/foragerr/api/config_resources.py and
 apply_config_file_updates of backend/src/foragerr/config.py): one locked
 read-modify-write-reload, and any interleaving of several.
 */
module ConfigPut {
  import opened Strings
  import opened ConfigFile

  /** The file on disk and the settings the application works with. */
  datatype Store = Store(file: Document, live: Values)

  /** `{**read_config_file(...), **updates}` without the configuration directory. */
  function Merged(file: Document, updates: Values): Values {
    (Parse(file) + updates) - {"config_dir"}
  }

  /** One update as if it ran alone; `diskFails` is a write the disk refuses. */
  function Serially(c: Context, s: Store, updates: Values, diskFails: bool): Store {
    var merged := Merged(s.file, updates);
    var settings := Build(c, merged);
    if settings.None? || diskFails then s else Store(Rendered(c.fields, merged), settings.value)
  }

  datatype Outcome = Accepted | Rejected | Failed

  function OutcomeOf(c: Context, s: Store, updates: Values, diskFails: bool): Outcome {
    if Build(c, Merged(s.file, updates)).None? then Rejected else if diskFails then Failed else Accepted
  }

  /**
   An update is rejected iff a validator refuses a value that the merge, or the environment
   over it, gives a field, or the last validator refuses them together, whatever the disk
   would have said; it fails iff it is not rejected and the disk refuses the write.
   */
  lemma OutcomeAsChecked(c: Context, s: Store, updates: Values, diskFails: bool)
    ensures var merged := (Parse(s.file) + updates) - {"config_dir"};
            var rejected :=
              if exists key :: key in Names(c.fields) && IsRefused(c.rules, c.env, c.dir, merged, key) then true
              else c.rules.finish(map key | key in Names(c.fields) ::
                     Checked(c.fields, c.rules, c.env, c.dir, merged, key)).None?;
            OutcomeOf(c, s, updates, diskFails) == if rejected then Rejected else if diskFails then Failed else Accepted
  {
    hide Parse, IsRefused, Checked, Settings, Names;
    SettingsAsGiven(c.fields, c.rules, c.env, c.dir, (Parse(s.file) + updates) - {"config_dir"});
  }

  class App {
    const c: Context
    var file: Document
    var settings: Values
    var workerSettings: Values

    /** `_apply`, whose body runs without a break once the lock is held. */
    method Apply(updates: Values, diskFails: bool) returns (outcome: Outcome)
      modifies this
      ensures outcome == OutcomeOf(c, old(Store(file, settings)), updates, diskFails)
      ensures Store(file, settings) == Serially(c, old(Store(file, settings)), updates, diskFails)
      ensures workerSettings == if outcome == Accepted then settings else old(workerSettings)
    {
      hide Settings, Rendered, Parse;
      var merged := (Parse(file) + updates) - {"config_dir"};
      var newSettings := Settings(c.fields, c.rules, c.env, c.dir, merged);
      if newSettings.None? {
        return Rejected;
      }
      var lines := RenderDocumentedConfig(c.fields, merged);
      if diskFails {
        return Failed;
      }
      file := lines;
      settings := newSettings.value;
      workerSettings := newSettings.value;
      return Accepted;
    }
  }

  // ----- interleaved requests ------------------------------------------------------------

  /** How far a request has come. Between two of its steps others may take theirs. */
  datatype Phase =
    | Waiting
    | Locked
    | Validated(merged: Values, settings: Values)
    | Stored(settings: Values)
    | Done(outcome: Outcome)

  /** The store, who holds the lock, how far every request is, and in which order they finished. */
  datatype State = State(store: Store, holder: Option<nat>, phases: seq<Phase>, finished: seq<Finished>)

  datatype Finished = Finished(put: nat, diskFails: bool)

  predicate Critical(p: Phase) {
    p.Locked? || p.Validated? || p.Stored?
  }

  /** Request `i` takes its next step; `diskFails` is what the disk says to a write. */
  predicate Step(c: Context, puts: seq<Values>, s: State, i: nat, diskFails: bool, t: State) {
    && i < |puts| == |s.phases|
    && match s.phases[i]
       case Waiting => s.holder.None? && t == s.(holder := Some(i), phases := s.phases[i := Locked])
       case Locked =>
         var merged := Merged(s.store.file, puts[i]);
         var settings := Build(c, merged);
         if settings.None? then t == Leave(s, i, s.store, Rejected, false)
         else t == s.(phases := s.phases[i := Validated(merged, settings.value)])
       case Validated(merged, settings) =>
         if diskFails then t == Leave(s, i, s.store, Failed, true)
         else t == s.(store := s.store.(file := Rendered(c.fields, merged)), phases := s.phases[i := Stored(settings)])
       case Stored(settings) => t == Leave(s, i, s.store.(live := settings), Accepted, false)
       case Done(_) => false
  }

  /** The request is done and gives the lock up. */
  function Leave(s: State, i: nat, store: Store, outcome: Outcome, diskFails: bool): State
    requires i < |s.phases|
  {
    State(store, None, s.phases[i := Done(outcome)], s.finished + [Finished(i, diskFails)])
  }

  predicate Initial(s: State, puts: seq<Values>) {
    s.holder.None? && |s.phases| == |puts| && s.finished == [] && forall i :: 0 <= i < |s.phases| ==>
        s.phases[i] == Waiting
  }

  /** Any number of steps, by any requests in any order. */
  ghost predicate Run(c: Context, puts: seq<Values>, s: State, n: nat, t: State) {
    if n == 0 then s == t else exists u, i, fails :: Run(c, puts, s, n - 1, u) && Step(c, puts, u, i, fails, t)
  }

  /** The finished requests one after another. */
  function InOrder(c: Context, puts: seq<Values>, s: Store, finished: seq<Finished>): Store {
    if finished == [] then s
    else
      var last := finished[|finished| - 1];
      var before := InOrder(c, puts, s, finished[..|finished| - 1]);
      if last.put < |puts| then Serially(c, before, puts[last.put], last.diskFails) else before
  }

  /** What holds after every step: the store is that of the finished requests, but for what the holder has written. */
  predicate Inv(c: Context, puts: seq<Values>, start: Store, s: State) {
    var base := InOrder(c, puts, start, s.finished);
    && |s.phases| == |puts|
    && (forall i :: 0 <= i < |s.phases| && Critical(s.phases[i]) ==> s.holder == Some(i))
    && (forall i :: 0 <= i < |s.phases| ==> (s.phases[i].Done? <==> Came(s.finished, i)))
    && Once(s.finished)
    && match s.holder
       case None => s.store == base
       case Some(i) => i < |puts| && Critical(s.phases[i]) && Holds(c, base, puts[i], s.phases[i], s.store)
  }

  predicate Holds(c: Context, base: Store, updates: Values, p: Phase, store: Store) {
    match p
    case Validated(merged, settings) =>
      store == base && merged == Merged(base.file, updates) && Build(c, merged) == Some(settings)
    case Stored(settings) =>
      && store.live == base.live && store.(live := settings) == Serially(c, base, updates, false)
      && Build(c, Merged(base.file, updates)) == Some(settings)
    case _ => store == base
  }

  predicate Came(finished: seq<Finished>, i: nat) {
    exists k :: 0 <= k < |finished| && finished[k].put == i
  }

  predicate Once(finished: seq<Finished>) {
    forall j, k :: 0 <= j < k < |finished| ==> finished[j].put != finished[k].put
  }

  lemma OneMore(c: Context, puts: seq<Values>, start: Store, finished: seq<Finished>, f: Finished)
    requires f.put < |puts|
    ensures InOrder(c, puts, start, finished + [f]) ==
            Serially(c, InOrder(c, puts, start, finished), puts[f.put], f.diskFails)
    ensures forall i :: Came(finished + [f], i) <==> Came(finished, i) || i == f.put
    ensures Once(finished) && !Came(finished, f.put) ==> Once(finished + [f])
  {
    hide Serially;
    var more := finished + [f];
    assert more[..|finished|] == finished && more[|finished|] == f;
    forall i ensures Came(more, i) <==> Came(finished, i) || i == f.put {
      if Came(finished, i) {
        var k :| 0 <= k < |finished| && finished[k].put == i;
        assert more[k].put == i;
      }
      assert i == f.put ==> more[|finished|].put == i;
    }
  }

  lemma LeaveKeeps(c: Context, puts: seq<Values>, start: Store, s: State, i: nat, store: Store, outcome: Outcome,
                   diskFails: bool)
    requires Inv(c, puts, start, s) && i < |puts| && s.holder == Some(i)
    requires store == Serially(c, InOrder(c, puts, start, s.finished), puts[i], diskFails)
    ensures Inv(c, puts, start, Leave(s, i, store, outcome, diskFails))
  {
    hide Serially, Came, Once, InOrder, Holds;
    OneMore(c, puts, start, s.finished, Finished(i, diskFails));
  }

  lemma StepKeeps(c: Context, puts: seq<Values>, start: Store, s: State, i: nat, diskFails: bool, t: State)
    requires Inv(c, puts, start, s) && Step(c, puts, s, i, diskFails, t)
    ensures Inv(c, puts, start, t)
  {
    hide Rendered, Build, Merged, Came, Once, InOrder;
    if t.holder.None? {
      var base := InOrder(c, puts, start, s.finished);
      match s.phases[i]
      case Locked => LeaveKeeps(c, puts, start, s, i, s.store, Rejected, false);
      case Validated(_, _) => LeaveKeeps(c, puts, start, s, i, s.store, Failed, true);
      case Stored(settings) => LeaveKeeps(c, puts, start, s, i, s.store.(live := settings), Accepted, false);
    }
  }

  lemma {:induction false} RunKeeps(c: Context, puts: seq<Values>, s: State, n: nat, t: State)
    requires Initial(s, puts) && Run(c, puts, s, n, t)
    ensures Inv(c, puts, s.store, t)
  {
    hide Step, Inv;
    if n == 0 {
      InitialInv(c, puts, s);
    } else {
      var u, i, fails :| Run(c, puts, s, n - 1, u) && Step(c, puts, u, i, fails, t);
      RunKeeps(c, puts, s, n - 1, u);
      StepKeeps(c, puts, s.store, u, i, fails, t);
    }
  }

  lemma InitialInv(c: Context, puts: seq<Values>, s: State)
    requires Initial(s, puts)
    ensures Inv(c, puts, s.store, s)
  {
  }

  /** Every finished request was told what became of it on top of those that finished before. */
  predicate Told(c: Context, puts: seq<Values>, start: Store, s: State) {
    |s.phases| == |puts| && forall k :: 0 <= k < |s.finished| ==> ToldOne(c, puts, start, s, k)
  }

  predicate ToldOne(c: Context, puts: seq<Values>, start: Store, s: State, k: nat)
    requires k < |s.finished| && |s.phases| == |puts|
  {
    var f := s.finished[k];
    f.put < |puts| &&
    s.phases[f.put] == Done(OutcomeOf(c, InOrder(c, puts, start, s.finished[..k]), puts[f.put], f.diskFails))
  }

  lemma StepTells(c: Context, puts: seq<Values>, start: Store, s: State, i: nat, diskFails: bool, t: State)
    requires Inv(c, puts, start, s) && Told(c, puts, start, s) && Step(c, puts, s, i, diskFails, t)
    ensures Told(c, puts, start, t)
  {
    hide Rendered, Build, Merged, Came, Once, InOrder;
    assert !s.phases[i].Done?;
    forall k | 0 <= k < |t.finished| ensures ToldOne(c, puts, start, t, k) {
      if k < |s.finished| {
        assert ToldOne(c, puts, start, s, k);
        assert t.finished[..k] == s.finished[..k] && t.finished[k] == s.finished[k];
      } else {
        assert t.finished[..k] == s.finished;
      }
    }
  }

  lemma {:induction false} RunTells(c: Context, puts: seq<Values>, s: State, n: nat, t: State)
    requires Initial(s, puts) && Run(c, puts, s, n, t)
    ensures Told(c, puts, s.store, t)
  {
    hide Step, Inv, ToldOne;
    if n > 0 {
      var u, i, fails :| Run(c, puts, s, n - 1, u) && Step(c, puts, u, i, fails, t);
      RunKeeps(c, puts, s, n - 1, u);
      RunTells(c, puts, s, n - 1, u);
      StepTells(c, puts, s.store, u, i, fails, t);
    }
  }

  /**
   Whatever the interleaving, once every request is done the file and the settings
   are what the same requests leave when they run one after another, each exactly
   once, in the order they finished; and each was told what it comes to in that order.
   */
  lemma PutsAreSerial(c: Context, puts: seq<Values>, s: State, n: nat, t: State)
    requires Initial(s, puts) && Run(c, puts, s, n, t)
    requires forall i :: 0 <= i < |t.phases| ==> t.phases[i].Done?
    ensures t.store == InOrder(c, puts, s.store, t.finished)
    ensures Once(t.finished) && forall i: nat :: i < |puts| ==> Came(t.finished, i)
    ensures Told(c, puts, s.store, t)
  {
    hide Came, Once, InOrder, Holds, Run, Serially, Told;
    RunKeeps(c, puts, s, n, t);
    RunTells(c, puts, s, n, t);
  }

  // ----- what a serial run leaves ------------------------------------------------------------

  /** A key whose value the renderer writes as it is given. */
  predicate IsWritten(c: Context, updates: Values, key: string) {
    key in updates && Keeps(c.fields, updates, key)
  }

  lemma AcceptedIsWritten(c: Context, s: Store, updates: Values, key: string)
    requires IsModel(c.fields) && Build(c, Merged(s.file, updates)).Some?
    ensures var file := Parse(Serially(c, s, updates, false).file);
            && (IsWritten(c, updates, key) ==> key in file && file[key] == updates[key])
            && (key !in updates && IsWritten(c, Parse(s.file), key) ==> key in file && file[key] == Parse(s.file)[key])
  {
    hide Build, Rendered, Parse;
    var merged := Merged(s.file, updates);
    WrittenFileReadsBack(c.fields, merged);
    KeepsFacts(c.fields, merged, key);
    if key == "config_dir" {
      NotTheDirectory(c.fields);
    } else if key in updates {
      SameKeep(c.fields, updates, merged, key);
    } else if key in Parse(s.file) {
      SameKeep(c.fields, Parse(s.file), merged, key);
    }
  }

  lemma {:induction false} NotTheDirectory(fields: seq<Field>)
    requires IsModel(fields)
    ensures KindOf(fields, "config_dir") in {None, Some(ConfigDir)}
  {
    if fields != [] {
      NotTheDirectory(fields[..|fields| - 1]);
    }
  }

  lemma SameKeep(fields: seq<Field>, a: Values, b: Values, key: string)
    requires key in a && key in b && a[key] == b[key]
    ensures Keeps(fields, a, key) == Keeps(fields, b, key)
  {
  }

  /** Did the `k`th request to finish write its updates? */
  predicate Succeeded(c: Context, puts: seq<Values>, s: Store, finished: seq<Finished>, k: nat)
    requires k < |finished| && finished[k].put < |puts|
  {
    !finished[k].diskFails && Build(c, Merged(InOrder(c, puts, s, finished[..k]).file, puts[finished[k].put])).Some?
  }

  /** No later request that succeeded touches the key. */
  predicate LastOn(c: Context, puts: seq<Values>, s: Store, finished: seq<Finished>, k: nat, key: string)
    requires forall j :: 0 <= j < |finished| ==> finished[j].put < |puts|
  {
    forall j :: k < j < |finished| && Succeeded(c, puts, s, finished, j) ==> key !in puts[finished[j].put]
  }

  /**
   An accepted update stands in the file until a later accepted one sets the same
   key, whatever other requests did; so updates to disjoint keys all persist.
   */
  lemma {:induction false} AcceptedUpdatesPersist(c: Context, puts: seq<Values>, s: Store, finished: seq<Finished>,
                                                  k: nat, key: string)
    requires IsModel(c.fields) && k < |finished| && forall j :: 0 <= j < |finished| ==> finished[j].put < |puts|
    requires Succeeded(c, puts, s, finished, k) && IsWritten(c, puts[finished[k].put], key)
    requires LastOn(c, puts, s, finished, k, key)
    ensures var file := Parse(InOrder(c, puts, s, finished).file);
            key in file && file[key] == puts[finished[k].put][key] && IsWritten(c, file, key)
    decreases |finished|
  {
    hide Build, Merged, Rendered, Parse, Keeps;
    var init, last := finished[..|finished| - 1], finished[|finished| - 1];
    var before := InOrder(c, puts, s, init);
    if k == |finished| - 1 {
      AcceptedIsWritten(c, before, puts[last.put], key);
    } else {
      forall j | 0 <= j < |init| ensures init[..j] == finished[..j] && init[j] == finished[j] {}
      assert Succeeded(c, puts, s, init, k);
      assert LastOn(c, puts, s, init, k, key);
      AcceptedUpdatesPersist(c, puts, s, init, k, key);
      if Succeeded(c, puts, s, finished, |finished| - 1) {
        AcceptedIsWritten(c, before, puts[last.put], key);
      }
    }
    SameKeep(c.fields, puts[finished[k].put], Parse(InOrder(c, puts, s, finished).file), key);
  }

  // ----- the settings are those of the file ------------------------------------------------------

  predicate InStep(c: Context, s: Store) {
    Reload(c, s.file) == Some(s.live)
  }

  lemma PutKeepsStep(c: Context, s: Store, updates: Values, diskFails: bool)
    requires IsModel(c.fields) && SoundDefaults(c)
    requires NoEnvOnlySecret(c, Parse(s.file)) && NoEnvOnlySecret(c, updates) && InStep(c, s)
    ensures var t := Serially(c, s, updates, diskFails); InStep(c, t) && NoEnvOnlySecret(c, Parse(t.file))
  {
    hide SoundDefaults, Accepts, Gathered, Parse, Rendered, IsModel, Survives;
    var merged := Merged(s.file, updates);
    if Build(c, merged).Some? && !diskFails {
      AllSurvive(c, merged);
      ReloadGivesTheSameSettings(c.fields, c.rules, c.env, c.dir, merged);
      WrittenFileReadsBack(c.fields, merged);
    }
  }

  /**
   From a start on, the settings the application works with are those a restart would
   read from the file, after any updates in any order.
   */
  lemma {:induction false} SettingsStayInStep(c: Context, puts: seq<Values>, s: Store, finished: seq<Finished>)
    requires IsModel(c.fields) && SoundDefaults(c)
    requires NoEnvOnlySecret(c, Parse(s.file)) && InStep(c, s) && forall u :: u in puts ==> NoEnvOnlySecret(c, u)
    ensures var t := InOrder(c, puts, s, finished); InStep(c, t) && NoEnvOnlySecret(c, Parse(t.file))
  {
    hide Serially, InStep, SoundDefaults, NoEnvOnlySecret, Parse, IsModel;
    if finished != [] {
      var last := finished[|finished| - 1];
      SettingsStayInStep(c, puts, s, finished[..|finished| - 1]);
      if last.put < |puts| {
        assert puts[last.put] in puts;
        PutKeepsStep(c, InOrder(c, puts, s, finished[..|finished| - 1]), puts[last.put], last.diskFails);
      }
    }
  }
}
