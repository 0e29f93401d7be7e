/**
 Whole runs of a deployment: boots under any passphrases, saves through the API,
 deleted rows, rows restored from a backup, and a lost key row
 (backend/src/foragerr/keystore.py, backend/src/foragerr/api/indexers.py).
 */
module KeystoreRuns {
  import opened Strings
  import opened Keystore

  // ----- the writers -------------------------------------------------------------

  /** `_reject_reserved_secret_prefix`: no supplied secret may look framed. */
  predicate Rejected(secrets: set<string>, supplied: map<string, Value>) {
    exists name :: name in secrets && name in supplied && IsCiphertext(supplied[name])
  }

  /** `serialize_settings`: every secret field goes through encryption. */
  function Serialized(secrets: set<string>, settings: map<string, Value>, store: Store): map<string, Value> {
    map name | name in settings ::
      if name in secrets then EncryptSecret(Some(store), settings[name]).value else settings[name]
  }

  /** A saved row: the supplied settings over the stored ones, serialized. */
  function SavedRow(secrets: set<string>, stored: map<string, Value>, supplied: map<string, Value>, store: Store): Row {
    Row(secrets, true, Some(Serialized(secrets, stored + supplied, store)))
  }

  // ----- runs ------------------------------------------------------------------------

  datatype Table = Indexers | Clients

  datatype Event =
    | BootWith(passphrase: string, salt: string)
    | Create(table: Table, id: nat, secrets: set<string>, supplied: map<string, Value>)
    | Update(table: Table, id: nat, supplied: map<string, Value>)
    | Delete(table: Table, id: nat)
    | RestoreRow(table: Table, id: nat, row: Row)
    | LoseMeta

  function Rows(s: State, t: Table): map<nat, Row> {
    if t == Indexers then s.indexers else s.clients
  }

  function WithRows(s: State, t: Table, rows: map<nat, Row>): State {
    if t == Indexers then s.(indexers := rows) else s.(clients := rows)
  }

  /** Does the event write a row through the API? Errors leave everything as it was. */
  predicate Saves(s: State, e: Event) {
    match e
    case Create(t, id, secrets, supplied) =>
      s.keystore.Some? && id !in Rows(s, t) && !Rejected(secrets, supplied)
    case Update(t, id, supplied) =>
      && s.keystore.Some? && id in Rows(s, t) && Rows(s, t)[id].settings.Some?
      && !Rejected(Rows(s, t)[id].secrets, supplied)
    case _ => false
  }

  function Step(s: State, e: Event): State {
    match e
    case BootWith(passphrase, salt) => Boot(s, passphrase, salt)
    case Create(t, id, secrets, supplied) =>
      if !Saves(s, e) then s
      else WithRows(s, t, Rows(s, t)[id := SavedRow(secrets, map[], supplied, s.keystore.value)])
    case Update(t, id, supplied) =>
      if !Saves(s, e) then s
      else
        var row := Rows(s, t)[id];
        WithRows(s, t, Rows(s, t)[id := SavedRow(row.secrets, row.settings.value, supplied, s.keystore.value)])
    case Delete(t, id) => WithRows(s, t, Rows(s, t) - {id})
    case RestoreRow(t, id, row) => WithRows(s, t, Rows(s, t)[id := row])
    case LoseMeta => s.(meta := None)
  }

  const FRESH := State(None, map[], map[], None)

  function Run(events: seq<Event>): State {
    if events == [] then FRESH else Step(Run(events[..|events| - 1]), events[|events| - 1])
  }

  /** Is the running process the one whose key the current key row holds? */
  predicate Keyed(s: State) {
    s.meta.Some? && s.keystore.Some? && s.keystore.value.available
  }

  datatype Cell = Cell(table: Table, id: nat, name: string)

  function At(s: State, c: Cell): Option<Value> {
    var rows := Rows(s, c.table);
    if c.id in rows && rows[c.id].settings.Some? && c.name in rows[c.id].settings.value
    then Some(rows[c.id].settings.value[c.name]) else None
  }

  /** A secret that is typed with the prefix, or is framed, is refused, and nothing is written. */
  lemma ReservedPrefixIsRefused(s: State, t: Table, id: nat, secrets: set<string>, supplied: map<string, Value>,
                                name: string)
    requires name in supplied && (supplied[name].Framed? ||
             (supplied[name].Text? && |supplied[name].text| >= 7 && supplied[name].text[..7] == "enc:v1:"))
    ensures name in secrets ==> Step(s, Create(t, id, secrets, supplied)) == s
    ensures id in Rows(s, t) && name in Rows(s, t)[id].secrets ==> Step(s, Update(t, id, supplied)) == s
  {
    FramedOrInTheClear(supplied[name]);
    assert IsCiphertext(supplied[name]);
  }

  /** A save leaves supplied over stored values, secrets in the clear framed under the process's key, and other rows. */
  lemma SavedAsTyped(s: State, e: Event, name: string)
    requires Saves(s, e) && (e.Create? || e.Update?)
    ensures var secrets := if e.Create? then e.secrets else Rows(s, e.table)[e.id].secrets;
            var stored := if e.Create? then map[] else Rows(s, e.table)[e.id].settings.value;
            var c := Cell(e.table, e.id, name);
            At(Step(s, e), c) ==
            if name in e.supplied || name in stored then
              var v := if name in e.supplied then e.supplied[name] else stored[name];
              Some(if name in secrets && InTheClear(v) then Framed(Token(s.keystore.value.key, v.text)) else v)
            else None
    ensures forall c: Cell :: (c.table, c.id) != (e.table, e.id) ==> At(Step(s, e), c) == At(s, c)
  {
    var stored := if e.Create? then map[] else Rows(s, e.table)[e.id].settings.value;
    if name in e.supplied {
      FramedOrInTheClear(e.supplied[name]);
    } else if name in stored {
      FramedOrInTheClear(stored[name]);
    }
  }

  predicate Touches(e: Event, c: Cell) {
    match e
    case Create(t, id, _, _) => t == c.table && id == c.id
    case Update(t, id, supplied) => t == c.table && id == c.id && c.name in supplied
    case Delete(t, id) => t == c.table && id == c.id
    case RestoreRow(t, id, _) => t == c.table && id == c.id
    case _ => false
  }

  /** The secret the operator last typed into a cell, if the event is that typing. */
  function Typed(s: State, e: Event, c: Cell): Option<string> {
    if !Saves(s, e) || !Touches(e, c) then None
    else
      var secrets := if e.Create? then e.secrets else Rows(s, e.table)[e.id].secrets;
      if c.name in secrets && c.name in e.supplied && e.supplied[c.name].Text?
      then Some(e.supplied[c.name].text) else None
  }

  /**
   What the cell is owed after a run: the secret last typed into it while the
   process was keyed, provided the key row has not been lost since and nothing
   else has written the cell.
   */
  function Owed(events: seq<Event>, c: Cell): Option<string> {
    if events == [] then None
    else
      var before, e := events[..|events| - 1], events[|events| - 1];
      var s := Run(before);
      if e.LoseMeta? then None
      else if !Touches(e, c) then Owed(before, c)
      else if (e.Create? || e.Update?) && !Saves(s, e) then Owed(before, c)
      else if Keyed(s) then Typed(s, e, c) else None
  }

  /** The key row always holds the key of the process that is keyed, and its salt. */
  ghost predicate KeyRowFits(s: State) {
    && (s.meta.Some? ==> s.meta.value.sentinel.Token? && s.meta.value.sentinel.key.salt == s.meta.value.salt)
    && (s.meta.Some? && s.keystore.Some? ==> (Keyed(s) <==> s.meta.value.sentinel.key == s.keystore.value.key))
  }

  lemma {:induction false} KeyRowAlwaysFits(events: seq<Event>)
    ensures KeyRowFits(Run(events))
  {
    if events != [] {
      KeyRowAlwaysFits(events[..|events| - 1]);
    }
  }

  /** An owed secret is stored in the clear only when empty, and otherwise under the key row's key. */
  ghost predicate Kept(s: State, c: Cell, plain: string) {
    && s.meta.Some? && s.meta.value.sentinel.Token?
    && At(s, c) == Some(if plain == "" then Text("") else Framed(Token(s.meta.value.sentinel.key, plain)))
  }

  lemma BootKeeps(s: State, passphrase: string, salt: string, c: Cell, plain: string)
    requires Kept(s, c, plain)
    ensures Kept(Boot(s, passphrase, salt), c, plain)
  {
  }

  lemma SaveKeeps(s: State, e: Event, c: Cell, plain: string)
    requires Kept(s, c, plain) && !e.BootWith? && !e.LoseMeta? &&
             (!Touches(e, c) || (!Saves(s, e) && (e.Create? || e.Update?)))
    ensures Kept(Step(s, e), c, plain)
  {
  }

  lemma TypedIsKept(s: State, e: Event, c: Cell)
    requires KeyRowFits(s) && Keyed(s) && Typed(s, e, c).Some?
    ensures Kept(Step(s, e), c, Typed(s, e, c).value)
  {
  }

  lemma {:induction false} OwedIsKept(events: seq<Event>, c: Cell)
    requires Owed(events, c).Some?
    ensures Kept(Run(events), c, Owed(events, c).value)
  {
    var before, e := events[..|events| - 1], events[|events| - 1];
    var s := Run(before);
    KeyRowAlwaysFits(before);
    if Touches(e, c) && !((e.Create? || e.Update?) && !Saves(s, e)) {
      TypedIsKept(s, e, c);
    } else {
      OwedIsKept(before, c);
      if e.BootWith? {
        BootKeeps(s, e.passphrase, e.salt, c, Owed(before, c).value);
      } else {
        SaveKeeps(s, e, c, Owed(before, c).value);
      }
    }
  }

  /**
   After any run, a boot is available iff there is no key row or the passphrase is
   the one that made it; and then every owed secret is read back as it was typed.
   */
  lemma MatchingBootReadsEverySecret(events: seq<Event>, passphrase: string, salt: string)
    ensures var s := Run(events);
            var s' := Boot(s, passphrase, salt);
            && (s'.keystore.value.available <==> s.meta.None? || Matches(s.meta.value, passphrase))
            && (s.meta.Some? ==> s.meta.value.sentinel.Token?)
            && (s.meta.Some? ==>
                 (Matches(s.meta.value, passphrase) <==> s.meta.value.sentinel.key.passphrase == passphrase))
            && (s'.keystore.value.available ==>
                  forall c :: Owed(events, c).Some? ==>
                    At(s', c).Some? && DecryptSecret(s'.keystore, At(s', c).value) == Ok(Text(Owed(events, c).value)))
  {
    var s := Run(events);
    var s' := Boot(s, passphrase, salt);
    KeyRowAlwaysFits(events);
    if s'.keystore.value.available {
      forall c | Owed(events, c).Some?
        ensures At(s', c).Some? && DecryptSecret(s'.keystore, At(s', c).value) == Ok(Text(Owed(events, c).value))
      {
        OwedIsKept(events, c);
        BootKeeps(s, passphrase, salt, c, Owed(events, c).value);
      }
    }
  }

  /** Every framed value of the row was typed as a secret and is owed. */
  ghost predicate HoldsOnlyOwed(events: seq<Event>, t: Table, id: nat) {
    var s := Run(events);
    id in Rows(s, t) && (Rows(s, t)[id].settings.Some? ==>
      forall name :: name in Rows(s, t)[id].settings.value && IsCiphertext(Rows(s, t)[id].settings.value[name]) ==>
        Owed(events, Cell(t, id, name)).Some?)
  }

  /** `secret_state` after an available boot: a row that holds only owed secrets can be read. */
  lemma OwedRowsAreAvailable(events: seq<Event>, t: Table, id: nat, passphrase: string, salt: string)
    requires HoldsOnlyOwed(events, t, id) && Boot(Run(events), passphrase, salt).keystore.value.available
    ensures var s' := Boot(Run(events), passphrase, salt);
            id in Rows(s', t) && !Unavailable(s'.keystore, Rows(s', t)[id])
  {
    var s := Run(events);
    var s' := Boot(s, passphrase, salt);
    MatchingBootReadsEverySecret(events, passphrase, salt);
    var row, row' := Rows(s, t)[id], Rows(s', t)[id];
    var key := s'.keystore.value.key;
    assert row' == MigrateRow(row, key);
    if row.settings.Some? {
      forall name | name in row'.settings.value
        ensures DecryptSecret(s'.keystore, row'.settings.value[name]) != Undecryptable
      {
        var c := Cell(t, id, name);
        assert At(s', c) == Some(row'.settings.value[name]);
        if IsCiphertext(row.settings.value[name]) {
          assert Owed(events, c).Some?;
        } else {
          MigrationKeepsTheView(row, s'.keystore.value, name);
        }
      }
    }
  }

  /** What a matching boot makes of a secret an update left out. */
  lemma OmittedAfterBoot(s: State, t: Table, id: nat, supplied: map<string, Value>, name: string, salt: string)
    requires KeyRowFits(s) && s.meta.Some? && Saves(s, Update(t, id, supplied))
    requires var row := Rows(s, t)[id]; name in row.secrets && name in row.settings.value && name !in supplied
    ensures var stored := Rows(s, t)[id].settings.value[name];
            var after := Boot(Step(s, Update(t, id, supplied)), s.meta.value.sentinel.key.passphrase, salt);
            && after.keystore == Some(Store(s.meta.value.sentinel.key, true, false))
            && At(after, Cell(t, id, name)) == Some(EncryptSecret(s.keystore, stored).value)
  {
  }

  /**
   After any run, a secret that an update leaves out reads the same after the next boot
   under the key row's passphrase iff it was not in the clear or the process was keyed
   when it made the update: under a mismatched passphrase the update encrypts a secret
   in the clear for good.
   */
  lemma OmittedSecretReadsTheSame(events: seq<Event>, t: Table, id: nat, supplied: map<string, Value>, name: string,
                                  salt: string)
    requires var s := Run(events); s.meta.Some? && Saves(s, Update(t, id, supplied))
    requires var row := Rows(Run(events), t)[id]; name in row.secrets && name in row.settings.value && name !in supplied
    ensures Run(events).meta.value.sentinel.Token?
    ensures var s := Run(events);
            var stored := Rows(s, t)[id].settings.value[name];
            var after := Boot(Step(s, Update(t, id, supplied)), s.meta.value.sentinel.key.passphrase, salt);
            && At(after, Cell(t, id, name)).Some?
            && (DecryptSecret(after.keystore, At(after, Cell(t, id, name)).value) ==
                 DecryptSecret(after.keystore, stored)
                <==> IsCiphertext(stored) || stored == Text("") || stored.Other? || Keyed(s))
  {
    hide Run, Boot, Step, At;
    KeyRowAlwaysFits(events);
    OmittedAfterBoot(Run(events), t, id, supplied, name, salt);
  }

  /** A run that shows it: a row restored with its secret in the clear, and an update under another passphrase. */
  function MismatchedUpdate(plain: string): seq<Event> {
    [BootWith("p", "s"), RestoreRow(Indexers, 0, Row({"api_key"}, true, Some(map["api_key" := Text(plain)]))),
     BootWith("q", "s"), Update(Indexers, 0, map[]), BootWith("p", "s")]
  }

  lemma RunStep(events: seq<Event>, e: Event)
    ensures Run(events + [e]) == Step(Run(events), e)
  {
    assert (events + [e])[..|events|] == events;
  }

  /** The state before the update of that run. */
  lemma MismatchedUpdateSoFar(plain: string)
    requires !Starts(plain, ENC_PREFIX)
    ensures var row := Row({"api_key"}, true, Some(map["api_key" := Text(plain)]));
            var meta := Some(Meta("s", Token(Key("p", "s"), SENTINEL)));
            var store := Some(Store(Key("q", "s"), false, false));
            Run(MismatchedUpdate(plain)[..3]) == State(meta, map[0 := row], map[], store)
  {
    var events := MismatchedUpdate(plain);
    assert events[..1] == [] + [events[0]] && events[..2] == events[..1] + [events[1]];
    assert events[..3] == events[..2] + [events[2]];
    RunStep([], events[0]);
    RunStep(events[..1], events[1]);
    RunStep(events[..2], events[2]);
    EmptyRun();
    hide Run;
    var row := Row({"api_key"}, true, Some(map["api_key" := Text(plain)]));
    var meta := Some(Meta("s", Token(Key("p", "s"), SENTINEL)));
    assert Run(events[..1]) == State(meta, map[], map[], Some(Store(Key("p", "s"), true, false)));
    assert Run(events[..2]) == State(meta, map[0 := row], map[], Some(Store(Key("p", "s"), true, false)));
  }

  lemma MismatchedUpdateLosesTheSecret(plain: string)
    requires plain != "" && !Starts(plain, ENC_PREFIX)
    ensures var s := Run(MismatchedUpdate(plain)[..3]); At(s, Cell(Indexers, 0, "api_key")) == Some(Text(plain))
    ensures var s := Run(MismatchedUpdate(plain));
            && s.keystore.Some? && s.keystore.value.available && At(s, Cell(Indexers, 0, "api_key")).Some?
            && DecryptSecret(s.keystore, At(s, Cell(Indexers, 0, "api_key")).value) == Undecryptable
  {
    var events := MismatchedUpdate(plain);
    assert events[..4] == events[..3] + [events[3]] && events == events[..4] + [events[4]];
    RunStep(events[..3], events[3]);
    RunStep(events[..4], events[4]);
    MismatchedUpdateSoFar(plain);
    hide Run, Boot;
    OmittedAfterBoot(Run(events[..3]), Indexers, 0, map[], "api_key", "s");
  }

  lemma EmptyRun()
    ensures Run([]) == FRESH
  {
  }

  /** A boot under another passphrase changes no row and not the key row. */
  lemma MismatchedBootChangesNothing(events: seq<Event>, passphrase: string, salt: string)
    requires Run(events).meta.Some? && Run(events).meta.value.sentinel.Token?
    requires Run(events).meta.value.sentinel.key.passphrase != passphrase
    ensures var s, s' := Run(events), Boot(Run(events), passphrase, salt);
            s'.meta == s.meta && s'.indexers == s.indexers && s'.clients == s.clients && !s'.keystore.value.available
  {
    KeyRowAlwaysFits(events);
  }

  /** No framed secret survives a lost key row, and the fresh keystore says so. */
  lemma LostKeyRowStrandsCiphertext(events: seq<Event>, passphrase: string, salt: string, c: Cell)
    requires Run(events).meta.None? && At(Run(events), c).Some? && IsCiphertext(At(Run(events), c).value)
    requires forall k: Key, plain :: At(Run(events), c).value == Framed(Token(k, plain)) ==> k.salt != salt
    ensures var s' := Boot(Run(events), passphrase, salt);
            && s'.keystore.value.available && s'.keystore.value.reinitializedOverCiphertext
            && DecryptSecret(s'.keystore, At(s', c).value) == Undecryptable
  {
    var s := Run(events);
    var v := At(s, c).value;
    assert HoldsCiphertext(Rows(s, c.table)) by {
      assert RowHoldsCiphertext(Rows(s, c.table)[c.id]);
    }
    if v.Framed? && v.token.Token? {
      assert v == Framed(Token(v.token.key, v.token.plain));
    }
  }

  /** After an available boot no valid row holds a secret in the clear. */
  lemma AvailableBootLeavesNoPlainSecret(s: State, passphrase: string, salt: string, t: Table, id: nat)
    requires Boot(s, passphrase, salt).keystore.value.available && id in Rows(Boot(s, passphrase, salt), t)
    ensures !ShowsASecret(Rows(Boot(s, passphrase, salt), t)[id])
  {
    var key := Boot(s, passphrase, salt).keystore.value.key;
    MigrationIsComplete(Rows(s, t)[id], key, key);
  }
}
