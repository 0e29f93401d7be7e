/**
 The at-rest secret keystore (backend/src/foragerr/keystore.py) and the two
 writers that feed it (backend/src/foragerr/api/indexers.py). Key derivation and
 authenticated encryption are ideal: a key is its passphrase and salt, and a
 token opens under exactly the key that made it.
 */
module Keystore {
  import opened Strings

  // ----- values ----------------------------------------------------------------

  datatype Key = Key(passphrase: string, salt: string)

  datatype Token = Token(key: Key, plain: string) | Damaged

  /** A JSON settings value; `Framed(t)` is the string made of the prefix and the token `t`. */
  datatype Value = Text(text: string) | Framed(token: Token) | Other(json: int)

  const ENC_PREFIX := "enc:v1:"
  const SENTINEL := "foragerr-keystore-sentinel-v1"

  /** A string that carries the prefix is taken for ciphertext, whoever wrote it. */
  predicate IsCiphertext(v: Value) {
    v.Framed? || (v.Text? && Starts(v.text, ENC_PREFIX))
  }

  datatype Store = Store(key: Key, available: bool, reinitializedOverCiphertext: bool)

  datatype Outcome<T> = Ok(value: T) | NotReady | Undecryptable

  function EncryptSecret(ks: Option<Store>, v: Value): Outcome<Value> {
    if v == Text("") then Ok(v)
    else if ks.None? then NotReady
    else if IsCiphertext(v) || v.Other? then Ok(v)
    else Ok(Framed(Token(ks.value.key, v.text)))
  }

  function DecryptSecret(ks: Option<Store>, v: Value): Outcome<Value> {
    if !IsCiphertext(v) then Ok(v)
    else if ks.None? then NotReady
    else if v.Framed? && v.token.Token? && v.token.key == ks.value.key then Ok(Text(v.token.plain))
    else Undecryptable
  }

  /** Decryption undoes encryption for exactly the values without the reserved prefix. */
  lemma RoundTrip(store: Store, v: Value)
    ensures var ks := Some(store);
            EncryptSecret(ks, v).Ok?
            && (DecryptSecret(ks, EncryptSecret(ks, v).value) == Ok(v) <==> !IsCiphertext(v))
  {
  }

  // ----- rows --------------------------------------------------------------------

  /** Settings of one row: None when the stored JSON is not an object. */
  datatype Row = Row(secrets: set<string>, valid: bool, settings: Option<map<string, Value>>)

  predicate NeedsEncryption(row: Row, name: string) {
    && row.settings.Some? && row.valid && name in row.secrets && name in row.settings.value
    && var v := row.settings.value[name];
       v.Text? && v.text != "" && !IsCiphertext(v)
  }

  /** What `_migrate_table` makes of one row under key `key`. */
  function MigrateRow(row: Row, key: Key): Row {
    if row.settings.None? then row
    else
      var payload := row.settings.value;
      row.(settings := Some(map name | name in payload ::
        if NeedsEncryption(row, name) then Framed(Token(key, payload[name].text)) else payload[name]))
  }

  function MigrateRows(rows: map<nat, Row>, key: Key): map<nat, Row> {
    map id | id in rows :: MigrateRow(rows[id], key)
  }

  /** Every value reads the same before and after, under whatever keystore holds the key. */
  lemma MigrationKeepsTheView(row: Row, store: Store, name: string)
    requires row.settings.Some? && name in row.settings.value
    ensures var row' := MigrateRow(row, store.key);
            && row'.settings.Some? && row'.settings.value.Keys == row.settings.value.Keys
            && DecryptSecret(Some(store), row'.settings.value[name]) ==
                 DecryptSecret(Some(store), row.settings.value[name])
  {
  }

  /** Text that is neither empty nor begins with the seven characters of the prefix. */
  predicate InTheClear(v: Value) {
    v.Text? && v.text != "" && !(|v.text| >= 7 && v.text[..7] == "enc:v1:")
  }

  lemma FramedOrInTheClear(v: Value)
    ensures v.Text? && v.text != "" ==> (IsCiphertext(v) <==> !InTheClear(v))
    ensures v.Framed? ==> IsCiphertext(v)
    ensures v.Other? || v == Text("") ==> !IsCiphertext(v)
  {
  }

  /** Migrating frames the secrets of a valid row that were in the clear, and leaves the rest as it was. */
  lemma MigratedValues(row: Row, key: Key, name: string)
    ensures var row' := MigrateRow(row, key);
            && row'.secrets == row.secrets && row'.valid == row.valid
            && (row'.settings.Some? <==> row.settings.Some?)
            && (row.settings.Some? ==> row'.settings.value.Keys == row.settings.value.Keys)
            && (row.settings.Some? && name in row.settings.value ==>
                 var v := row.settings.value[name];
                 row'.settings.value[name] ==
                   if row.valid && name in row.secrets && InTheClear(v) then Framed(Token(key, v.text)) else v)
  {
    if row.settings.Some? && name in row.settings.value {
      FramedOrInTheClear(row.settings.value[name]);
    }
  }

  /** Some secret of a valid row is in the clear. */
  ghost predicate ShowsASecret(row: Row) {
    row.valid && row.settings.Some? &&
    exists name :: name in row.secrets && name in row.settings.value && InTheClear(row.settings.value[name])
  }

  lemma PlainSecretsShow(row: Row)
    ensures HoldsPlainSecret(row) <==> ShowsASecret(row)
  {
    if row.settings.Some? {
      forall name | name in row.secrets && name in row.settings.value
        ensures NeedsEncryption(row, name) <==> row.valid && InTheClear(row.settings.value[name])
      {
        FramedOrInTheClear(row.settings.value[name]);
      }
      hide NeedsEncryption, InTheClear;
      if HoldsPlainSecret(row) {
        var name :| name in row.secrets && NeedsEncryption(row, name);
        assert name in row.settings.value by { NeededIsThere(row, name); }
      }
      if ShowsASecret(row) {
        var name :| name in row.secrets && name in row.settings.value && InTheClear(row.settings.value[name]);
        assert NeedsEncryption(row, name);
      }
    }
  }

  lemma NeededIsThere(row: Row, name: string)
    requires NeedsEncryption(row, name)
    ensures row.settings.Some? && name in row.settings.value
  {
  }

  /** Afterwards every secret text of a valid row is empty or carries the prefix, and a second pass changes nothing. */
  lemma MigrationIsComplete(row: Row, key: Key, again: Key)
    ensures !ShowsASecret(MigrateRow(row, key))
    ensures MigrateRow(MigrateRow(row, key), again) == MigrateRow(row, key)
  {
    var row' := MigrateRow(row, key);
    if row'.settings.Some? {
      assert MigrateRow(row', again).settings.value == row'.settings.value;
      forall name | name in row'.settings.value && name in row'.secrets && row'.valid
        ensures !InTheClear(row'.settings.value[name])
      {
        MigratedValues(row, key, name);
      }
    }
  }

  /** A row is written only if some secret in it was in the clear. */
  predicate HoldsPlainSecret(row: Row) {
    exists name :: name in row.secrets && NeedsEncryption(row, name)
  }

  lemma UntouchedRow(row: Row, key: Key)
    ensures MigrateRow(row, key) == row <==> !HoldsPlainSecret(row)
    ensures MigrateRow(row, key) == row <==> !ShowsASecret(row)
  {
    PlainSecretsShow(row);
    if !HoldsPlainSecret(row) && row.settings.Some? {
      assert MigrateRow(row, key).settings.value == row.settings.value;
    }
    if HoldsPlainSecret(row) {
      var name :| name in row.secrets && NeedsEncryption(row, name);
      assert MigrateRow(row, key).settings.value[name] != row.settings.value[name];
    }
  }

  predicate RowHoldsCiphertext(row: Row) {
    row.settings.Some? && exists name :: name in row.settings.value && IsCiphertext(row.settings.value[name])
  }

  predicate HoldsCiphertext(rows: map<nat, Row>) {
    exists id :: id in rows && RowHoldsCiphertext(rows[id])
  }

  /** `secret_state`: some framed value of the row cannot be read with the installed keystore. */
  ghost predicate Unavailable(ks: Option<Store>, row: Row) {
    && ks.Some? && row.settings.Some?
    && exists name :: name in row.settings.value && DecryptSecret(ks, row.settings.value[name]) == Undecryptable
  }

  // ----- boot ----------------------------------------------------------------------

  datatype Meta = Meta(salt: string, sentinel: Token)

  datatype State = State(meta: Option<Meta>, indexers: map<nat, Row>, clients: map<nat, Row>, keystore: Option<Store>)

  /** Does the passphrase open the sentinel of the stored row? */
  predicate Matches(meta: Meta, passphrase: string) {
    meta.sentinel.Token? && meta.sentinel.key == Key(passphrase, meta.salt)
  }

  /** `keystore_startup_hook`; `salt` is the random salt a fresh keystore would draw. */
  function Boot(s: State, passphrase: string, salt: string): State {
    match s.meta
    case None =>
      var key := Key(passphrase, salt);
      var orphaned := HoldsCiphertext(s.indexers) || HoldsCiphertext(s.clients);
      State(Some(Meta(salt, Token(key, SENTINEL))),
            MigrateRows(s.indexers, key), MigrateRows(s.clients, key), Some(Store(key, true, orphaned)))
    case Some(meta) =>
      var key := Key(passphrase, meta.salt);
      if Matches(meta, passphrase) then
        State(s.meta, MigrateRows(s.indexers, key), MigrateRows(s.clients, key), Some(Store(key, true, false)))
      else
        s.(keystore := Some(Store(key, false, false)))
  }

  /** The boot sequence as the process runs it. */
  class App {
    var meta: Option<Meta>
    var indexers: map<nat, Row>
    var clients: map<nat, Row>
    var keystore: Option<Store>

    ghost function Now(): State
      reads this
    {
      State(meta, indexers, clients, keystore)
    }

    method InitKeystore(passphrase: string, salt: string) returns (store: Store)
      modifies this`meta
      ensures meta == if old(meta).Some? then old(meta) else Some(Meta(salt, Token(Key(passphrase, salt), SENTINEL)))
      ensures store.key == Key(passphrase, meta.value.salt)
      ensures store.available <==> old(meta).None? || Matches(old(meta).value, passphrase)
      ensures store.reinitializedOverCiphertext <==>
              old(meta).None? && (HoldsCiphertext(indexers) || HoldsCiphertext(clients))
    {
      if meta.None? {
        var key := Key(passphrase, salt);
        meta := Some(Meta(salt, Token(key, SENTINEL)));
        var orphaned := CiphertextSecretsExist();
        return Store(key, true, orphaned);
      }
      var key := Key(passphrase, meta.value.salt);
      var sentinel := meta.value.sentinel;
      return Store(key, sentinel.Token? && sentinel.key == key, false);
    }

    method CiphertextSecretsExist() returns (found: bool)
      ensures found <==> HoldsCiphertext(indexers) || HoldsCiphertext(clients)
    {
      found := AnyCiphertext(indexers);
      if !found {
        found := AnyCiphertext(clients);
      }
    }

    static method AnyCiphertext(rows: map<nat, Row>) returns (found: bool)
      ensures found <==> HoldsCiphertext(rows)
    {
      var todo := rows.Keys;
      while todo != {}
        invariant todo <= rows.Keys
        invariant forall id :: id in rows && id !in todo ==> !RowHoldsCiphertext(rows[id])
        decreases |todo|
      {
        var id :| id in todo;
        todo := todo - {id};
        if RowHoldsCiphertext(rows[id]) {
          return true;
        }
      }
      return false;
    }

    /** `_migrate_table`: one write per row that held a secret in the clear. */
    static method MigrateTable(rows: map<nat, Row>, store: Store) returns (rows': map<nat, Row>, migrated: nat)
      ensures rows' == MigrateRows(rows, store.key)
      ensures migrated == |set id | id in rows && HoldsPlainSecret(rows[id])|
    {
      rows', migrated := rows, 0;
      var todo := rows.Keys;
      ghost var changed: set<nat> := {};
      while todo != {}
        invariant todo <= rows.Keys && rows'.Keys == rows.Keys
        invariant forall id :: id in rows ==>
                  rows'[id] == if id in todo then rows[id] else MigrateRow(rows[id], store.key)
        invariant changed == (set id | id in rows && id !in todo && HoldsPlainSecret(rows[id]))
        invariant migrated == |changed|
        decreases |todo|
      {
        var id :| id in todo;
        todo := todo - {id};
        var row, wrote := MigrateOne(rows[id], store);
        UntouchedRow(rows[id], store.key);
        if wrote {
          rows' := rows'[id := row];
          migrated := migrated + 1;
          changed := changed + {id};
        }
      }
      assert changed == set id | id in rows && HoldsPlainSecret(rows[id]);
    }

    /** The secrets of one row, field by field. */
    static method MigrateOne(row: Row, store: Store) returns (row': Row, wrote: bool)
      ensures row' == MigrateRow(row, store.key)
      ensures wrote <==> HoldsPlainSecret(row)
    {
      row', wrote := row, false;
      if row.settings.None? || !row.valid {
        UntouchedRow(row, store.key);
        return;
      }
      var payload := row.settings.value;
      var todo := row.secrets;
      while todo != {}
        invariant todo <= row.secrets && payload.Keys == row.settings.value.Keys
        invariant forall name :: name in payload ==>
          payload[name] == if name !in todo && NeedsEncryption(row, name)
                           then Framed(Token(store.key, row.settings.value[name].text)) else row.settings.value[name]
        invariant wrote <==> exists name :: name in row.secrets && name !in todo && NeedsEncryption(row, name)
        decreases |todo|
      {
        var name :| name in todo;
        todo := todo - {name};
        if name in payload && payload[name].Text? && payload[name].text != "" && !IsCiphertext(payload[name]) {
          var token := EncryptSecret(Some(store), payload[name]).value;
          payload := payload[name := token];
          wrote := true;
        }
      }
      row' := row.(settings := Some(payload));
      assert payload == MigrateRow(row, store.key).settings.value;
    }

    method StartupHook(passphrase: string, salt: string)
      modifies this
      ensures Now() == Boot(old(Now()), passphrase, salt)
    {
      var store := InitKeystore(passphrase, salt);
      keystore := Some(store);
      if !store.available {
        return;
      }
      var n;
      indexers, n := MigrateTable(indexers, store);
      clients, n := MigrateTable(clients, store);
    }
  }
}
