/**
 Migrating the configuration file at a start (backend/src/foragerr/config_migrations.py
 and load_settings of backend/src/foragerr/config.py), as steps on the disk between any
 two of which the process may die.
 */
module ConfigMigration {
  import opened Strings
  import opened ConfigFile

  const CURRENT_CONFIG_VERSION := 1
  const CONFIG_VERSION_KEY := "config_schema_version"
  const RECYCLE_BIN_PATH := "recycle_bin_path"
  const RETENTION_KEY := "config_backup_retention"
  const DEFAULT_CONFIG_BACKUP_RETENTION := 3

  /** The model, where the quarantine is, and what Python's `int` makes of a value that is no number. */
  datatype Release = Release(fields: seq<Field>, quarantine: string, toInt: Value -> Option<int>)

  function Int(rel: Release, v: Value): Option<int> {
    match v
    case Number(n) => Some(n)
    case Flag(on) => Some(if on then 1 else 0)
    case Null => None
    case _ => rel.toInt(v)
  }

  /** `stamped_version`: a missing or unreadable stamp is version 0. */
  function StampedVersion(rel: Release, values: Values): int {
    if CONFIG_VERSION_KEY in values && Int(rel, values[CONFIG_VERSION_KEY]).Some?
    then Int(rel, values[CONFIG_VERSION_KEY]).value else 0
  }

  function Retention(rel: Release, values: Values): int {
    var raw := if RETENTION_KEY in values then values[RETENTION_KEY] else Number(DEFAULT_CONFIG_BACKUP_RETENTION);
    if Int(rel, raw).Some? then Int(rel, raw).value else DEFAULT_CONFIG_BACKUP_RETENTION
  }

  // ----- the migrators -----------------------------------------------------------------

  /** `_migrate_0_to_1`: superseded files were kept in the quarantine, and stay there unless told otherwise. */
  function Migrate0To1(rel: Release, values: Values): Values {
    if RECYCLE_BIN_PATH in values then values else values[RECYCLE_BIN_PATH := Text(rel.quarantine)]
  }

  function Migrator(rel: Release, version: int, values: Values): Option<Values> {
    if version == 0 then Some(Migrate0To1(rel, values)) else None
  }

  /** All migrators from a version on, in turn; `None` when one is missing. */
  function Migrated(rel: Release, values: Values, version: int): Option<Values>
    decreases CURRENT_CONFIG_VERSION - version
  {
    if version >= CURRENT_CONFIG_VERSION then Some(values)
    else
      var next := Migrator(rel, version, values);
      if next.None? then None else Migrated(rel, next.value, version + 1)
  }

  /** `migrate_forward`. */
  method MigrateForward(rel: Release, values: Values, fromVersion: int) returns (result: Option<Values>)
    ensures result == Migrated(rel, values, fromVersion)
  {
    var current, version := values, fromVersion;
    while version < CURRENT_CONFIG_VERSION
      invariant Migrated(rel, current, version) == Migrated(rel, values, fromVersion)
    {
      var next := Migrator(rel, version, current);
      if next.None? {
        return None;
      }
      current, version := next.value, version + 1;
    }
    return Some(current);
  }

  // ----- what a start does to a file -------------------------------------------------------

  datatype Loaded = Values(values: Values) | NewerVersion | NoMigrator

  /** What a start takes from a file, and the file it leaves. */
  function Start(rel: Release, file: Document): (Loaded, Document) {
    var values := Parse(file);
    var version := StampedVersion(rel, values);
    if version == CURRENT_CONFIG_VERSION then (Loaded.Values(values), file)
    else if version > CURRENT_CONFIG_VERSION then (NewerVersion, file)
    else
      match Migrated(rel, values, version)
      case None => (NoMigrator, file)
      case Some(m) =>
        var stamped := m[CONFIG_VERSION_KEY := Number(CURRENT_CONFIG_VERSION)];
        (Loaded.Values(stamped), Rendered(rel.fields, stamped))
  }

  // ----- the disk ----------------------------------------------------------------------------

  /** A copy in a backup directory: not there, part of it, or all of it. */
  datatype Copy = Missing | Torn | Whole(file: Document)

  datatype Backup = Backup(version: int, copy: Copy)

  /** The configuration file, temporary files beside it, and the backups with the newest last. */
  datatype Disk = Disk(config: Document, temps: seq<Document>, backups: seq<Backup>)

  /** Nothing is lost: the file is the original, or what a start makes of it beside a whole copy of the original. */
  predicate Safe(rel: Release, original: Document, d: Disk) {
    d.config == original ||
    (d.config == Start(rel, original).1 && d.backups != [] && d.backups[|d.backups| - 1].copy == Whole(original))
  }

  /** `retention` newest backups, but always at least one. */
  function Newest(backups: seq<Backup>, retention: int): seq<Backup> {
    var n := if retention < 1 then 1 else retention;
    if |backups| > n then backups[|backups| - n..] else backups
  }

  /** The backups kept are the last ones: as many as asked for, at least one, or all there are. */
  lemma NewestAreTheLast(backups: seq<Backup>, retention: int)
    ensures var kept := Newest(backups, retention);
            && (|backups| <= retention ==> kept == backups)
            && (1 <= retention <= |backups| ==> |kept| == retention)
            && (retention < 1 && backups != [] ==> |kept| == 1)
            && |kept| <= |backups| && kept == backups[|backups| - |kept|..]
  {
  }

  /** The operator's number decides how many are kept; three are, when there is none. */
  lemma RetentionAsWritten(rel: Release, values: Values)
    ensures "config_backup_retention" !in values ==> Retention(rel, values) == 3
    ensures "config_backup_retention" in values ==>
              match values["config_backup_retention"]
              case Number(n) => Retention(rel, values) == n
              case Flag(on) => Retention(rel, values) == (if on then 1 else 0)
              case Null => Retention(rel, values) == 3
              case v => Retention(rel, values) == if rel.toInt(v).Some? then rel.toInt(v).value else 3
  {
  }

  /** What a start does, by the stamp it finds. */
  lemma StartByStamp(rel: Release, file: Document)
    ensures var values := Parse(file);
            && ("config_schema_version" in values && values["config_schema_version"].Number? ==>
                 var n := values["config_schema_version"].n;
                 && (n > 1 ==> Start(rel, file) == (NewerVersion, file))
                 && (n == 1 ==> Start(rel, file) == (Loaded.Values(values), file))
                 && (n < 0 ==> Start(rel, file) == (NoMigrator, file)))
            && ("config_schema_version" !in values || values["config_schema_version"] in {Null, Number(0)} ==>
                 var pinned := if "recycle_bin_path" in values then values
                               else values["recycle_bin_path" := Text(rel.quarantine)];
                 var migrated := pinned["config_schema_version" := Number(1)];
                 Start(rel, file) == (Loaded.Values(migrated), Rendered(rel.fields, migrated)))
  {
    hide Parse, Rendered;
    var values := Parse(file);
    var n := StampedVersion(rel, values);
    if n <= 0 {
      MigratedFrom(rel, values, n);
    }
  }

  ghost predicate AllSafe(rel: Release, original: Document, history: seq<Disk>) {
    forall d :: d in history ==> Safe(rel, original, d)
  }

  lemma OneMoreSafe(rel: Release, original: Document, history: seq<Disk>, d: Disk)
    requires AllSafe(rel, original, history) && Safe(rel, original, d)
    ensures AllSafe(rel, original, history + [d])
  {
  }

  class ConfigDir {
    var disk: Disk
    ghost var history: seq<Disk>

    /** Every change of the disk is one step, and `history` is what a crash could leave. */
    method Becomes(d: Disk, ghost rel: Release, ghost original: Document)
      requires AllSafe(rel, original, history) && Safe(rel, original, d)
      modifies this
      ensures disk == d && history == old(history) + [d] && AllSafe(rel, original, history)
    {
      hide Safe;
      OneMoreSafe(rel, original, history, d);
      disk := d;
      history := history + [d];
    }

    /**
     `prune_config_backups`: each stale directory loses its file, which makes it the
     one touched last, and then goes itself.
     */
    method PruneConfigBackups(retention: int, ghost rel: Release)
      requires AllSafe(rel, disk.config, history)
      modifies this
      ensures disk == old(disk).(backups := Newest(old(disk).backups, retention))
      ensures AllSafe(rel, disk.config, history) && old(history) <= history
    {
      hide AllSafe;
      var n := if retention < 1 then 1 else retention;
      while |disk.backups| > n
        invariant disk == old(disk).(backups := disk.backups)
        invariant Newest(disk.backups, n) == Newest(old(disk).backups, n)
        invariant AllSafe(rel, disk.config, history) && old(history) <= history
      {
        var stale, rest := disk.backups[0], disk.backups[1..];
        Becomes(disk.(backups := rest + [stale.(copy := Missing)]), rel, disk.config);
        Becomes(disk.(backups := rest), rel, disk.config);
      }
    }

    /** `backup_before_config_migration`: a new directory, a copy that comes to be whole, and the pruning. */
    method BackupBeforeConfigMigration(version: int, retention: int, ghost rel: Release)
      requires AllSafe(rel, disk.config, history)
      modifies this
      ensures var copy := Backup(version, Whole(old(disk).config));
              disk == old(disk).(backups := Newest(old(disk).backups + [copy], retention))
      ensures AllSafe(rel, disk.config, history) && old(history) <= history
    {
      hide AllSafe, Newest;
      var others, config := disk.backups, disk.config;
      Becomes(disk.(backups := others + [Backup(version, Missing)]), rel, config);
      Becomes(disk.(backups := others + [Backup(version, Torn)]), rel, config);
      Becomes(disk.(backups := others + [Backup(version, Whole(config))]), rel, config);
      PruneConfigBackups(retention, rel);
    }

    /** `atomic_write_text`: the text grows in a temporary file, which then takes the place of the old one. */
    method AtomicWriteText(text: Document, ghost rel: Release)
      requires AllSafe(rel, disk.config, history) && Safe(rel, disk.config, disk.(config := text))
      modifies this
      ensures disk == old(disk).(config := text)
      ensures AllSafe(rel, old(disk).config, history) && old(history) <= history
    {
      hide AllSafe, Start;
      var temps := disk.temps;
      ghost var original := disk.config;
      Becomes(disk.(temps := temps + [[]]), rel, original);
      for k := 0 to |text|
        invariant disk == old(disk).(temps := temps + [text[..k]])
        invariant AllSafe(rel, original, history) && old(history) <= history
      {
        Becomes(disk.(temps := temps + [text[..k + 1]]), rel, original);
      }
      Becomes(disk.(config := text, temps := temps), rel, original);
    }

    /**
     `migrate_config` on the file just read. At every step the disk is safe; at the end
     it is what a start leaves, with a whole copy of the original as the newest backup
     and no more backups than asked for.
     */
    method MigrateConfig(rel: Release, values: Values, retention: int) returns (r: Loaded)
      requires values == Parse(disk.config) && AllSafe(rel, disk.config, history)
      modifies this
      ensures (r, disk.config) == Start(rel, old(disk).config) && disk.temps == old(disk).temps
      ensures StampedVersion(rel, values) >= CURRENT_CONFIG_VERSION ==> disk == old(disk) && history == old(history)
      ensures StampedVersion(rel, values) < CURRENT_CONFIG_VERSION ==>
                var copy := Backup(StampedVersion(rel, values), Whole(old(disk).config));
                disk.backups == Newest(old(disk).backups + [copy], retention)
      ensures AllSafe(rel, old(disk).config, history) && old(history) <= history
    {
      hide AllSafe, StampedVersion, Migrated, Rendered, Parse;
      var version := StampedVersion(rel, values);
      if version == CURRENT_CONFIG_VERSION {
        return Loaded.Values(values);
      }
      if version > CURRENT_CONFIG_VERSION {
        return NewerVersion;
      }
      BackupBeforeConfigMigration(version, retention, rel);
      var migrated := MigrateForward(rel, values, version);
      if migrated.None? {
        return NoMigrator;
      }
      var stamped := migrated.value[CONFIG_VERSION_KEY := Number(CURRENT_CONFIG_VERSION)];
      var text := RenderDocumentedConfig(rel.fields, stamped);
      AtomicWriteText(text, rel);
      r := Loaded.Values(stamped);
    }

    /** The part of `load_settings` that reads an existing file; a start begins with a fresh history. */
    method LoadConfig(rel: Release) returns (r: Loaded)
      modifies this
      ensures (r, disk.config) == Start(rel, old(disk).config)
      ensures StampedVersion(rel, Parse(old(disk).config)) < CURRENT_CONFIG_VERSION ==>
                var copy := Backup(StampedVersion(rel, Parse(old(disk).config)), Whole(old(disk).config));
                disk.backups == Newest(old(disk).backups + [copy], Retention(rel, Parse(old(disk).config)))
      ensures forall d :: d in history ==> CanLeave(rel, old(disk), d)
      ensures CanLeave(rel, old(disk), disk)
    {
      hide Start, StampedVersion, Parse;
      history := [];
      var loaded := Parse(disk.config);
      r := MigrateConfig(rel, loaded, Retention(rel, loaded));
      EndsSafe(rel, old(disk), disk, Retention(rel, loaded));
    }
  }

  /** What a start that dies at some step, or does not, can leave of a disk. */
  predicate CanLeave(rel: Release, before: Disk, d: Disk) {
    && Safe(rel, before.config, d)
    && (StampedVersion(rel, Parse(before.config)) >= CURRENT_CONFIG_VERSION ==> d == before)
  }

  lemma EndsSafe(rel: Release, before: Disk, after: Disk, retention: int)
    requires after.config == Start(rel, before.config).1
    requires var v := StampedVersion(rel, Parse(before.config));
             if v >= CURRENT_CONFIG_VERSION then after == before
             else after.backups == Newest(before.backups + [Backup(v, Whole(before.config))], retention)
    ensures CanLeave(rel, before, after)
  {
    hide Start, Parse, StampedVersion;
  }

  // ----- restarts ---------------------------------------------------------------------------

  /** The model knows the stamp and the recycle bin as plain fields. */
  predicate KnowsItsKeys(fields: seq<Field>) {
    && IsModel(fields)
    && KindOf(fields, CONFIG_VERSION_KEY).Some? && KindOf(fields, CONFIG_VERSION_KEY).value.Plain?
    && KindOf(fields, RECYCLE_BIN_PATH).Some? && KindOf(fields, RECYCLE_BIN_PATH).value.Plain?
  }

  lemma MigratedFrom(rel: Release, values: Values, version: int)
    requires version < CURRENT_CONFIG_VERSION
    ensures Migrated(rel, values, version) == if version == 0 then Some(Migrate0To1(rel, values)) else None
  {
  }

  /** A file a start has left is taken as it is by the next start. */
  lemma StartSettles(rel: Release, file: Document)
    requires KnowsItsKeys(rel.fields)
    ensures var (r, left) := Start(rel, file);
            && Start(rel, left).1 == left
            && (r.Values? ==> StampedVersion(rel, Parse(left)) == CURRENT_CONFIG_VERSION)
            && (r.Values? ==> Start(rel, left).0 == Loaded.Values(Parse(left)))
            && (!r.Values? ==> left == file)
  {
    hide Parse, Rendered, IsModel, Migrated;
    var values := Parse(file);
    var version := StampedVersion(rel, values);
    if version < CURRENT_CONFIG_VERSION && Migrated(rel, values, version).Some? {
      WrittenFileReadsBack(rel.fields,
          Migrated(rel, values, version).value[CONFIG_VERSION_KEY := Number(CURRENT_CONFIG_VERSION)]);
    }
  }

  /** Any number of starts, each of which may die at any step. */
  ghost predicate AfterCrashes(rel: Release, origin: Disk, n: nat, d: Disk) {
    if n == 0 then d == origin else exists e :: AfterCrashes(rel, origin, n - 1, e) && CanLeave(rel, e, d)
  }

  /**
   After any number of interrupted starts the file is the original or the complete
   migrated one, never a mixture; the migrated one has a whole copy of the original
   beside it; and the start that completes leaves the same file as if none had died.
   */
  lemma {:induction false} CrashesLoseNothing(rel: Release, origin: Disk, n: nat, d: Disk)
    requires KnowsItsKeys(rel.fields) && AfterCrashes(rel, origin, n, d)
    ensures Safe(rel, origin.config, d)
    ensures Start(rel, d.config).1 == Start(rel, origin.config).1
  {
    hide Start, StampedVersion, Parse, KnowsItsKeys;
    if n > 0 {
      var e :| AfterCrashes(rel, origin, n - 1, e) && CanLeave(rel, e, d);
      CrashesLoseNothing(rel, origin, n - 1, e);
      StartSettles(rel, origin.config);
      StartSettles(rel, e.config);
      if e.config != origin.config {
        MigratedIsCurrent(rel, origin.config);
      }
    }
  }

  lemma MigratedIsCurrent(rel: Release, file: Document)
    requires KnowsItsKeys(rel.fields) && Start(rel, file).1 != file
    ensures StampedVersion(rel, Parse(Start(rel, file).1)) >= CURRENT_CONFIG_VERSION
  {
    hide Parse, Rendered, KnowsItsKeys, Migrated;
    StartSettles(rel, file);
  }

  /** A file secret that is there but empty, with no environment variable over it. */
  predicate IsEmptySecret(c: Context, values: Values, key: string) {
    key in values && key !in c.env && KindOf(c.fields, key) == Some(FileSecret) && !Truthy(values[key])
  }

  function WithoutEmptySecrets(c: Context, values: Values): Values {
    map key | key in values && !IsEmptySecret(c, values, key) :: values[key]
  }

  /** What one key comes to when the values are written and read again. */
  lemma ReloadedValue(c: Context, values: Values, key: string)
    requires IsModel(c.fields) && SoundDefaults(c) && key in Names(c.fields) && NoEnvOnlySecret(c, values)
    ensures var given := WithoutEmptySecrets(c, values)["config_dir" := c.dir];
            var reread := FileValues(c.fields, Written(c.fields, values))["config_dir" := c.dir];
            FieldValue(c.fields, c.rules, c.env, reread, key) == FieldValue(c.fields, c.rules, c.env, given, key)
  {
    DirIsConfigDir(c.fields, key);
    KeepsFacts(c.fields, values, key);
  }

  /**
   A start that finds the migrated file builds what the migrating start would have
   built had it left its empty secrets out, whether or not it accepted its values.
   */
  lemma RestartDropsEmptySecrets(c: Context, rel: Release, file: Document)
    requires KnowsItsKeys(rel.fields) && c.fields == rel.fields && SoundDefaults(c)
    requires Start(rel, file).0.Values? && Start(rel, file).1 != file
    ensures Start(rel, Start(rel, file).1).0.Values?
    ensures Build(c, FileValues(c.fields, Start(rel, Start(rel, file).1).0.values)) ==
            Build(c, WithoutEmptySecrets(c, FileValues(c.fields, Start(rel, file).0.values)))
  {
    hide Parse, Rendered, IsModel, Migrated, SoundDefaults, FieldValue, FileValues, StampedVersion, WithoutEmptySecrets;
    StartSettles(rel, file);
    var first := Start(rel, file).0.values;
    var values := FileValues(c.fields, first);
    WrittenFileReadsBack(c.fields, first);
    SameFileValues(c.fields, first);
    NoneInFileValues(c, first);
    var given := WithoutEmptySecrets(c, values)["config_dir" := c.dir];
    var reread := FileValues(c.fields, Written(c.fields, values))["config_dir" := c.dir];
    forall key | key in Names(c.fields)
      ensures FieldValue(c.fields, c.rules, c.env, reread, key) == FieldValue(c.fields, c.rules, c.env, given, key)
    {
      ReloadedValue(c, values, key);
    }
    SameSettings(c, given, reread);
  }

  lemma SameSettings(c: Context, given: Values, reread: Values)
    requires forall key :: key in Names(c.fields) ==>
               FieldValue(c.fields, c.rules, c.env, reread, key) == FieldValue(c.fields, c.rules, c.env, given, key)
    ensures Accepts(c.fields, c.rules, c.env, reread) == Accepts(c.fields, c.rules, c.env, given)
    ensures Accepts(c.fields, c.rules, c.env, given) ==>
              Gathered(c.fields, c.rules, c.env, reread) == Gathered(c.fields, c.rules, c.env, given)
  {
    hide FieldValue, Names;
  }

  /** Some value is refused that is not an empty secret, so leaving those out does not help. */
  predicate RefusedForGood(c: Context, values: Values) {
    exists key :: key in Names(c.fields) && !IsEmptySecret(c, values, key)
      && FieldValue(c.fields, c.rules, c.env, values["config_dir" := c.dir], key).None?
  }

  /** Every value passes its own validator, and the validators over all of them refuse. */
  predicate FinishRefuses(c: Context, values: Values) {
    var given := values["config_dir" := c.dir];
    Accepts(c.fields, c.rules, c.env, given) && c.rules.finish(Gathered(c.fields, c.rules, c.env, given)).None?
  }

  lemma EmptySecretValue(c: Context, values: Values, key: string)
    requires IsModel(c.fields) && SoundDefaults(c) && key in Names(c.fields)
    ensures var given := values["config_dir" := c.dir];
            var without := WithoutEmptySecrets(c, values)["config_dir" := c.dir];
            var before, after := FieldValue(c.fields, c.rules, c.env, given, key),
                FieldValue(c.fields, c.rules, c.env, without, key);
            && (!IsEmptySecret(c, values, key) ==> after == before)
            && (IsEmptySecret(c, values, key) ==> after == Some(Text("")) && (before.Some? ==> before == after))
  {
    DirIsConfigDir(c.fields, key);
    if IsEmptySecret(c, values, key) {
      assert SoundDefault(c, key) && DropsToDefault(c, key, values[key]);
    }
  }

  /** Leaving the empty secrets out changes nothing iff they were accepted, or something else is refused. */
  lemma WhenEmptySecretsMatter(c: Context, values: Values)
    requires IsModel(c.fields) && SoundDefaults(c)
    ensures var given := values["config_dir" := c.dir];
            Build(c, WithoutEmptySecrets(c, values)) == Build(c, values) <==>
            Accepts(c.fields, c.rules, c.env, given) || RefusedForGood(c, values) ||
                FinishRefuses(c, WithoutEmptySecrets(c, values))
    ensures Accepts(c.fields, c.rules, c.env, WithoutEmptySecrets(c, values)["config_dir" := c.dir]) <==>
            !RefusedForGood(c, values)
  {
    hide FieldValue, SoundDefaults, IsModel, IsEmptySecret, WithoutEmptySecrets, Names;
    var given, without := values["config_dir" := c.dir], WithoutEmptySecrets(c, values)["config_dir" := c.dir];
    forall key | key in Names(c.fields)
      ensures var before, after := FieldValue(c.fields, c.rules, c.env, given, key),
              FieldValue(c.fields, c.rules, c.env, without, key);
              && (!IsEmptySecret(c, values, key) ==> after == before)
              && (IsEmptySecret(c, values, key) ==> after == Some(Text("")) && (before.Some? ==> before == after))
    {
      EmptySecretValue(c, values, key);
    }
    if Accepts(c.fields, c.rules, c.env, given) {
      assert Gathered(c.fields, c.rules, c.env, without) == Gathered(c.fields, c.rules, c.env, given);
    }
  }

  /**
   A start that finds the migrated file builds the settings the migrating start built
   iff that one accepted its values, or refused one that is no empty secret, or the
   rest would be refused as a whole. Otherwise only the second start succeeds.
   */
  lemma RestartBuildsTheSameSettings(c: Context, rel: Release, file: Document)
    requires KnowsItsKeys(rel.fields) && c.fields == rel.fields && SoundDefaults(c) && Start(rel, file).0.Values?
    ensures Start(rel, Start(rel, file).1).0.Values?
    ensures var values := FileValues(c.fields, Start(rel, file).0.values);
            Build(c, FileValues(c.fields, Start(rel, Start(rel, file).1).0.values)) == Build(c, values) <==>
            || Start(rel, file).1 == file
            || Accepts(c.fields, c.rules, c.env, values["config_dir" := c.dir])
            || RefusedForGood(c, values)
            || FinishRefuses(c, WithoutEmptySecrets(c, values))
  {
    hide Start, Accepts, FileValues, RefusedForGood, FinishRefuses, WithoutEmptySecrets, SoundDefaults, Build;
    if Start(rel, file).1 != file {
      RestartDropsEmptySecrets(c, rel, file);
      WhenEmptySecretsMatter(c, FileValues(c.fields, Start(rel, file).0.values));
    }
  }

  // ----- a secret left blank ---------------------------------------------------------------

  const BLANK := "comicvine_api_key"

  const SMALL_MODEL := [
    Field(CONFIG_VERSION_KEY, Plain(Number(CURRENT_CONFIG_VERSION))), Field(RECYCLE_BIN_PATH, Plain(Text(""))),
        Field(BLANK, FileSecret)]

  /** A secret must be a text. */
  function CheckSecret(key: string, v: Value): Option<Value> {
    if key == BLANK && !v.Text? then None else Some(v)
  }

  function AcceptAll(values: Values): Option<Values> {
    Some(values)
  }

  function SmallContext(dir: Value): Context {
    Context(SMALL_MODEL, Rules(CheckSecret, AcceptAll), map[], dir)
  }

  lemma SmallModel()
    ensures KnowsItsKeys(SMALL_MODEL) && KindOf(SMALL_MODEL, BLANK) == Some(FileSecret)
    ensures Names(SMALL_MODEL) == {CONFIG_VERSION_KEY, RECYCLE_BIN_PATH, BLANK}
  {
    var one, two := SMALL_MODEL[..1], SMALL_MODEL[..2];
    assert SMALL_MODEL[..2][..1] == one && one[..0] == [];
    assert one == [SMALL_MODEL[0]] && KindOf([], CONFIG_VERSION_KEY) == None;
    assert Names([]) == {} && Names(one) == {CONFIG_VERSION_KEY} && IsModel(one);
    assert KindOf(one, CONFIG_VERSION_KEY) == Some(one[|one| - 1].kind);
    assert Names(two) == {CONFIG_VERSION_KEY, RECYCLE_BIN_PATH} && IsModel(two);
    assert KindOf(two, CONFIG_VERSION_KEY) == Some(SMALL_MODEL[0].kind);
  }

  lemma SmallContextIsSound(dir: Value)
    ensures SoundDefaults(SmallContext(dir))
  {
    SmallModel();
    hide IsModel, Names;
    var c := SmallContext(dir);
    forall key | key in Names(c.fields) ensures SoundDefault(c, key) {
      forall v ensures key == BLANK ==> DropsToDefault(c, key, v) {}
    }
  }

  /** What the migrating start makes of the blank secret. */
  lemma BlankSecretMigrates(rel: Release)
    requires rel.fields == SMALL_MODEL
    ensures var values := map[BLANK := Null, RECYCLE_BIN_PATH := Text(rel.quarantine),
            CONFIG_VERSION_KEY := Number(CURRENT_CONFIG_VERSION)];
            Start(rel, [Entry(BLANK, Null)]) == (Loaded.Values(values), Rendered(SMALL_MODEL, values))
  {
    hide Rendered;
    var file := [Entry(BLANK, Null)];
    assert file[..0] == [];
    assert Parse(file) == map[BLANK := Null];
    MigratedFrom(rel, map[BLANK := Null], 0);
  }

  lemma BlankSecretIsRefused(dir: Value, quarantine: string)
    ensures var c := SmallContext(dir);
            var values := map[BLANK := Null, RECYCLE_BIN_PATH := Text(quarantine),
                CONFIG_VERSION_KEY := Number(CURRENT_CONFIG_VERSION)];
            && Build(c, FileValues(SMALL_MODEL, values)) == None
            && Build(c, WithoutEmptySecrets(c, FileValues(SMALL_MODEL, values))) != None
  {
    SmallModel();
    hide IsModel, KindOf, Names;
    var c := SmallContext(dir);
    var values: Values :=
      map[BLANK := Null, RECYCLE_BIN_PATH := Text(quarantine), CONFIG_VERSION_KEY := Number(CURRENT_CONFIG_VERSION)];
    var given := FileValues(SMALL_MODEL, values);
    assert BLANK in given && given[BLANK] == Null;
    assert BLANK in Names(SMALL_MODEL);
    assert FieldValue(c.fields, c.rules, c.env, given["config_dir" := dir], BLANK).None?;
    var without := WithoutEmptySecrets(c, given);
    assert IsEmptySecret(c, given, BLANK) && BLANK !in without;
    forall key | key in Names(SMALL_MODEL)
      ensures FieldValue(c.fields, c.rules, c.env, without["config_dir" := dir], key).Some? {}
  }

  /** An unversioned file whose one line is a secret left blank: the first start refuses it, the next does not. */
  lemma BlankSecretIsRefusedOnce(rel: Release, dir: Value)
    requires rel.fields == SMALL_MODEL
    ensures KnowsItsKeys(SMALL_MODEL) && SoundDefaults(SmallContext(dir))
    ensures var c := SmallContext(dir);
            var (first, left) := Start(rel, [Entry(BLANK, Null)]);
            var (second, _) := Start(rel, left);
            && first.Values? && Build(c, FileValues(SMALL_MODEL, first.values)) == None
            && second.Values? && Build(c, FileValues(SMALL_MODEL, second.values)) != None
  {
    hide Start, Build, FileValues, WithoutEmptySecrets, KnowsItsKeys, SoundDefaults;
    SmallModel();
    SmallContextIsSound(dir);
    BlankSecretMigrates(rel);
    BlankSecretIsRefused(dir, rel.quarantine);
    assert Start(rel, [Entry(BLANK, Null)]).1[0] == Comment;
    RestartDropsEmptySecrets(SmallContext(dir), rel, [Entry(BLANK, Null)]);
  }

  lemma NoneInFileValues(c: Context, values: Values)
    ensures NoEnvOnlySecret(c, FileValues(c.fields, values))
  {
  }

  lemma SameFileValues(fields: seq<Field>, values: Values)
    requires IsModel(fields)
    ensures FileValues(fields, Written(fields, FileValues(fields, values))) ==
            FileValues(fields, Written(fields, values))
  {
    hide IsModel;
    var a, b := FileValues(fields, Written(fields, FileValues(fields, values))),
        FileValues(fields, Written(fields, values));
    forall k ensures (k in a <==> k in b) && (k in a ==> a[k] == b[k]) {
      if k in Names(fields) {
        DirIsConfigDir(fields, k);
      }
    }
  }

  // ----- what a migration keeps ----------------------------------------------------------------

  /**
   A migration keeps an operator's key verbatim iff the renderer writes it and it is
   not the stamp; it pins the recycle bin to the quarantine when the operator set none;
   and whatever else the new file has are defaults of plain fields.
   */
  lemma OperatorKeysSurvive(rel: Release, file: Document, key: string)
    requires KnowsItsKeys(rel.fields) && StampedVersion(rel, Parse(file)) == 0
    ensures var values, after := Parse(file), Parse(Start(rel, file).1);
            && (key in values ==> ((key in after && after[key] == values[key]) <==>
                 key != CONFIG_VERSION_KEY && Keeps(rel.fields, values, key)))
            && (key !in values && key in after ==>
                  if key == CONFIG_VERSION_KEY then after[key] == Number(CURRENT_CONFIG_VERSION)
                  else if key == RECYCLE_BIN_PATH then after[key] == Text(rel.quarantine)
                  else KindOf(rel.fields, key) == Some(Plain(after[key])))
            && RECYCLE_BIN_PATH in after && after.Keys >= {CONFIG_VERSION_KEY}
  {
    hide Parse, Rendered, IsModel, Migrated;
    var values := Parse(file);
    MigratedFrom(rel, values, 0);
    var stamped := Migrate0To1(rel, values)[CONFIG_VERSION_KEY := Number(CURRENT_CONFIG_VERSION)];
    WrittenFileReadsBack(rel.fields, stamped);
    KeepsFacts(rel.fields, stamped, key);
  }
}
