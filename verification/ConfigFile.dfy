/**
 The configuration file (backend/src/foragerr/config.py): the documented rendering
 of a mapping of values, what a file reads back as, and the settings built from it.
 */
module ConfigFile {
  import opened Strings

  // ----- values and the model ---------------------------------------------------------

  /** A YAML value; `Other` stands for the composite ones, of which only truth is looked at. */
  datatype Value = Null | Flag(on: bool) | Number(n: int) | Text(s: string) | Other(id: int, truthy: bool)

  /** Python's truth of a value. */
  predicate Truthy(v: Value) {
    match v
    case Null => false
    case Flag(on) => on
    case Number(n) => n != 0
    case Text(s) => s != ""
    case Other(_, truthy) => truthy
  }

  type Values = map<string, Value>

  datatype Kind = Plain(default: Value) | FileSecret | EnvOnlySecret | ConfigDir

  /** One field of the settings model, in declaration order. */
  datatype Field = Field(name: string, kind: Kind)

  /** What the model says about a key, if it knows the key. */
  function KindOf(fields: seq<Field>, key: string): (kind: Option<Kind>)
    ensures kind.Some? <==> key in Names(fields)
  {
    if fields == [] then None
    else if fields[|fields| - 1].name == key then Some(fields[|fields| - 1].kind)
    else KindOf(fields[..|fields| - 1], key)
  }

  function Names(fields: seq<Field>): set<string> {
    if fields == [] then {} else Names(fields[..|fields| - 1]) + {fields[|fields| - 1].name}
  }

  /** No name twice, and the configuration directory is the one field of its kind. */
  predicate IsModel(fields: seq<Field>) {
    fields == [] || (
      var last := fields[|fields| - 1];
      && last.name !in Names(fields[..|fields| - 1])
      && (last.kind == ConfigDir <==> last.name == "config_dir")
      && IsModel(fields[..|fields| - 1]))
  }

  lemma {:induction false} KindOfField(fields: seq<Field>)
    requires IsModel(fields)
    ensures forall f :: f in fields ==> KindOf(fields, f.name) == Some(f.kind)
  {
    if fields != [] {
      var init := fields[..|fields| - 1];
      KindOfField(init);
      assert forall f :: f in fields ==> f in init || f == fields[|fields| - 1];
      assert forall f :: f in init ==> KindOf(init, f.name).Some?;
    }
  }

  // ----- the documented rendering --------------------------------------------------------

  /** What a line of the file says to a YAML reader. */
  datatype Line = Comment | Entry(key: string, value: Value) | Entries(values: Values)

  type Document = seq<Line>

  function FieldLines(fields: seq<Field>, provided: Values): Document {
    if fields == [] then []
    else FieldLines(fields[..|fields| - 1], provided) + [Comment] + [LineOf(fields[|fields| - 1], provided)]
  }

  /** The value line of a field, or the comment that stands in its place. */
  function LineOf(f: Field, provided: Values): Line {
    match f.kind
    case ConfigDir => Comment
    case EnvOnlySecret => Comment
    case FileSecret =>
      if f.name in provided && Truthy(provided[f.name]) then Entry(f.name, provided[f.name]) else Comment
    case Plain(default) => Entry(f.name, if f.name in provided then provided[f.name] else default)
  }

  function Extras(fields: seq<Field>, provided: Values): Values {
    map k | k in provided && KindOf(fields, k).None? && k != "config_dir" :: provided[k]
  }

  function Rendered(fields: seq<Field>, provided: Values): Document {
    var extras := Extras(fields, provided);
    [Comment] + FieldLines(fields, provided) + if extras == map[] then [] else [Comment, Entries(extras)]
  }

  /** `render_documented_config`. */
  method RenderDocumentedConfig(fields: seq<Field>, provided: Values) returns (lines: Document)
    ensures lines == Rendered(fields, provided)
  {
    lines := [Comment];
    assert fields[..0] == [];
    for i := 0 to |fields|
      invariant lines == [Comment] + FieldLines(fields[..i], provided)
    {
      var f := fields[i];
      assert fields[..i + 1][..i] == fields[..i];
      lines := lines + [Comment];
      match f.kind {
        case ConfigDir =>
          lines := lines + [Comment];
        case EnvOnlySecret =>
          lines := lines + [Comment];
        case FileSecret =>
          if f.name in provided && Truthy(provided[f.name]) {
            lines := lines + [Entry(f.name, provided[f.name])];
          } else {
            lines := lines + [Comment];
          }
        case Plain(default) =>
          lines := lines + [Entry(f.name, if f.name in provided then provided[f.name] else default)];
      }
    }
    assert fields[..|fields|] == fields;
    var extras := map k | k in provided && KindOf(fields, k).None? && k != "config_dir" :: provided[k];
    if extras != map[] {
      lines := lines + [Comment] + [Entries(extras)];
    }
  }

  // ----- reading it back -------------------------------------------------------------------

  function ReadLine(before: Values, line: Line): Values {
    match line
    case Comment => before
    case Entry(key, value) => before[key := value]
    case Entries(more) => before + more
  }

  /** `yaml.safe_load` of a file: comments say nothing, and a later entry wins. */
  function Parse(lines: Document): Values {
    if lines == [] then map[] else ReadLine(Parse(lines[..|lines| - 1]), lines[|lines| - 1])
  }

  /** Does the written file have the key? */
  predicate Keeps(fields: seq<Field>, provided: Values, key: string) {
    match KindOf(fields, key)
    case None => key in provided && key != "config_dir"
    case Some(Plain(_)) => true
    case Some(FileSecret) => key in provided && Truthy(provided[key])
    case Some(EnvOnlySecret) => false
    case Some(ConfigDir) => false
  }

  /** And with what value? A plain field is written with its default when nothing is provided. */
  function WrittenValue(fields: seq<Field>, provided: Values, key: string): Value
    requires Keeps(fields, provided, key)
  {
    if key in provided then provided[key] else KindOf(fields, key).value.default
  }

  function Written(fields: seq<Field>, provided: Values): Values {
    map k | k in Names(fields) + provided.Keys && Keeps(fields, provided, k) :: WrittenValue(fields, provided, k)
  }

  lemma ParseStep(lines: Document, line: Line)
    ensures Parse(lines + [line]) == ReadLine(Parse(lines), line)
  {
    assert (lines + [line])[..|lines|] == lines;
  }

  /** What the line of a field adds to what was read before it. */
  lemma LineReads(before: Values, f: Field, provided: Values, key: string)
    ensures var m := ReadLine(before, LineOf(f, provided));
            key != f.name ==> (key in m <==> key in before) && (key in m ==> m[key] == before[key])
    ensures var m := ReadLine(before, LineOf(f, provided));
            f.name !in before ==> (f.name in m <==> Keeps([f], provided, f.name))
    ensures var m := ReadLine(before, LineOf(f, provided));
            f.name !in before && f.name in m ==> m[f.name] == WrittenValue([f], provided, f.name)
  {
    hide Truthy;
  }

  lemma LastField(fields: seq<Field>, provided: Values, key: string)
    requires fields != []
    ensures var f := fields[|fields| - 1];
            var part := if f.name == key then [f] else fields[..|fields| - 1];
            && KindOf(fields, key) == KindOf(part, key) && Keeps(fields, provided, key) == Keeps(part, provided, key)
            && (Keeps(part, provided, key) ==> WrittenValue(fields, provided, key) == WrittenValue(part, provided, key))
            && KindOf([f], f.name).Some?
  {
    hide Truthy, Names;
  }

  lemma NewName(fields: seq<Field>)
    requires IsModel(fields) && fields != []
    ensures IsModel(fields[..|fields| - 1]) && KindOf(fields[..|fields| - 1], fields[|fields| - 1].name).None?
  {
  }

  lemma NothingRead(provided: Values, key: string)
    ensures Parse([Comment] + FieldLines([], provided)) == map[] && KindOf([], key).None?
  {
    ParseStep([], Comment);
  }

  lemma {:induction false} FieldsReadBack(fields: seq<Field>, provided: Values, key: string)
    requires IsModel(fields)
    ensures var m := Parse([Comment] + FieldLines(fields, provided));
            && (key in m <==> KindOf(fields, key).Some? && Keeps(fields, provided, key))
            && (key in m ==> m[key] == WrittenValue(fields, provided, key))
  {
    hide Parse, KindOf, Keeps, WrittenValue, LineOf, ReadLine, IsModel, Names;
    if fields == [] {
      NothingRead(provided, key);
    } else {
      var init, f := fields[..|fields| - 1], fields[|fields| - 1];
      NewName(fields);
      FieldsReadBack(init, provided, key);
      LastField(fields, provided, key);
      LineReads(Parse([Comment] + FieldLines(init, provided)), f, provided, key);
      var before := [Comment] + FieldLines(init, provided);
      ParseComment(before);
      ParseStep(before + [Comment], LineOf(f, provided));
      assert [Comment] + FieldLines(fields, provided) == before + [Comment] + [LineOf(f, provided)];
    }
  }

  lemma ParseComment(lines: Document)
    ensures Parse(lines + [Comment]) == Parse(lines)
  {
    ParseStep(lines, Comment);
  }

  /**
   The file written for some values reads back as those values with the defaults
   filled in, less the configuration directory, the environment-only secrets and
   the empty secrets; keys the model does not know survive.
   */
  lemma WrittenFileReadsBack(fields: seq<Field>, provided: Values)
    requires IsModel(fields)
    ensures Parse(Rendered(fields, provided)) == Written(fields, provided)
  {
    hide Keeps, WrittenValue, KindOf, Names, Parse, FieldLines, IsModel;
    var extras := Extras(fields, provided);
    var body := [Comment] + FieldLines(fields, provided);
    ParseStep(body, Comment);
    ParseStep(body + [Comment], Entries(extras));
    assert body + [Comment, Entries(extras)] == body + [Comment] + [Entries(extras)];
    assert body + [] == body;
    var m := Parse(Rendered(fields, provided));
    assert m == Parse(body) + extras;
    forall k ensures (k in m <==> k in Written(fields, provided)) && (k in m ==> m[k] == Written(fields, provided)[k]) {
      FieldsReadBack(fields, provided, k);
      KeepsFacts(fields, provided, k);
    }
  }

  /** The values Python takes for false. */
  predicate Empty(v: Value) {
    v == Null || v == Flag(false) || v == Number(0) || v == Text("") || (v.Other? && !v.truthy)
  }

  /**
   What the written file says of each field of the model: nothing of the directory and of
   secrets only the environment may set, whatever was provided; a secret as provided unless
   it is empty; and every other field, with its default when nothing was provided.
   */
  lemma FileSaysOfField(fields: seq<Field>, provided: Values, f: Field)
    requires IsModel(fields) && f in fields
    ensures var file := Parse(Rendered(fields, provided));
            match f.kind
            case ConfigDir => f.name !in file
            case EnvOnlySecret => f.name !in file
            case FileSecret =>
              && (f.name in file <==> f.name in provided && !Empty(provided[f.name]))
              && (f.name in file ==> file[f.name] == provided[f.name])
            case Plain(default) =>
              f.name in file && file[f.name] == if f.name in provided then provided[f.name] else default
  {
    hide Parse, Rendered;
    WrittenFileReadsBack(fields, provided);
    KindOfField(fields);
    assert f.name in Names(fields) by { FieldHasItsName(fields, f); }
    hide IsModel, KindOf, Names;
  }

  lemma {:induction false} FieldHasItsName(fields: seq<Field>, f: Field)
    requires f in fields
    ensures f.name in Names(fields)
  {
    var init, last := fields[..|fields| - 1], fields[|fields| - 1];
    assert fields == init + [last];
    if f in init {
      FieldHasItsName(init, f);
    }
  }

  /** And of a key that is no field's: what was provided, but never the directory. */
  lemma FileSaysOfUnknown(fields: seq<Field>, provided: Values, key: string)
    requires IsModel(fields) && forall f :: f in fields ==> f.name != key
    ensures var file := Parse(Rendered(fields, provided));
            && (key in file <==> key in provided && key != "config_dir")
            && (key in file ==> file[key] == provided[key])
  {
    hide Parse, Rendered;
    WrittenFileReadsBack(fields, provided);
    UnknownHasNoKind(fields, key);
    hide IsModel, KindOf;
  }

  lemma {:induction false} UnknownHasNoKind(fields: seq<Field>, key: string)
    requires forall f :: f in fields ==> f.name != key
    ensures KindOf(fields, key).None?
  {
    if fields != [] {
      assert fields[|fields| - 1] in fields;
      UnknownHasNoKind(fields[..|fields| - 1], key);
    }
  }

  lemma KeepsFacts(fields: seq<Field>, provided: Values, key: string)
    ensures Keeps(fields, provided, key) ==> key in Names(fields) + provided.Keys
    ensures KindOf(fields, key).None? ==> (Keeps(fields, provided, key) <==> key in Extras(fields, provided))
    ensures KindOf(fields, key).None? && Keeps(fields, provided, key) ==>
            WrittenValue(fields, provided, key) == provided[key]
    ensures KindOf(fields, key).Some? ==> key !in Extras(fields, provided)
  {
  }

  /** Writing again what a written file says changes nothing: the rendering is a normal form. */
  lemma RewritingChangesNothing(fields: seq<Field>, provided: Values)
    requires IsModel(fields)
    ensures Rendered(fields, Parse(Rendered(fields, provided))) == Rendered(fields, provided)
  {
    WrittenFileReadsBack(fields, provided);
    KindOfField(fields);
    SameLines(fields, fields, provided);
    var written := Written(fields, provided);
    forall k ensures k in Extras(fields, written) <==> k in Extras(fields, provided) {
      KeepsFacts(fields, provided, k);
    }
    assert Extras(fields, written) == Extras(fields, provided);
  }

  lemma {:induction false} SameLines(part: seq<Field>, fields: seq<Field>, provided: Values)
    requires IsModel(part) && forall f :: f in part ==> KindOf(fields, f.name) == Some(f.kind)
    ensures FieldLines(part, Written(fields, provided)) == FieldLines(part, provided)
  {
    if part != [] {
      SameLines(part[..|part| - 1], fields, provided);
      KeepsFacts(fields, provided, part[|part| - 1].name);
    }
  }

  // ----- the settings --------------------------------------------------------------------------

  /** The validators: one per field, and one over all of them, which may also adjust what it is given. */
  datatype Rules = Rules(check: (string, Value) -> Option<Value>, finish: Values -> Option<Values>)

  function DefaultOf(kind: Kind): Value {
    match kind case Plain(default) => default case _ => Text("")
  }

  /** A set environment variable wins over the file, and a default is taken unchecked. */
  function FieldValue(fields: seq<Field>, rules: Rules, env: Values, given: Values, key: string): Option<Value>
    requires key in Names(fields)
  {
    if key in env then rules.check(key, env[key])
    else if key in given then rules.check(key, given[key])
    else Some(DefaultOf(KindOf(fields, key).value))
  }

  predicate Accepts(fields: seq<Field>, rules: Rules, env: Values, given: Values) {
    forall key :: key in Names(fields) ==> FieldValue(fields, rules, env, given, key).Some?
  }

  function Gathered(fields: seq<Field>, rules: Rules, env: Values, given: Values): Values
    requires Accepts(fields, rules, env, given)
  {
    map key | key in Names(fields) :: FieldValue(fields, rules, env, given, key).value
  }

  /** `Settings(config_dir=dir, **values)`; `None` is a validation error. */
  function Settings(fields: seq<Field>, rules: Rules, env: Values, dir: Value, values: Values): Option<Values> {
    var given := values["config_dir" := dir];
    if Accepts(fields, rules, env, given) then rules.finish(Gathered(fields, rules, env, given)) else None
  }

  /** The value a field is given: the environment's, or else the one provided, if any. */
  function Given(env: Values, dir: Value, values: Values, key: string): Option<Value> {
    if key in env then Some(env[key])
    else if key == "config_dir" then Some(dir)
    else if key in values then Some(values[key])
    else None
  }

  /** A field whose given value its validator refuses. */
  predicate IsRefused(rules: Rules, env: Values, dir: Value, values: Values, key: string) {
    Given(env, dir, values, key).Some? && rules.check(key, Given(env, dir, values, key).value).None?
  }

  /** What becomes of a field that is not refused: what its validator made of the given value, or its default. */
  function Checked(fields: seq<Field>, rules: Rules, env: Values, dir: Value, values: Values, key: string): Value
    requires key in Names(fields) && !IsRefused(rules, env, dir, values, key)
  {
    if Given(env, dir, values, key).Some? then rules.check(key, Given(env, dir, values, key).value).value
    else if KindOf(fields, key).value.Plain? then KindOf(fields, key).value.default
    else Text("")
  }

  lemma OneChecked(fields: seq<Field>, rules: Rules, env: Values, dir: Value, values: Values, key: string)
    requires key in Names(fields)
    ensures FieldValue(fields, rules, env, values["config_dir" := dir], key) ==
            if IsRefused(rules, env, dir, values, key) then None
            else Some(Checked(fields, rules, env, dir, values, key))
  {
    hide KindOf, Names;
  }

  /**
   Settings are refused iff a validator refuses a given value, or the last one all of them;
   that one is handed every field as it was validated.
   */
  lemma SettingsAsGiven(fields: seq<Field>, rules: Rules, env: Values, dir: Value, values: Values)
    ensures Settings(fields, rules, env, dir, values) ==
            if exists key :: key in Names(fields) && IsRefused(rules, env, dir, values, key) then None
            else rules.finish(map key | key in Names(fields) :: Checked(fields, rules, env, dir, values, key))
  {
    var given := values["config_dir" := dir];
    forall key | key in Names(fields)
      ensures FieldValue(fields, rules, env, given, key) ==
              if IsRefused(rules, env, dir, values, key) then None
              else Some(Checked(fields, rules, env, dir, values, key))
    {
      OneChecked(fields, rules, env, dir, values, key);
    }
    hide FieldValue, IsRefused, Checked, Names;
    if forall key :: key in Names(fields) ==> !IsRefused(rules, env, dir, values, key) {
      assert Gathered(fields, rules, env, given) ==
             map key | key in Names(fields) :: Checked(fields, rules, env, dir, values, key);
    }
  }

  /** What `load_settings` takes from a file: neither unknown keys nor what only the environment may set. */
  function FileValues(fields: seq<Field>, values: Values): Values {
    var taken := set k | k in values && k in Names(fields) && KindOf(fields, k).value != EnvOnlySecret;
    map k | k in taken && k != "config_dir" :: values[k]
  }

  /** Does the value of a field survive being written and read? */
  predicate Survives(fields: seq<Field>, rules: Rules, env: Values, given: Values, key: string)
    requires key in Names(fields)
  {
    key in env ||
    match KindOf(fields, key).value
    case ConfigDir => true
    case Plain(default) => key in given || rules.check(key, default) == Some(default)
    case FileSecret => key in given && !Truthy(given[key]) ==> rules.check(key, given[key]) == Some(Text(""))
    case EnvOnlySecret => key in given ==> rules.check(key, given[key]) == Some(Text(""))
  }

  lemma ValueAfterReload(fields: seq<Field>, rules: Rules, env: Values, dir: Value, values: Values, key: string)
    requires IsModel(fields) && key in Names(fields)
    requires FieldValue(fields, rules, env, values["config_dir" := dir], key).Some?
    ensures var reread := FileValues(fields, Written(fields, values))["config_dir" := dir];
            FieldValue(fields, rules, env, reread, key) ==
                FieldValue(fields, rules, env, values["config_dir" := dir], key)
            <==> Survives(fields, rules, env, values, key)
  {
    DirIsConfigDir(fields, key);
    KeepsFacts(fields, values, key);
  }

  lemma {:induction false} DirIsConfigDir(fields: seq<Field>, key: string)
    requires IsModel(fields) && key in Names(fields)
    ensures KindOf(fields, key).value == ConfigDir <==> key == "config_dir"
  {
    if fields[|fields| - 1].name != key {
      DirIsConfigDir(fields[..|fields| - 1], key);
    }
  }

  /**
   Values the model accepts build the same settings as the file written from them iff
   every field survives: an unset field whose default its own validator would change,
   an environment-only secret found in the file, or an empty secret that validates to
   something else would not.
   */
  lemma ReloadGivesTheSameSettings(fields: seq<Field>, rules: Rules, env: Values, dir: Value, values: Values)
    requires IsModel(fields) && Accepts(fields, rules, env, values["config_dir" := dir])
    ensures var given, reread := values["config_dir" := dir],
            FileValues(fields, Parse(Rendered(fields, values)))["config_dir" := dir];
            (Accepts(fields, rules, env, reread) &&
                Gathered(fields, rules, env, reread) == Gathered(fields, rules, env, given))
            <==> forall key :: key in Names(fields) ==> Survives(fields, rules, env, values, key)
  {
    hide Survives, Written, FileValues, FieldValue, Names, IsModel, Parse, Rendered;
    WrittenFileReadsBack(fields, values);
    var given, reread := values["config_dir" := dir], FileValues(fields, Written(fields, values))["config_dir" := dir];
    forall key | key in Names(fields)
      ensures FieldValue(fields, rules, env, reread, key) == FieldValue(fields, rules, env, given, key)
              <==> Survives(fields, rules, env, values, key)
    {
      ValueAfterReload(fields, rules, env, dir, values, key);
    }
    if Accepts(fields, rules, env, reread) &&
        Gathered(fields, rules, env, reread) == Gathered(fields, rules, env, given) {
      forall key | key in Names(fields) ensures Survives(fields, rules, env, values, key) {
        assert Gathered(fields, rules, env, reread)[key] == Gathered(fields, rules, env, given)[key];
      }
    }
  }

  /** What does not change while the application runs. */
  datatype Context = Context(fields: seq<Field>, rules: Rules, env: Values, dir: Value)

  function Build(c: Context, values: Values): Option<Values> {
    Settings(c.fields, c.rules, c.env, c.dir, values)
  }

  /** What a start would build from the file, which is at the current schema version. */
  function Reload(c: Context, file: Document): Option<Values> {
    Build(c, FileValues(c.fields, Parse(file)))
  }

  predicate DropsToDefault(c: Context, key: string, v: Value) {
    !Truthy(v) && c.rules.check(key, v).Some? ==> c.rules.check(key, v) == Some(Text(""))
  }

  /** A default passes its own validator unchanged, and an empty secret is no secret. */
  ghost predicate SoundDefault(c: Context, key: string)
    requires key in Names(c.fields)
  {
    var kind := KindOf(c.fields, key).value;
    && (kind.Plain? ==> c.rules.check(key, kind.default) == Some(kind.default))
    && (kind.FileSecret? ==> forall v :: DropsToDefault(c, key, v))
  }

  ghost predicate SoundDefaults(c: Context) {
    forall key :: key in Names(c.fields) && key !in c.env ==> SoundDefault(c, key)
  }

  /** No secret that only the environment may set, unless the environment does set it. */
  predicate NoEnvOnlySecret(c: Context, values: Values) {
    forall key :: key in values && key !in c.env ==> KindOf(c.fields, key) != Some(EnvOnlySecret)
  }

  lemma AllSurvive(c: Context, values: Values)
    requires SoundDefaults(c) && NoEnvOnlySecret(c, values) &&
             Accepts(c.fields, c.rules, c.env, values["config_dir" := c.dir])
    requires IsModel(c.fields)
    ensures forall key :: key in Names(c.fields) ==> Survives(c.fields, c.rules, c.env, values, key)
  {
    forall key | key in Names(c.fields) ensures Survives(c.fields, c.rules, c.env, values, key) {
      DirIsConfigDir(c.fields, key);
      assert FieldValue(c.fields, c.rules, c.env, values["config_dir" := c.dir], key).Some?;
      if key in values && key !in c.env && KindOf(c.fields, key).value.FileSecret? {
        assert DropsToDefault(c, key, values[key]);
      }
    }
  }
}
