/**
 The key=value log line (backend/src/foragerr/logging.py) and a reader that takes
 it apart again the way Python's shlex does in POSIX mode with whitespace_split.
 */
module LogLine {
  import opened Strings

  // ----- the writer ---------------------------------------------------------------

  predicate NeedsQuotes(value: string) {
    value == "" || exists j :: 0 <= j < |value| && (IsSpace(value[j]) || value[j] in "\"'\\=")
  }

  function Replace(s: string, c: char, to: string): string {
    if s == "" then "" else (if s[0] == c then to else [s[0]]) + Replace(s[1..], c, to)
  }

  /** `_quote`. */
  function Quote(value: string): string {
    if !NeedsQuotes(value) then value
    else "\"" + Replace(Replace(value, '\\', "\\\\"), '\"', "\\\"") + "\""
  }

  /** What one log record offers: `attrs` are its attributes in insertion order, as text. */
  datatype Record = Record(
    ts: string, level: string, name: string, message: string, attrs: seq<Field>,
    exception: Option<string>, stack: Option<string>)

  datatype Field = Field(key: string, value: string)

  const STANDARD_ATTRS: set<string> := {
    "name", "msg", "args", "levelname", "levelno", "pathname", "filename", "module", "exc_info", "exc_text",
    "stack_info", "lineno", "funcName", "created", "msecs", "relativeCreated", "thread", "threadName",
    "processName", "process", "message", "asctime", "taskName"}

  predicate CallerSupplied(f: Field) {
    f.key !in STANDARD_ATTRS && !Starts(f.key, "_")
  }

  /** A field of a line: the text shown for its value is quoted, except for `ts` and `level`. */
  datatype Shown = Shown(field: Field, raw: bool) {
    function Part(): string {
      field.key + "=" + if raw then field.value else Quote(field.value)
    }
  }

  function Extras(attrs: seq<Field>): seq<Shown> {
    if attrs == [] then []
    else
      var last := attrs[|attrs| - 1];
      Extras(attrs[..|attrs| - 1]) + if CallerSupplied(last) then [Shown(last, false)] else []
  }

  /** What a line says, in order. */
  function Says(r: Record): seq<Shown> {
    [Shown(Field("ts", r.ts), true), Shown(Field("level", r.level), true),
     Shown(Field("logger", r.name), false), Shown(Field("msg", r.message), false)] + Extras(r.attrs)
  }

  /** Every attribute, shown. */
  function AllShown(attrs: seq<Field>): (r: seq<Shown>)
    ensures |r| == |attrs| && forall k :: 0 <= k < |attrs| ==> r[k] == Shown(attrs[k], false)
  {
    seq(|attrs|, k requires 0 <= k < |attrs| => Shown(attrs[k], false))
  }

  lemma {:induction false} ExtrasInOrder(attrs: seq<Field>) returns (at: seq<nat>)
    ensures Picks(AllShown(attrs), at, Extras(attrs))
    ensures forall k: nat :: k < |attrs| ==> (k in at <==> CallerSupplied(attrs[k]))
  {
    hide CallerSupplied, Picks;
    if attrs == [] {
      at := [];
      NothingPicked();
    } else {
      var n := |attrs| - 1;
      var init, x := attrs[..n], Shown(attrs[n], false);
      at := ExtrasInOrder(init);
      assert AllShown(attrs) == AllShown(init) + [x];
      PicksLater(AllShown(init), x, at, Extras(init));
      PicksAreBelow(AllShown(init), at, Extras(init));
      if CallerSupplied(attrs[n]) {
        at := at + [n];
      } else {
        assert Extras(init) + [] == Extras(init);
      }
    }
  }

  lemma NothingPicked()
    ensures Picks(AllShown([]), [], Extras([]))
  {
  }

  /**
   A line says time stamp, level, logger and message, in this order, and then exactly the
   attributes of the record that no log record has by itself and whose names do not begin
   with an underscore, in their order.
   */
  lemma LineSays(r: Record) returns (at: seq<nat>)
    ensures var shown := Says(r);
            && |shown| == 4 + |at|
            && shown[0] == Shown(Field("ts", r.ts), true) && shown[1] == Shown(Field("level", r.level), true)
            && shown[2] == Shown(Field("logger", r.name), false) && shown[3] == Shown(Field("msg", r.message), false)
            && Picks(AllShown(r.attrs), at, shown[4..])
    ensures forall k: nat :: k < |r.attrs| ==>
              (k in at <==>
                r.attrs[k].key !in STANDARD_ATTRS && (r.attrs[k].key == "" || r.attrs[k].key[0] != '_'))
  {
    at := ExtrasInOrder(r.attrs);
    forall k | 0 <= k < |r.attrs|
      ensures CallerSupplied(r.attrs[k]) <==>
              r.attrs[k].key !in STANDARD_ATTRS && (r.attrs[k].key == "" || r.attrs[k].key[0] != '_')
    {
      UnderscoreFirst(r.attrs[k].key);
    }
    hide CallerSupplied, Picks;
    assert Says(r)[4..] == Extras(r.attrs);
    PicksAreBelow(AllShown(r.attrs), at, Extras(r.attrs));
  }

  lemma UnderscoreFirst(key: string)
    ensures Starts(key, "_") <==> key != "" && key[0] == '_'
  {
    if key != "" {
      assert key[..1] == [key[0]];
    }
  }

  /** A value is quoted iff it is empty or has white space, a quote, a backslash or an equals sign. */
  lemma QuotedWhenNeeded(value: string)
    ensures Quote(value) == value <==>
            value != "" && forall j :: 0 <= j < |value| ==> !IsSpace(value[j]) && value[j] !in ['"', '\'', '\\', '=']
  {
    hide IsSpace;
    if NeedsQuotes(value) && Quote(value) == value {
      QuoteGrows(value);
    }
  }

  lemma QuoteGrows(value: string)
    requires NeedsQuotes(value)
    ensures |Quote(value)| > |value|
  {
    ReplaceGrows(value, '\\', "\\\\");
    ReplaceGrows(Replace(value, '\\', "\\\\"), '\"', "\\\"");
  }

  lemma {:induction false} ReplaceGrows(s: string, c: char, to: string)
    requires |to| >= 1
    ensures |Replace(s, c, to)| >= |s|
  {
    if s != "" {
      ReplaceGrows(s[1..], c, to);
    }
  }

  function Parts(shown: seq<Shown>): (parts: seq<string>)
    ensures |parts| == |shown| && forall j :: 0 <= j < |shown| ==> parts[j] == shown[j].Part()
  {
    seq(|shown|, j requires 0 <= j < |shown| => shown[j].Part())
  }

  /** `" ".join(parts)`. */
  function Join(parts: seq<string>): string {
    if parts == [] then "" else if |parts| == 1 then parts[0] else parts[0] + " " + Join(parts[1..])
  }

  function Trailer(text: Option<string>): string {
    if text.Some? && text.value != "" then "\n" + text.value else ""
  }

  lemma SaysStart(r: Record)
    ensures Parts(Says(r.(attrs := []))) ==
            ["ts=" + r.ts, "level=" + r.level, "logger=" + Quote(r.name), "msg=" + Quote(r.message)]
  {
    hide Quote, Starts;
    assert "ts" + "=" == "ts=" && "level" + "=" == "level=" && "logger" + "=" == "logger=" && "msg" + "=" == "msg=";
    var shown := Says(r.(attrs := []));
    assert shown == [
      Shown(Field("ts", r.ts), true), Shown(Field("level", r.level), true),
      Shown(Field("logger", r.name), false), Shown(Field("msg", r.message), false)];
  }

  lemma SaysStep(r: Record, k: nat)
    requires k < |r.attrs|
    ensures var f := r.attrs[k];
            Parts(Says(r.(attrs := r.attrs[..k + 1]))) ==
            Parts(Says(r.(attrs := r.attrs[..k]))) + if CallerSupplied(f) then [f.key + "=" + Quote(f.value)] else []
  {
    hide Quote, CallerSupplied;
    var f := r.attrs[k];
    assert r.attrs[..k + 1][..k] == r.attrs[..k];
    assert Shown(f, false).Part() == f.key + "=" + Quote(f.value);
    assert Says(r.(attrs := r.attrs[..k + 1])) ==
           Says(r.(attrs := r.attrs[..k])) + if CallerSupplied(f) then [Shown(f, false)] else [];
  }

  /** `KeyValueFormatter.format`. */
  method Format(r: Record) returns (line: string)
    ensures line == Join(Parts(Says(r)))
                    + (if r.exception.Some? && r.exception.value != "" then "\n" + r.exception.value else "")
                    + (if r.stack.Some? && r.stack.value != "" then "\n" + r.stack.value else "")
  {
    hide Quote, Says, Join;
    var parts := ["ts=" + r.ts, "level=" + r.level, "logger=" + Quote(r.name), "msg=" + Quote(r.message)];
    SaysStart(r);
    assert r.attrs[..0] == [];
    for k := 0 to |r.attrs|
      invariant parts == Parts(Says(r.(attrs := r.attrs[..k])))
    {
      var f := r.attrs[k];
      SaysStep(r, k);
      if f.key !in STANDARD_ATTRS && !Starts(f.key, "_") {
        parts := parts + [f.key + "=" + Quote(f.value)];
      }
    }
    assert r.attrs[..|r.attrs|] == r.attrs;
    line := Join(parts);
    if r.exception.Some? && r.exception.value != "" {
      line := line + "\n" + r.exception.value;
    }
    if r.stack.Some? && r.stack.value != "" {
      line := line + "\n" + r.stack.value;
    }
  }

  // ----- the reader ---------------------------------------------------------------

  /** One word and what follows its separator; `None` when a quotation or an escape is left open. */
  datatype Word = Word(text: string, rest: string)

  function Then(text: string, w: Option<Word>): Option<Word> {
    match w
    case None => None
    case Some(word) => Some(Word(text + word.text, word.rest))
  }

  predicate Splits(c: char) {
    c in " \t\r\n"
  }

  function ReadWord(s: string): (w: Option<Word>)
    ensures w.Some? && s != "" ==> |w.value.rest| < |s|
    ensures w.Some? && s == "" ==> w.value == Word("", "")
    decreases |s|
  {
    if s == "" then Some(Word("", ""))
    else if Splits(s[0]) then Some(Word("", s[1..]))
    else if s[0] in "\"'" then ReadQuoted(s[1..], s[0])
    else if s[0] != '\\' then Then([s[0]], ReadWord(s[1..]))
    else if |s| == 1 then None
    else Then([s[1]], ReadWord(s[2..]))
  }

  function ReadQuoted(s: string, quote: char): (w: Option<Word>)
    ensures w.Some? ==> |w.value.rest| < |s|
    decreases |s|
  {
    if s == "" then None
    else if s[0] == quote then ReadWord(s[1..])
    else if s[0] != '\\' || quote != '\"' then Then([s[0]], ReadQuoted(s[1..], quote))
    else if |s| == 1 then None
    else Then(if s[1] in "\\\"" then [s[1]] else s[..2], ReadQuoted(s[2..], quote))
  }

  function ReadLine(s: string): Option<seq<string>>
    decreases |s|
  {
    if s == "" then Some([])
    else if Splits(s[0]) then ReadLine(s[1..])
    else
      match ReadWord(s)
      case None => None
      case Some(w) => match ReadLine(w.rest) case None => None case Some(ws) => Some([w.text] + ws)
  }

  function FirstEquals(s: string): (n: nat)
    ensures n <= |s| && '=' !in s[..n] && (n < |s| ==> s[n] == '=')
  {
    if s == "" || s[0] == '=' then 0 else 1 + FirstEquals(s[1..])
  }

  /** A word is a field when it has an equals sign; its key ends at the first one. */
  function FieldOf(word: string): Option<Field> {
    var n := FirstEquals(word);
    if n == |word| then None else Some(Field(word[..n], word[n + 1..]))
  }

  function FieldsOf(words: seq<string>): Option<seq<Field>> {
    if words == [] then Some([])
    else
      match FieldOf(words[0])
      case None => None
      case Some(f) => match FieldsOf(words[1..]) case None => None case Some(fs) => Some([f] + fs)
  }

  function Parse(line: string): Option<seq<Field>> {
    match ReadLine(line) case None => None case Some(words) => FieldsOf(words)
  }

  // ----- what is read back ------------------------------------------------------------

  /** No character the reader gives a meaning of its own. */
  predicate Bare(s: string) {
    forall j :: 0 <= j < |s| ==> !Splits(s[j]) && s[j] !in "\"'\\"
  }

  predicate PlainKey(key: string) {
    Bare(key) && '=' !in key
  }

  lemma ThenNothing(w: Option<Word>)
    ensures Then("", w) == w
  {
    if w.Some? {
      assert "" + w.value.text == w.value.text;
    }
  }

  lemma ThenThen(s: string, t: string, w: Option<Word>)
    ensures Then(s, Then(t, w)) == Then(s + t, w)
  {
    if w.Some? {
      assert s + (t + w.value.text) == s + t + w.value.text;
    }
  }

  lemma WordStep(c: char, tail: string)
    ensures Bare([c]) ==> ReadWord([c] + tail) == Then([c], ReadWord(tail))
    ensures c == '\"' ==> ReadWord([c] + tail) == ReadQuoted(tail, c)
  {
    assert ([c] + tail)[1..] == tail;
    assert Bare([c]) ==> !Splits([c][0]) && [c][0] !in "\"'\\";
  }

  lemma QuotedStep(c: char, tail: string)
    ensures c !in "\"\\" ==> ReadQuoted([c] + tail, '\"') == Then([c], ReadQuoted(tail, '\"'))
    ensures c in "\"\\" ==> ReadQuoted(['\\', c] + tail, '\"') == Then([c], ReadQuoted(tail, '\"'))
    ensures c == '\"' ==> ReadQuoted([c] + tail, '\"') == ReadWord(tail)
  {
    assert ([c] + tail)[1..] == tail;
    assert (['\\', c] + tail)[2..] == tail;
  }

  lemma {:induction false} BareWord(s: string, rest: string)
    requires Bare(s)
    ensures ReadWord(s + rest) == Then(s, ReadWord(rest))
  {
    hide ReadWord, Then;
    if s == "" {
      assert s + rest == rest;
      ThenNothing(ReadWord(rest));
    } else {
      assert s + rest == [s[0]] + (s[1..] + rest) && s == [s[0]] + s[1..];
      WordStep(s[0], s[1..] + rest);
      BareWord(s[1..], rest);
      ThenThen([s[0]], s[1..], ReadWord(rest));
    }
  }

  /** Both replacements at once, one character at a time. */
  function Escaped(value: string): string {
    if value == "" then ""
    else (if value[0] in "\\\"" then ['\\', value[0]] else [value[0]]) + Escaped(value[1..])
  }

  lemma {:induction false} ReplaceAppend(s: string, t: string, c: char, to: string)
    ensures Replace(s + t, c, to) == Replace(s, c, to) + Replace(t, c, to)
  {
    if s == "" {
      assert s + t == t;
    } else {
      assert (s + t)[1..] == s[1..] + t;
      ReplaceAppend(s[1..], t, c, to);
    }
  }

  lemma {:induction false} EscapedIsBothReplacements(value: string)
    ensures Replace(Replace(value, '\\', "\\\\"), '\"', "\\\"") == Escaped(value)
  {
    if value != "" {
      EscapedIsBothReplacements(value[1..]);
      var head := if value[0] == '\\' then "\\\\" else [value[0]];
      ReplaceAppend(head, Replace(value[1..], '\\', "\\\\"), '\"', "\\\"");
      ReplaceOne(value[0]);
    }
  }

  lemma ReplaceOne(c: char)
    ensures Replace(if c == '\\' then "\\\\" else [c], '\"', "\\\"") == if c in "\\\"" then ['\\', c] else [c]
  {
    if c == '\\' {
      assert "\\\\"[1..] == "\\" && "\\"[1..] == "";
    } else {
      assert [c][1..] == "";
    }
  }

  lemma EscapedStep(value: string)
    requires value != ""
    ensures Escaped(value) == (if value[0] in "\"\\" then ['\\', value[0]] else [value[0]]) + Escaped(value[1..])
  {
  }

  lemma {:induction false} EscapedReads(value: string, rest: string)
    ensures ReadQuoted(Escaped(value) + "\"" + rest, '\"') == Then(value, ReadWord(rest))
  {
    hide ReadWord, ReadQuoted, Then;
    if value == "" {
      assert Escaped(value) + "\"" + rest == ['\"'] + rest;
      QuotedStep('\"', rest);
      ThenNothing(ReadWord(rest));
    } else {
      hide *;
      var c, tail := value[0], Escaped(value[1..]) + "\"" + rest;
      EscapedStep(value);
      assert Escaped(value) + "\"" + rest == (if c in "\"\\" then ['\\', c] else [c]) + tail;
      QuotedStep(c, tail);
      EscapedReads(value[1..], rest);
      ThenThen([c], value[1..], ReadWord(rest));
      assert [c] + value[1..] == value;
    }
  }

  lemma QuoteForm(value: string)
    ensures if NeedsQuotes(value) then Quote(value) == ['\"'] + (Escaped(value) + "\"")
            else Quote(value) == value && Bare(value)
  {
    EscapedIsBothReplacements(value);
  }

  /** Whatever the value, its quoted form reads as that value. */
  lemma QuoteReads(value: string, rest: string)
    ensures ReadWord(Quote(value) + rest) == Then(value, ReadWord(rest))
  {
    hide *;
    QuoteForm(value);
    if NeedsQuotes(value) {
      assert Quote(value) + rest == ['\"'] + (Escaped(value) + "\"" + rest);
      WordStep('\"', Escaped(value) + "\"" + rest);
      EscapedReads(value, rest);
    } else {
      BareWord(value, rest);
    }
  }

  /** A field whose key, and whose value where it goes unquoted, mean nothing to the reader. */
  predicate Readable(s: Shown) {
    PlainKey(s.field.key) && (s.raw ==> Bare(s.field.value))
  }

  function WordOf(f: Field): string {
    f.key + "=" + f.value
  }

  lemma PartReads(s: Shown, rest: string)
    requires Readable(s)
    ensures ReadWord(s.Part() + rest) == Then(WordOf(s.field), ReadWord(rest))
    ensures s.Part() != "" && !Splits(s.Part()[0])
  {
    hide ReadWord, Then, Quote;
    var key, value := s.field.key + "=", s.field.value;
    if s.raw {
      BareWord(WordOf(s.field), rest);
    } else {
      assert s.Part() + rest == key + (Quote(value) + rest);
      BareWord(key, Quote(value) + rest);
      QuoteReads(value, rest);
      ThenThen(key, value, ReadWord(rest));
    }
  }

  function Fields(shown: seq<Shown>): seq<Field> {
    if shown == [] then [] else [shown[0].field] + Fields(shown[1..])
  }

  function Words(shown: seq<Shown>): seq<string> {
    if shown == [] then [] else [WordOf(shown[0].field)] + Words(shown[1..])
  }

  lemma JoinStep(shown: seq<Shown>)
    requires shown != []
    ensures Join(Parts(shown)) == shown[0].Part() + (if |shown| == 1 then "" else " " + Join(Parts(shown[1..])))
  {
    assert Parts(shown)[1..] == Parts(shown[1..]);
  }

  lemma ReadLineStep(s: string)
    ensures s != "" && Splits(s[0]) ==> ReadLine(s) == ReadLine(s[1..])
    ensures s != "" && !Splits(s[0]) ==>
              ReadLine(s) == match ReadWord(s) case None => None case Some(w) => Before([w.text], ReadLine(w.rest))
  {
  }

  function Before(ws: seq<string>, more: Option<seq<string>>): Option<seq<string>> {
    match more case None => None case Some(vs) => Some(ws + vs)
  }

  lemma BeforeBefore(ws: seq<string>, vs: seq<string>, more: Option<seq<string>>)
    ensures Before(ws, Before(vs, more)) == Before(ws + vs, more)
  {
    if more.Some? {
      assert ws + (vs + more.value) == ws + vs + more.value;
    }
  }

  lemma WordEnds(rest: string)
    requires rest == "" || Splits(rest[0])
    ensures ReadWord(rest) == Some(Word("", if rest == "" then "" else rest[1..]))
    ensures ReadLine(rest) == ReadLine(if rest == "" then "" else rest[1..])
  {
  }

  lemma PartThenRest(s: Shown, rest: string)
    requires Readable(s) && (rest == "" || Splits(rest[0]))
    ensures ReadLine(s.Part() + rest) == Before([WordOf(s.field)], ReadLine(rest))
  {
    hide ReadWord, ReadLine, Readable, WordOf;
    PartReads(s, rest);
    assert (s.Part() + rest)[0] == s.Part()[0];
    ReadLineStep(s.Part() + rest);
    WordEnds(rest);
    assert WordOf(s.field) + "" == WordOf(s.field);
  }

  predicate AllReadable(shown: seq<Shown>) {
    shown == [] || (Readable(shown[0]) && AllReadable(shown[1..]))
  }

  lemma WordsStep(shown: seq<Shown>)
    requires shown != []
    ensures Words(shown) == [WordOf(shown[0].field)] + Words(shown[1..])
    ensures AllReadable(shown) == (Readable(shown[0]) && AllReadable(shown[1..]))
    ensures |shown| == 1 ==> Words(shown) == [WordOf(shown[0].field)]
  {
  }

  /** Whatever comes after the fields, the reader has them first, one word each. */
  lemma {:induction false} WordsComeFirst(shown: seq<Shown>, rest: string)
    requires shown != [] && AllReadable(shown) && (rest == "" || Splits(rest[0]))
    ensures ReadLine(Join(Parts(shown)) + rest) == Before(Words(shown), ReadLine(rest))
  {
    hide *;
    JoinStep(shown);
    WordsStep(shown);
    var first := shown[0].Part();
    if |shown| == 1 {
      PartThenRest(shown[0], rest);
      assert first + "" + rest == first + rest;
    } else {
      var tail := Join(Parts(shown[1..])) + rest;
      WordsComeFirst(shown[1..], rest);
      SpaceSplits(tail);
      PartThenRest(shown[0], " " + tail);
      assert first + (" " + Join(Parts(shown[1..]))) + rest == first + (" " + tail);
      BeforeBefore([WordOf(shown[0].field)], Words(shown[1..]), ReadLine(rest));
    }
  }

  lemma SpaceSplits(tail: string)
    ensures Splits((" " + tail)[0]) && ReadLine(" " + tail) == ReadLine(tail)
  {
    assert (" " + tail)[1..] == tail;
  }

  // ----- what cannot be read back -----------------------------------------------------

  function Read(s: string, mode: Option<char>): Option<Word> {
    match mode case None => ReadWord(s) case Some(quote) => ReadQuoted(s, quote)
  }

  predicate IsMode(mode: Option<char>) {
    mode.Some? ==> mode.value in "\"'"
  }

  /** Any text that is read has its first equals sign, if any, within `n` characters. */
  predicate EqualsWithin(w: Option<Word>, n: int) {
    w.Some? ==> FirstEquals(w.value.text) == |w.value.text| || FirstEquals(w.value.text) <= n
  }

  lemma ThenEquals(c: char, w: Option<Word>, n: int)
    requires n >= -1 && (EqualsWithin(w, n) || c == '=')
    ensures EqualsWithin(Then([c], w), n + 1)
  {
    if w.Some? {
      assert ([c] + w.value.text)[1..] == w.value.text;
    }
  }

  /** The reader's next step, over a string known from its first characters on. */
  lemma ReadStep(c: char, tail: string, mode: Option<char>)
    requires IsMode(mode)
    ensures var w := Read([c] + tail, mode);
            match mode
            case None =>
              if Splits(c) then w == Some(Word("", tail))
              else if c in "\"'" then w == Read(tail, Some(c))
              else if c != '\\' then w == Then([c], Read(tail, mode))
              else if tail == "" then w == None
              else w == Then([tail[0]], Read(tail[1..], mode))
            case Some(quote) =>
              if c == quote then w == Read(tail, None)
              else if c != '\\' || quote != '\"' then w == Then([c], Read(tail, mode))
              else if tail == "" then w == None
              else w == Then(if tail[0] in "\\\"" then [tail[0]] else [c, tail[0]], Read(tail[1..], mode))
  {
    var s := [c] + tail;
    assert s[1..] == tail;
    if tail != "" {
      assert s[2..] == tail[1..] && s[..2] == [c, tail[0]];
    }
  }

  lemma ThenTwo(c: char, d: char, w: Option<Word>)
    ensures Then([c, d], w) == Then([c], Then([d], w))
  {
    ThenThen([c], [d], w);
    assert [c] + [d] == [c, d];
  }

  lemma NothingYet(rest: string)
    ensures EqualsWithin(Some(Word("", rest)), -1) && EqualsWithin(None, -1)
  {
  }

  lemma WithinMore(w: Option<Word>, m: int, n: int)
    requires EqualsWithin(w, m) && m <= n
    ensures EqualsWithin(w, n)
  {
  }

  /** After an escape the reader has taken two characters of the key and shown at most two. */
  lemma EqualsAfterEscape(c: char, d: char, w: Option<Word>, n: int)
    requires n >= -1 && (EqualsWithin(w, n) || d == '=')
    ensures EqualsWithin(Then([d], w), n + 1) && EqualsWithin(Then([c, d], w), n + 2)
  {
    hide Then, EqualsWithin;
    ThenTwo(c, d, w);
    ThenEquals(d, w, n);
    ThenEquals(c, Then([d], w), n + 1);
  }

  /**
   Reading `key=...` shows the first equals sign no later than it stands, and sooner
   when the reader took one of the key's characters for its own.
   */
  lemma {:induction false} EqualsComes(key: string, tail: string, mode: Option<char>)
    requires IsMode(mode)
    ensures EqualsWithin(Read(key + "=" + tail, mode), |key|)
    ensures mode.None? && !Bare(key) ==> EqualsWithin(Read(key + "=" + tail, mode), |key| - 1)
    decreases |key|
  {
    hide Read, Then, FirstEquals, EqualsWithin;
    var n := |key| - if mode.None? && !Bare(key) then 1 else 0;
    if key == "" {
      assert key + "=" + tail == ['='] + tail;
      ReadStep('=', tail, mode);
      ThenEquals('=', Read(tail, mode), -1);
    } else {
      var c, more := key[0], key[1..] + "=" + tail;
      assert key + "=" + tail == [c] + more;
      ReadStep(c, more, mode);
      if mode.None? && Splits(c) {
        NothingYet(more);
        WithinMore(Read([c] + more, mode), -1, n);
      } else if mode.None? && c in "\"'" {
        EqualsComes(key[1..], tail, Some(c));
      } else if mode == Some(c) {
        EqualsComes(key[1..], tail, None);
        WithinMore(Read(more, None), |key| - 1, n);
      } else if c != '\\' || mode == Some('\'') {
        EqualsComes(key[1..], tail, mode);
        assert mode.None? && !Bare(key) ==> !Bare(key[1..]) by { BareStep(key); }
        ThenEquals(c, Read(more, mode), n - 1);
      } else {
        var d := more[0];
        if |key| > 1 {
          assert more[1..] == key[2..] + "=" + tail;
          EqualsComes(key[2..], tail, mode);
        }
        EqualsAfterEscape(c, d, Read(more[1..], mode), |key| - 2);
        WithinMore(Then([d], Read(more[1..], mode)), |key| - 1, n);
      }
      WithinMore(Read([c] + more, mode), n, |key|);
    }
  }

  lemma BareStep(s: string)
    requires s != ""
    ensures Bare(s) == (Bare(s[1..]) && !Splits(s[0]) && s[0] !in "\"'\\")
  {
    assert Bare(s) ==> forall j :: 0 <= j < |s| - 1 ==> s[1..][j] == s[j + 1];
    assert forall j :: 1 <= j < |s| ==> s[j] == s[1..][j - 1];
  }

  function Spaces(s: string): nat {
    if s == "" then 0 else (if s[0] == ' ' then 1 else 0) + Spaces(s[1..])
  }

  /** Any text that is read either stays within `n` characters or has more than `k` spaces. */
  predicate ShortOrSpaced(w: Option<Word>, n: int, k: int) {
    w.Some? ==> |w.value.text| <= n || Spaces(w.value.text) > k
  }

  lemma ThenSpaces(c: char, w: Option<Word>, n: int, k: int)
    requires ShortOrSpaced(w, n, k - (if c == ' ' then 1 else 0)) || (c == ' ' && k == 0)
    ensures ShortOrSpaced(Then([c], w), n + 1, k)
  {
    if w.Some? {
      assert ([c] + w.value.text)[1..] == w.value.text;
    }
  }

  lemma ShortMore(w: Option<Word>, m: int, n: int, k: int)
    requires ShortOrSpaced(w, m, k) && m <= n
    ensures ShortOrSpaced(w, n, k)
  {
  }

  lemma NothingShort(rest: string, n: nat, k: int)
    ensures ShortOrSpaced(Some(Word("", rest)), n, k) && ShortOrSpaced(None, n, k)
  {
  }

  lemma SpacesStep(s: string)
    requires s != ""
    ensures Spaces(s) == (if s[0] == ' ' then 1 else 0) + Spaces(s[1..])
    ensures |s| == 1 ==> Spaces(s) == if s[0] == ' ' then 1 else 0
  {
  }

  lemma SpacedAfterEscape(c: char, d: char, w: Option<Word>, n: int, k: int)
    requires c != ' ' && (ShortOrSpaced(w, n, k - (if d == ' ' then 1 else 0)) || (d == ' ' && k == 0))
    ensures ShortOrSpaced(Then([d], w), n + 1, k) && ShortOrSpaced(Then([c, d], w), n + 2, k)
  {
    hide Then, ShortOrSpaced;
    ThenTwo(c, d, w);
    ThenSpaces(d, w, n, k);
    ThenSpaces(c, Then([d], w), n + 1, k);
  }

  /**
   Reading `s` at the end of a line or before a space shows no more than its
   characters, and fewer when one of them was taken, or it reads past the space.
   */
  lemma {:induction false} NoneSpare(s: string, more: string, mode: Option<char>)
    requires IsMode(mode) && (more == "" || more[0] == ' ')
    ensures ShortOrSpaced(Read(s + more, mode), |s|, Spaces(s))
    ensures mode.None? && !Bare(s) ==> ShortOrSpaced(Read(s + more, mode), |s| - 1, Spaces(s))
    decreases |s|
  {
    hide Read, Then, ShortOrSpaced, Spaces;
    var n := |s| - if mode.None? && !Bare(s) then 1 else 0;
    if s == "" {
      assert s + more == more;
      NoneSpareAtEnd(more, mode);
    } else {
      var c, rest := s[0], s[1..] + more;
      assert s + more == [c] + rest;
      ReadStep(c, rest, mode);
      SpacesStep(s);
      if mode.None? && Splits(c) {
        NothingShort(rest, n, Spaces(s));
      } else if mode.None? && c in "\"'" {
        NoneSpare(s[1..], more, Some(c));
      } else if mode == Some(c) {
        NoneSpare(s[1..], more, None);
        ShortMore(Read(rest, None), |s| - 1, n, Spaces(s));
      } else if c != '\\' || mode == Some('\'') {
        NoneSpare(s[1..], more, mode);
        BareStep(s);
        ThenSpaces(c, Read(rest, mode), n - 1, Spaces(s));
      } else if rest == "" {
        NothingShort("", n, Spaces(s));
      } else {
        var d := rest[0];
        if |s| > 1 {
          SpacesStep(s[1..]);
          assert rest[1..] == s[2..] + more;
          NoneSpare(s[2..], more, mode);
        }
        SpacedAfterEscape(c, d, Read(rest[1..], mode), |s| - 2, Spaces(s));
        ShortMore(Then([d], Read(rest[1..], mode)), |s| - 1, n, Spaces(s));
      }
      ShortMore(Read([c] + rest, mode), n, |s|, Spaces(s));
    }
  }

  lemma NoneSpareAtEnd(more: string, mode: Option<char>)
    requires IsMode(mode) && (more == "" || more[0] == ' ')
    ensures ShortOrSpaced(Read(more, mode), 0, Spaces(""))
  {
    hide Then, ShortOrSpaced, Splits;
    if more == "" {
      NothingShort("", 0, 0);
    } else {
      assert more == [' '] + more[1..];
      ReadStep(' ', more[1..], mode);
      assert Splits(' ') by { SpaceSplits(""); }
      if mode.None? {
        NothingShort(more[1..], 0, 0);
      } else {
        ThenSpaces(' ', Read(more[1..], mode), -1, 0);
      }
    }
  }

  // ----- the round trip -----------------------------------------------------------------

  lemma {:induction false} FirstEqualsAfter(key: string, tail: string)
    requires '=' !in key
    ensures FirstEquals(key + "=" + tail) == |key|
  {
    if key != "" {
      assert (key + "=" + tail)[1..] == key[1..] + "=" + tail;
      FirstEqualsAfter(key[1..], tail);
    }
  }

  lemma FieldOfWord(f: Field)
    requires '=' !in f.key
    ensures FieldOf(WordOf(f)) == Some(f)
  {
    FirstEqualsAfter(f.key, f.value);
    assert WordOf(f)[..|f.key|] == f.key && WordOf(f)[|f.key| + 1..] == f.value;
  }

  lemma WordOfField(word: string)
    ensures FieldOf(word).Some? ==> var f := FieldOf(word).value; '=' !in f.key && WordOf(f) == word
    ensures forall n :: FieldOf(word).Some? && EqualsWithin(Some(Word(word, "")), n) ==> |FieldOf(word).value.key| <= n
  {
  }

  lemma {:induction false} FieldsOfWords(shown: seq<Shown>)
    requires AllReadable(shown)
    ensures FieldsOf(Words(shown)) == Some(Fields(shown))
  {
    if shown != [] {
      FieldOfWord(shown[0].field);
      FieldsOfWords(shown[1..]);
      assert Words(shown)[1..] == Words(shown[1..]);
    }
  }

  lemma FirstWord(s: string)
    requires s != "" && !Splits(s[0]) && ReadLine(s).Some?
    ensures ReadLine(s).value != [] && ReadWord(s).Some? && ReadWord(s).value.text == ReadLine(s).value[0]
  {
  }

  /** Leading separators are skipped, so the first word of a line cannot show them. */
  lemma {:induction false} EqualsInFirstWord(key: string, tail: string)
    requires ReadLine(key + "=" + tail).Some?
    ensures ReadLine(key + "=" + tail).value != []
    ensures EqualsWithin(Some(Word(ReadLine(key + "=" + tail).value[0], "")), |key|)
    ensures !Bare(key) ==> EqualsWithin(Some(Word(ReadLine(key + "=" + tail).value[0], "")), |key| - 1)
    ensures Bare(key) ==> ReadWord(key + "=" + tail).Some?
    ensures Bare(key) ==> ReadWord(key + "=" + tail).value.text == ReadLine(key + "=" + tail).value[0]
  {
    hide ReadLine, ReadWord;
    var s := key + "=" + tail;
    if key != "" && Splits(key[0]) {
      assert s[1..] == key[1..] + "=" + tail;
      ReadLineStep(s);
      EqualsInFirstWord(key[1..], tail);
    } else {
      FirstWord(s);
      EqualsComes(key, tail, None);
    }
  }

  lemma WholeValue(p: string, more: string)
    requires more == "" || more[0] == ' '
    requires ReadWord(p + more).Some? && ReadWord(p + more).value.text == p
    ensures Bare(p)
  {
    NoneSpare(p, more, None);
  }

  lemma BareTail(key: string, value: string)
    requires Bare(key + "=" + value)
    ensures Bare(value)
  {
    var s := key + "=" + value;
    assert forall j :: 0 <= j < |value| ==> value[j] == s[|key| + 1 + j];
  }

  lemma FirstPartMustBeReadable(s: Shown, more: string)
    requires more == "" || more[0] == ' '
    requires ReadLine(s.Part() + more).Some? && ReadLine(s.Part() + more).value != []
    requires FieldOf(ReadLine(s.Part() + more).value[0]) == Some(s.field)
    ensures Readable(s)
  {
    hide ReadLine, ReadWord, FieldOf, EqualsWithin, Quote, Bare;
    var f, tail := s.field, (if s.raw then s.field.value else Quote(s.field.value)) + more;
    assert s.Part() + more == f.key + "=" + tail;
    EqualsInFirstWord(f.key, tail);
    WordOfField(ReadLine(s.Part() + more).value[0]);
    if s.raw {
      WholeValue(s.Part(), more);
      BareTail(f.key, f.value);
    }
  }

  /** A line reads back as its fields iff every one of them is readable. */
  lemma {:induction false} ReadsBackIffReadable(shown: seq<Shown>)
    requires shown != []
    ensures Parse(Join(Parts(shown))) == Some(Fields(shown)) <==> AllReadable(shown)
  {
    if AllReadable(shown) {
      WordsComeFirst(shown, "");
      assert Join(Parts(shown)) + "" == Join(Parts(shown)) && Words(shown) + [] == Words(shown);
      FieldsOfWords(shown);
    } else if Parse(Join(Parts(shown))) == Some(Fields(shown)) {
      NotReadableIsNotRead(shown);
    }
  }

  lemma FieldsStep(words: seq<string>, shown: seq<Shown>)
    requires shown != [] && FieldsOf(words) == Some(Fields(shown))
    ensures words != [] && FieldOf(words[0]) == Some(shown[0].field) && FieldsOf(words[1..]) == Some(Fields(shown[1..]))
  {
    hide FieldOf;
    var f, fs := FieldOf(words[0]).value, FieldsOf(words[1..]).value;
    assert ([f] + fs)[0] == f && ([f] + fs)[1..] == fs;
    assert Fields(shown)[0] == shown[0].field && Fields(shown)[1..] == Fields(shown[1..]);
  }

  lemma {:induction false} NotReadableIsNotRead(shown: seq<Shown>)
    requires shown != [] && Parse(Join(Parts(shown))) == Some(Fields(shown))
    ensures AllReadable(shown)
  {
    hide ReadLine, Join, FieldOf, Readable, Words, AllReadable;
    var rest := Join(Parts(shown[1..]));
    var more := if |shown| == 1 then "" else " " + rest;
    JoinStep(shown);
    WordsStep(shown);
    FieldsStep(ReadLine(Join(Parts(shown))).value, shown);
    FirstPartMustBeReadable(shown[0], more);
    if |shown| > 1 {
      SpaceSplits(rest);
      PartThenRest(shown[0], more);
      assert ReadLine(Join(Parts(shown))).value[1..] == ReadLine(rest).value;
      NotReadableIsNotRead(shown[1..]);
    } else {
      assert AllReadable(shown[1..]) by { NoFieldsReadable(); }
    }
  }

  lemma NoFieldsReadable()
    ensures AllReadable([])
  {
  }

  lemma {:induction false} ReadableExtras(attrs: seq<Field>)
    ensures AllReadable(Extras(attrs)) <==> forall f :: f in attrs && CallerSupplied(f) ==> PlainKey(f.key)
  {
    if attrs != [] {
      ReadableExtras(attrs[..|attrs| - 1]);
      var last := attrs[|attrs| - 1];
      ReadableAppend(Extras(attrs[..|attrs| - 1]), if CallerSupplied(last) then [Shown(last, false)] else []);
      assert attrs == attrs[..|attrs| - 1] + [last];
    }
  }

  lemma {:induction false} ReadableAppend(a: seq<Shown>, b: seq<Shown>)
    ensures AllReadable(a + b) == (AllReadable(a) && AllReadable(b))
  {
    if a == [] {
      assert a + b == b;
    } else {
      assert (a + b)[1..] == a[1..] + b;
      ReadableAppend(a[1..], b);
    }
  }

  /**
   The reader gets back exactly the fields of a record, whatever its name, its
   message and the values of its extra fields, iff the keys of those extra fields
   are plain and the time stamp and level, which are written unquoted, are bare.
   */
  lemma RoundTrip(r: Record)
    ensures Parse(Join(Parts(Says(r)))) == Some(Fields(Says(r))) <==>
            Bare(r.ts) && Bare(r.level) && forall f :: f in r.attrs && CallerSupplied(f) ==> PlainKey(f.key)
  {
    hide Parse, Join, Bare, AllReadable, CallerSupplied;
    var first := [Shown(Field("ts", r.ts), true), Shown(Field("level", r.level), true),
                  Shown(Field("logger", r.name), false), Shown(Field("msg", r.message), false)];
    ReadsBackIffReadable(Says(r));
    ReadableAppend(first, Extras(r.attrs));
    ReadableExtras(r.attrs);
    FirstFour(r, first);
  }

  lemma FirstFour(r: Record, first: seq<Shown>)
    requires first == [Shown(Field("ts", r.ts), true), Shown(Field("level", r.level), true),
                       Shown(Field("logger", r.name), false), Shown(Field("msg", r.message), false)]
    ensures AllReadable(first) == (Bare(r.ts) && Bare(r.level))
  {
    hide Bare, AllReadable;
    PlainNames();
    WordsStep(first);
    WordsStep(first[1..]);
    WordsStep(first[2..]);
    WordsStep(first[3..]);
    NoFieldsReadable();
    assert first[1..][1..] == first[2..] && first[2..][1..] == first[3..] && first[3..][1..] == [];
  }

  lemma PlainNames()
    ensures PlainKey("ts") && PlainKey("level") && PlainKey("logger") && PlainKey("msg")
  {
  }

  /** With a traceback or a stack appended, the fields still come first. */
  lemma TrailerComesAfter(r: Record)
    requires AllReadable(Says(r))
    ensures var trailer := Trailer(r.exception) + Trailer(r.stack);
            ReadLine(Join(Parts(Says(r))) + trailer) == Before(Words(Says(r)), ReadLine(trailer))
  {
    WordsComeFirst(Says(r), Trailer(r.exception) + Trailer(r.stack));
  }
}
