/** The plain-text configuration file of the command-line client: a parser that
    reads `key: value` lines into a map and picks out the two credentials, and a
    serialiser that writes them back as two such lines. File access is left to
    the caller: the parser takes the file's content, the serialiser returns it. */
module ConfigFile {
  import opened Text

  /** The stored credentials. */
  datatype Config = Config(apiKey: string, authToken: string)

  const ApiKeyName: string := "api_key"
  const AuthTokenName: string := "auth_token"

  /** The configuration written into a freshly created file: both fields empty. */
  function DefaultConfig(): Config {
    Config("", "")
  }

  // ---------------------------------------------------------------------------
  // Parsing

  /** One line of the file: split at its first colon, both halves trimmed.
      A line without a colon holds no entry. */
  function ParseLine(line: string): Option<(string, string)>
  {
    match SplitOnce(line, ':')
    case None => None
    case Some((key, value)) => Some((Trim(key), Trim(value)))
  }

  /** A line holds an entry exactly when it has a colon; the stored key and
      value are trimmed, and the key holds no colon. */
  lemma ParseLineShape(line: string)
    ensures ParseLine(line).None? <==> ':' !in line
    ensures ParseLine(line).Some? ==>
      var (key, value) := ParseLine(line).value;
      IsTrimmed(key) && IsTrimmed(value) && ':' !in key
  {
    SplitOnceSpec(line, ':');
    if ':' in line {
      var (key, value) := SplitOnce(line, ':').value;
      TrimSpec(key);
      TrimSpec(value);
      TrimKeeps(key, ':');
    }
  }

  /** A character missing from a line is missing from the value it stores. */
  lemma ParseLineKeeps(line: string, c: char)
    requires c !in line && ParseLine(line).Some?
    ensures c !in ParseLine(line).value.1
  {
    SplitOnceSpec(line, ':');
    var (key, value) := SplitOnce(line, ':').value;
    TrimKeeps(value, c);
  }

  /** `line` stores an entry under `key`. */
  predicate Defines(line: string, key: string) {
    ParseLine(line).Some? && ParseLine(line).value.0 == key
  }

  /** `m` after the entry of `line`, if it has one, is inserted (overwriting). */
  function Insert(m: map<string, string>, line: string): map<string, string> {
    match ParseLine(line)
    case None => m
    case Some((key, value)) => m[key := value]
  }

  /** The map the lines build when each entry is inserted in turn, so that a
      later entry overwrites an earlier one under the same key. */
  function BuildMap(lines: seq<string>): map<string, string>
  {
    if lines == [] then map[]
    else Insert(BuildMap(lines[..|lines| - 1]), lines[|lines| - 1])
  }

  /** Unfolding `BuildMap` at a line appended to any prefix. */
  lemma BuildMapSnoc(lines: seq<string>, line: string)
    ensures BuildMap(lines + [line]) == Insert(BuildMap(lines), line)
  {
    assert (lines + [line])[..|lines|] == lines;
  }

  /** The stored value, or the empty string for a missing key. */
  function Lookup(m: map<string, string>, key: string): string {
    if key in m then m[key] else ""
  }

  /** The configuration the given lines describe. */
  function ConfigOf(lines: seq<string>): Config {
    var m := BuildMap(lines);
    Config(Lookup(m, ApiKeyName), Lookup(m, AuthTokenName))
  }

  /** The configuration a file with this content describes. */
  function ParseConfig(content: string): Config {
    ConfigOf(Lines(content))
  }

  /** Reads the configuration from the file's content: every line with a colon
      is inserted into a map, then the two known keys are looked up. */
  method ReadConfig(content: string) returns (config: Config)
    ensures config == ParseConfig(content)
    ensures WellFormed(config)
  {
    var lines := Lines(content);
    var configMap: map<string, string> := map[];
    var i := 0;
    while i < |lines|
      invariant 0 <= i <= |lines|
      invariant configMap == BuildMap(lines[..i])
    {
      var line := lines[i];
      assert lines[..i + 1][..i] == lines[..i];
      var parts := SplitOnce(line, ':');
      if parts.Some? {
        var (key, value) := parts.value;
        configMap := configMap[Trim(key) := Trim(value)];
      }
      i := i + 1;
    }
    assert lines[..i] == lines;
    var apiKey := if ApiKeyName in configMap then configMap[ApiKeyName] else "";
    var authToken := if AuthTokenName in configMap then configMap[AuthTokenName] else "";
    config := Config(apiKey, authToken);
    ParsedIsWellFormed(content);
  }

  // ---------------------------------------------------------------------------
  // Serialising

  /** The content written to the file: the two entries on two lines, with no
      line break after the second. */
  function ConfigContent(config: Config): string {
    ApiKeyName + ": " + config.apiKey + "\n" + AuthTokenName + ": " + config.authToken
  }

  /** A configuration the file format can hold: no field contains a line break
      or starts or ends with whitespace. */
  predicate WellFormed(config: Config) {
    && '\n' !in config.apiKey && IsTrimmed(config.apiKey)
    && '\n' !in config.authToken && IsTrimmed(config.authToken)
  }

  // ---------------------------------------------------------------------------
  // Properties of the parser

  /** Independent reference for one key: the value on the last line defining
      it, scanning from the end, or the empty string when no line does. */
  function LastValue(lines: seq<string>, key: string): string {
    if lines == [] then ""
    else if Defines(lines[|lines| - 1], key) then ParseLine(lines[|lines| - 1]).value.1
    else LastValue(lines[..|lines| - 1], key)
  }

  /** Unfolding `LastValue` at a line appended to any prefix. */
  lemma LastValueSnoc(lines: seq<string>, line: string, key: string)
    ensures LastValue(lines + [line], key)
         == if Defines(line, key) then ParseLine(line).value.1 else LastValue(lines, key)
  {
    assert (lines + [line])[..|lines|] == lines;
  }

  /** The map holds a key exactly when some line defines it. */
  lemma {:induction false} BuildMapKeys(lines: seq<string>, key: string)
    ensures key in BuildMap(lines) <==> exists i :: 0 <= i < |lines| && Defines(lines[i], key)
  {
    if lines != [] {
      var init, last := lines[..|lines| - 1], lines[|lines| - 1];
      assert lines == init + [last];
      BuildMapKeys(init, key);
      BuildMapSnoc(init, last);
      InsertEffect(BuildMap(init), last, key);
      if !Defines(last, key) {
        NoNewDefinition(init, last, key);
      }
    }
  }

  /** The value read for a key is that of the last line defining it, or the
      empty string when no line does. */
  lemma {:induction false} BuildMapIsLastValue(lines: seq<string>, key: string)
    ensures Lookup(BuildMap(lines), key) == LastValue(lines, key)
  {
    if lines != [] {
      var init, last := lines[..|lines| - 1], lines[|lines| - 1];
      BuildMapIsLastValue(init, key);
      InsertEffect(BuildMap(init), last, key);
    }
  }

  /** One insertion: the line either sets the key or leaves it alone. */
  lemma InsertEffect(m: map<string, string>, line: string, key: string)
    ensures if Defines(line, key) then
        key in Insert(m, line) && Insert(m, line)[key] == ParseLine(line).value.1
      else
        (key in Insert(m, line) <==> key in m) && Lookup(Insert(m, line), key) == Lookup(m, key)
  {
  }

  /** A key defined somewhere in `init + [last]` but not on `last` is defined
      in `init`. */
  lemma NoNewDefinition(init: seq<string>, last: string, key: string)
    requires !Defines(last, key)
    ensures (exists i :: 0 <= i < |init| + 1 && Defines((init + [last])[i], key))
        <==> (exists i :: 0 <= i < |init| && Defines(init[i], key))
  {
    var lines := init + [last];
    if exists i :: 0 <= i < |lines| && Defines(lines[i], key) {
      var i :| 0 <= i < |lines| && Defines(lines[i], key);
      assert init[i] == lines[i];
    }
    if exists i :: 0 <= i < |init| && Defines(init[i], key) {
      var i :| 0 <= i < |init| && Defines(init[i], key);
      assert lines[i] == init[i];
    }
  }

  /** The line with the last entry for a key decides its value. */
  lemma {:induction false} LastOccurrenceWins(lines: seq<string>, i: nat, key: string)
    requires i < |lines| && Defines(lines[i], key)
    requires forall j :: i < j < |lines| ==> !Defines(lines[j], key)
    ensures key in BuildMap(lines)
    ensures BuildMap(lines)[key] == ParseLine(lines[i]).value.1
  {
    BuildMapKeys(lines, key);
    BuildMapIsLastValue(lines, key);
    LastValueAt(lines, i, key);
  }

  /** The reference scan stops at the last line defining the key. */
  lemma {:induction false} LastValueAt(lines: seq<string>, i: nat, key: string)
    requires i < |lines| && Defines(lines[i], key)
    requires forall j :: i < j < |lines| ==> !Defines(lines[j], key)
    ensures LastValue(lines, key) == ParseLine(lines[i]).value.1
    decreases |lines|
  {
    if i < |lines| - 1 {
      var init := lines[..|lines| - 1];
      assert init[i] == lines[i];
      forall j | i < j < |init| ensures !Defines(init[j], key) {
        assert init[j] == lines[j];
      }
      LastValueAt(init, i, key);
    }
  }

  /** A key that no line defines is read as the empty string. */
  lemma {:induction false} MissingKeyIsEmpty(lines: seq<string>, key: string)
    requires forall i :: 0 <= i < |lines| ==> !Defines(lines[i], key)
    ensures key !in BuildMap(lines)
    ensures Lookup(BuildMap(lines), key) == ""
  {
    BuildMapKeys(lines, key);
  }

  /** A line without a colon changes nothing, wherever it stands. */
  lemma {:induction false} LineWithoutColonIgnored(xs: seq<string>, line: string, ys: seq<string>)
    requires ':' !in line
    ensures BuildMap(xs + [line] + ys) == BuildMap(xs + ys)
    decreases |ys|
  {
    ParseLineShape(line);
    if ys == [] {
      assert xs + [line] + ys == xs + [line];
      assert xs + ys == xs;
      BuildMapSnoc(xs, line);
    } else {
      var ys', y := ys[..|ys| - 1], ys[|ys| - 1];
      assert xs + [line] + ys == (xs + [line] + ys') + [y];
      assert xs + ys == (xs + ys') + [y];
      BuildMapSnoc(xs + [line] + ys', y);
      BuildMapSnoc(xs + ys', y);
      LineWithoutColonIgnored(xs, line, ys');
    }
  }

  /** A line that does not define a key leaves the value read for it alone. */
  lemma {:induction false} OtherKeyIgnored(xs: seq<string>, line: string, ys: seq<string>, key: string)
    requires !Defines(line, key)
    ensures LastValue(xs + [line] + ys, key) == LastValue(xs + ys, key)
    decreases |ys|
  {
    if ys == [] {
      assert xs + [line] + ys == xs + [line];
      assert xs + ys == xs;
      LastValueSnoc(xs, line, key);
    } else {
      var ys', y := ys[..|ys| - 1], ys[|ys| - 1];
      assert xs + [line] + ys == (xs + [line] + ys') + [y];
      assert xs + ys == (xs + ys') + [y];
      LastValueSnoc(xs + [line] + ys', y, key);
      LastValueSnoc(xs + ys', y, key);
      OtherKeyIgnored(xs, line, ys', key);
    }
  }

  /** A line that stores neither credential does not affect the configuration. */
  predicate Irrelevant(line: string) {
    !Defines(line, ApiKeyName) && !Defines(line, AuthTokenName)
  }

  /** Lines for other keys, or without any entry, are ignored wherever they stand. */
  lemma IrrelevantLineIgnored(xs: seq<string>, line: string, ys: seq<string>)
    requires Irrelevant(line)
    ensures ConfigOf(xs + [line] + ys) == ConfigOf(xs + ys)
  {
    BuildMapIsLastValue(xs + [line] + ys, ApiKeyName);
    BuildMapIsLastValue(xs + ys, ApiKeyName);
    BuildMapIsLastValue(xs + [line] + ys, AuthTokenName);
    BuildMapIsLastValue(xs + ys, AuthTokenName);
    OtherKeyIgnored(xs, line, ys, ApiKeyName);
    OtherKeyIgnored(xs, line, ys, AuthTokenName);
  }

  /** The same on file content: inserting a line for another key (or one with no
      colon) at the start of any line leaves the parsed configuration unchanged. */
  lemma InsertedLineIgnored(before: string, line: string, after: string)
    requires before == [] || before[|before| - 1] == '\n'
    requires '\n' !in line && Irrelevant(StripCr(line))
    ensures ParseConfig(before + line + "\n" + after) == ParseConfig(before + after)
  {
    FirstLine(line, after);
    var xs: seq<string>;
    if before == [] {
      xs := [];
      assert before + line + "\n" + after == line + "\n" + after;
      assert before + after == after;
    } else {
      var b := before[..|before| - 1];
      assert before == b + "\n";
      assert before + line + "\n" + after == b + "\n" + (line + "\n" + after);
      assert before + after == b + "\n" + after;
      LinesConcat(b, line + "\n" + after);
      LinesConcat(b, after);
      xs := Lines(before);
    }
    assert Lines(before + line + "\n" + after) == xs + [StripCr(line)] + Lines(after);
    assert Lines(before + after) == xs + Lines(after);
    IrrelevantLineIgnored(xs, StripCr(line), Lines(after));
  }

  /** Appending a line for another key (or one with no colon) after the last
      line of a file, as an edit of a file that has no final line break does,
      leaves the parsed configuration unchanged. */
  lemma AppendedLineIgnored(content: string, line: string)
    requires content == [] || content[|content| - 1] != '\r'
    requires '\n' !in line && Irrelevant(line)
    ensures ParseConfig(content + "\n" + line) == ParseConfig(content)
  {
    var xs := Lines(content);
    LinesConcat(content, line);
    LinesAppendBreak(content);
    SingleLine(line);
    var tail := if line == [] then [] else [line];
    assert Lines(content + "\n" + line) == Lines(content + "\n") + tail;
    if tail != [] {
      IrrelevantLineIgnored(Lines(content + "\n"), line, []);
      assert Lines(content + "\n") + [line] + [] == Lines(content + "\n") + tail;
      assert Lines(content + "\n") + [] == Lines(content + "\n");
    } else {
      assert Lines(content + "\n") + tail == Lines(content + "\n");
    }
    if Lines(content + "\n") != xs {
      assert Irrelevant("");
      IrrelevantLineIgnored(xs, "", []);
      assert xs + [""] + [] == xs + [""];
      assert xs + [] == xs;
    }
  }

  /** Whatever the content, the parsed fields contain no line break and are
      trimmed, so the parser only produces well-formed configurations. */
  lemma ParsedIsWellFormed(content: string)
    ensures WellFormed(ParseConfig(content))
  {
    var lines := Lines(content);
    LinesHaveNoBreak(content);
    forall key | key == ApiKeyName || key == AuthTokenName
      ensures '\n' !in Lookup(BuildMap(lines), key) && IsTrimmed(Lookup(BuildMap(lines), key))
    {
      BuildMapIsLastValue(lines, key);
      LastValueShape(lines, key);
    }
  }

  /** The value found for a key is trimmed and, when no line holds a line
      break, holds none either. */
  lemma {:induction false} LastValueShape(lines: seq<string>, key: string)
    requires forall k :: 0 <= k < |lines| ==> '\n' !in lines[k]
    ensures '\n' !in LastValue(lines, key) && IsTrimmed(LastValue(lines, key))
  {
    if lines != [] {
      var last := lines[|lines| - 1];
      if Defines(last, key) {
        ParseLineShape(last);
        ParseLineKeeps(last, '\n');
      } else {
        LastValueShape(lines[..|lines| - 1], key);
      }
    }
  }

  /** Whitespace around the key and around the value is not stored: a line
      `w1 key w2 : w3 value w4` holds exactly the entry `(key, value)`. */
  lemma SpacedEntry(w1: string, key: string, w2: string, w3: string, value: string, w4: string)
    requires AllWhitespace(w1) && AllWhitespace(w2) && AllWhitespace(w3) && AllWhitespace(w4)
    requires IsTrimmed(key) && IsTrimmed(value) && ':' !in w1 + key + w2
    ensures ParseLine(w1 + key + w2 + ":" + w3 + value + w4) == Some((key, value))
  {
    assert w1 + key + w2 + ":" + w3 + value + w4 == (w1 + key + w2) + [':'] + (w3 + value + w4);
    SplitOnceAt(w1 + key + w2, ':', w3 + value + w4);
    TrimOf(w1, key, w2);
    TrimOf(w3, value, w4);
  }

  /** The example of a spaced-out line: key and value lose the spaces around them. */
  lemma SpacedLineExample()
    ensures ParseLine("  api_key :  abc  ") == Some(("api_key", "abc"))
  {
    assert "  api_key :  abc  " == "  " + "api_key" + " " + ":" + "  " + "abc" + "  ";
    SpacedEntry("  ", "api_key", " ", "  ", "abc", "  ");
  }

  /** A value keeps every colon after the first one on its line. */
  lemma ValueKeepsColons(key: string, value: string)
    requires ':' !in key && IsTrimmed(key) && IsTrimmed(value)
    ensures ParseLine(key + ": " + value) == Some((key, value))
  {
    assert key + ": " + value == "" + key + "" + ":" + " " + value + "";
    SpacedEntry("", key, "", " ", value, "");
  }

  // ---------------------------------------------------------------------------
  // Properties of the serialiser and the round trip

  /** The content is two lines, one per field, and ends in no line break. */
  lemma ContentLines(config: Config)
    requires '\n' !in config.apiKey && '\n' !in config.authToken
    ensures Lines(ConfigContent(config))
         == [StripCr(ApiKeyName + ": " + config.apiKey), AuthTokenName + ": " + config.authToken]
    ensures ConfigContent(config)[|ConfigContent(config)| - 1] != '\n'
  {
    var first := ApiKeyName + ": " + config.apiKey;
    var second := AuthTokenName + ": " + config.authToken;
    assert ConfigContent(config) == first + "\n" + second;
    assert '\n' !in first;
    assert '\n' !in second;
    FirstLine(first, second);
    SingleLine(second);
    assert ConfigContent(config)[|ConfigContent(config)| - 1] == second[|second| - 1];
  }

  /** Round trip: reading back what was written gives the same configuration,
      exactly when the configuration is well formed. */
  lemma RoundTrip(config: Config)
    ensures ParseConfig(ConfigContent(config)) == config <==> WellFormed(config)
  {
    if WellFormed(config) {
      var first := ApiKeyName + ": " + config.apiKey;
      var second := AuthTokenName + ": " + config.authToken;
      assert Lines(ConfigContent(config)) == [first, second] by {
        ContentLines(config);
        assert StripCr(first) == first by {
          if config.apiKey == [] { assert first[|first| - 1] == ' '; }
          else { assert first[|first| - 1] == config.apiKey[|config.apiKey| - 1]; }
        }
      }
      ValueKeepsColons(ApiKeyName, config.apiKey);
      ValueKeepsColons(AuthTokenName, config.authToken);
      TwoEntries(first, second, config);
    } else {
      ParsedIsWellFormed(ConfigContent(config));
    }
  }

  /** A line for each credential, in that order, gives exactly those credentials. */
  lemma TwoEntries(first: string, second: string, config: Config)
    requires ParseLine(first) == Some((ApiKeyName, config.apiKey))
    requires ParseLine(second) == Some((AuthTokenName, config.authToken))
    ensures ConfigOf([first, second]) == config
  {
    assert [] + [first] == [first];
    BuildMapSnoc([], first);
    assert [first] + [second] == [first, second];
    BuildMapSnoc([first], second);
  }

  /** The configuration written into a new file reads back unchanged. */
  lemma DefaultRoundTrip()
    ensures ParseConfig(ConfigContent(DefaultConfig())) == DefaultConfig()
  {
    RoundTrip(DefaultConfig());
  }

  /** Writing what was read and reading it again changes nothing. */
  lemma RewriteIsStable(content: string)
    ensures ParseConfig(ConfigContent(ParseConfig(content))) == ParseConfig(content)
  {
    ParsedIsWellFormed(content);
    RoundTrip(ParseConfig(content));
  }
}
