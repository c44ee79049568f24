/*
 * The environment of an interactive session: the `KEY=VALUE` lines of a
 * service's environment file, with command-line values merged over them.
 */
module EnvFile {
  import opened Wrappers
  import opened Text
  import opened Scriptify

  /** PHP `empty` on a string: the empty string and "0" are both empty. */
  predicate IsEmpty(s: string) {
    s == "" || s == "0"
  }

  const ExportPrefix := "export "

  /** The line with an `export ` prefix dropped, if it has one. */
  function Unexported(line: string): string {
    if StartsWith(line, ExportPrefix) then line[|ExportPrefix|..] else line
  }

  /**
   * One pair of surrounding double or single quotes removed. A value that is a
   * lone quote character both starts and ends with it and becomes empty.
   */
  function Unquote(value: string): (r: string)
    ensures |r| <= |value|
    // a value changes only when it starts and ends with the same quote character
    ensures r != value ==>
              value != [] && (value[0] == '"' || value[0] == '\'') && value[|value| - 1] == value[0]
  {
    if (StartsWith(value, "\"") && EndsWith(value, "\"")) || (StartsWith(value, "'") && EndsWith(value, "'")) then
      if |value| >= 2 then value[1..|value| - 1] else ""
    else
      value
  }

  /** A value between matching quotes comes out as it was written, quotes and spaces inside included. */
  lemma UnquoteQuoted(q: char, v: string)
    requires q == '"' || q == '\''
    ensures Unquote([q] + v + [q]) == v
  {
    var w := [q] + v + [q];
    assert w[1..|w| - 1] == v;
  }

  /** A value that does not start and end with the same quote character is kept whole. */
  lemma UnquoteUnquoted(v: string)
    requires !(v != [] && (v[0] == '"' || v[0] == '\'') && v[|v| - 1] == v[0])
    ensures Unquote(v) == v
  {
    if v != [] {
      assert StartsWith(v, "\"") ==> v[0] == '"';
      assert StartsWith(v, "'") ==> v[0] == '\'';
      assert EndsWith(v, "\"") ==> v[|v| - 1] == '"';
      assert EndsWith(v, "'") ==> v[|v| - 1] == '\'';
    }
  }

  datatype Entry = Entry(key: string, value: string)

  /**
   * One line of the file: blank lines, "0", comments and lines without `=`
   * define nothing; otherwise the trimmed text before the first `=` is the key
   * and the trimmed, unquoted text after it the value.
   */
  function ParseLine(raw: string): (r: Option<Entry>)
    ensures r.Some? ==> '=' !in r.value.key && Trim(r.value.key) == r.value.key
  {
    var line := Trim(raw);
    if IsEmpty(line) || StartsWith(line, "#") then None else ParseDefinition(Unexported(line))
  }

  /** `KEY=VALUE` split at the first `=`, both sides trimmed and the value unquoted. */
  function ParseDefinition(body: string): (r: Option<Entry>)
    ensures r.Some? <==> '=' in body
    // a key holds no `=` and is already trimmed
    ensures r.Some? ==> '=' !in r.value.key && Trim(r.value.key) == r.value.key
  {
    if '=' !in body then None
    else
      var at := IndexOf(body, '=');
      TrimAddsNothing(body[..at], '=');
      TrimIdempotent(body[..at]);
      Some(Entry(Trim(body[..at]), Unquote(Trim(body[at + 1..]))))
  }

  /** Blank lines, "0", comments and lines without `=` define nothing. */
  lemma ParseLineSkips(raw: string)
    requires '=' !in raw || IsEmpty(Trim(raw)) || StartsWith(Trim(raw), "#")
    ensures ParseLine(raw).None?
  {
    if '=' !in raw {
      TrimAddsNothing(raw, '=');
      var line := Trim(raw);
      assert Unexported(line) == line || Unexported(line) == line[7..];
      assert ParseDefinition(Unexported(line)).None?;
    }
  }

  /** `line` is read as a definition of `key`. */
  predicate Defines(line: string, key: string) {
    DefinesKey(ParseLine(line), key)
  }

  predicate DefinesKey(d: Option<Entry>, key: string) {
    d.Some? && d.value.key == key
  }

  /** What each line defines, line by line. */
  function Definitions(lines: seq<string>): (ds: seq<Option<Entry>>)
    ensures |ds| == |lines|
  {
    seq(|lines|, i requires 0 <= i < |lines| => ParseLine(lines[i]))
  }

  /** The definitions applied in order, each overwriting an earlier one of the same key. */
  function Collect(ds: seq<Option<Entry>>): map<string, string>
    decreases |ds|
  {
    if ds == [] then map[]
    else
      var env := Collect(ds[..|ds| - 1]);
      match ds[|ds| - 1]
      case None => env
      case Some(e) => env[e.key := e.value]
  }

  /** The lines read in order. */
  function ParseLines(lines: seq<string>): map<string, string> {
    Collect(Definitions(lines))
  }

  /** The file's contents (`None` when it cannot be read) split into lines and read. */
  function ParseContent(content: Option<string>): map<string, string> {
    if content.None? then map[] else ParseLines(Split(content.value, '\n'))
  }

  /** The file reader, one line at a time. */
  method ParseEnvFile(content: Option<string>) returns (environment: map<string, string>)
    ensures environment == ParseContent(content)
  {
    environment := map[];
    if content.None? {
      return;
    }
    var lines := Split(content.value, '\n');
    var i := 0;
    while i < |lines|
      invariant 0 <= i <= |lines|
      invariant environment == ParseLines(lines[..i])
    {
      ParseLinesStep(lines, i);
      var entry := ReadLine(lines[i]);
      if entry.Some? {
        environment := environment[entry.value.key := entry.value.value];
      }
      i := i + 1;
    }
    assert lines[..i] == lines;
  }

  /** The body of the reader's loop: what one line defines. */
  method ReadLine(raw: string) returns (entry: Option<Entry>)
    ensures entry == ParseLine(raw)
  {
    var line := Trim(raw);
    if IsEmpty(line) || StartsWith(line, "#") {
      return None;
    }
    if StartsWith(line, ExportPrefix) {
      line := line[7..];
    }
    assert ParseLine(raw) == ParseDefinition(line) by {
      assert line == Unexported(Trim(raw));
    }
    if '=' !in line {
      return None;
    }
    var at := IndexOf(line, '=');
    var key := Trim(line[..at]);
    var value := Trim(line[at + 1..]);
    value := Unquote(value);
    return Some(Entry(key, value));
  }

  /** Reading one more line applies that line's definition, if any, to what was read before. */
  lemma ParseLinesStep(lines: seq<string>, i: int)
    requires 0 <= i < |lines|
    ensures ParseLines(lines[..i + 1]) ==
              match ParseLine(lines[i])
              case None => ParseLines(lines[..i])
              case Some(e) => ParseLines(lines[..i])[e.key := e.value]
  {
    assert Definitions(lines[..i + 1])[..i] == Definitions(lines[..i]);
  }

  /** A key is collected exactly when some definition names it. */
  lemma {:induction false} CollectedKeys(ds: seq<Option<Entry>>, key: string)
    ensures key in Collect(ds) <==> exists i :: 0 <= i < |ds| && DefinesKey(ds[i], key)
    decreases |ds|
  {
    if ds != [] {
      var n := |ds| - 1;
      var init := ds[..n];
      CollectedKeys(init, key);
      if key in Collect(ds) && !DefinesKey(ds[n], key) {
        var i :| 0 <= i < |init| && DefinesKey(init[i], key);
        assert ds[i] == init[i];
      }
      if exists i :: 0 <= i < |ds| && DefinesKey(ds[i], key) {
        var i :| 0 <= i < |ds| && DefinesKey(ds[i], key);
        if i < n {
          assert init[i] == ds[i];
        }
      }
    }
  }

  /** A key takes the value of the last definition that names it. */
  lemma {:induction false} LastCollectedWins(ds: seq<Option<Entry>>, i: int, key: string)
    requires 0 <= i < |ds| && DefinesKey(ds[i], key)
    requires forall j :: i < j < |ds| ==> !DefinesKey(ds[j], key)
    ensures key in Collect(ds) && Collect(ds)[key] == ds[i].value.value
    decreases |ds|
  {
    var init := ds[..|ds| - 1];
    if i < |ds| - 1 {
      assert init[i] == ds[i];
      forall j | i < j < |init|
        ensures !DefinesKey(init[j], key)
      {
        assert init[j] == ds[j];
      }
      LastCollectedWins(init, i, key);
      assert !DefinesKey(ds[|ds| - 1], key);
    }
  }

  /** A key is read exactly when some line defines it. */
  lemma ParsedKeys(lines: seq<string>, key: string)
    ensures key in ParseLines(lines) <==> exists i :: 0 <= i < |lines| && Defines(lines[i], key)
  {
    var ds := Definitions(lines);
    CollectedKeys(ds, key);
    if key in ParseLines(lines) {
      var i :| 0 <= i < |ds| && DefinesKey(ds[i], key);
      assert Defines(lines[i], key);
    }
    if exists i :: 0 <= i < |lines| && Defines(lines[i], key) {
      var i :| 0 <= i < |lines| && Defines(lines[i], key);
      assert DefinesKey(ds[i], key);
    }
  }

  /** A key takes the value of the last line that defines it: later lines overwrite earlier ones. */
  lemma LastDefinitionWins(lines: seq<string>, i: int, key: string)
    requires 0 <= i < |lines| && Defines(lines[i], key)
    requires forall j :: i < j < |lines| ==> !Defines(lines[j], key)
    ensures key in ParseLines(lines) && ParseLines(lines)[key] == ParseLine(lines[i]).value.value
  {
    var ds := Definitions(lines);
    forall j | i < j < |ds|
      ensures !DefinesKey(ds[j], key)
    {
      assert !Defines(lines[j], key);
    }
    LastCollectedWins(ds, i, key);
  }

  /**
   * A variable written as `key="value"`, as the service command line sets it,
   * with or without an `export ` prefix, is read back as that key and value,
   * provided the key is a plain word: not empty, not a comment, and holding no
   * `=` and no trim character.
   */
  lemma ParseAssignment(key: string, value: string)
    requires key != [] && key[0] != '#'
    requires forall c <- key :: c != '=' && !IsTrimChar(c)
    ensures ParseLine(Assignment(key, value)) == Some(Entry(key, value))
    ensures ParseLine(ExportPrefix + Assignment(key, value)) == Some(Entry(key, value))
  {
    var line := Assignment(key, value);
    var quoted := "\"" + value + "\"";
    assert line == key + "=" + quoted;
    assert quoted[1..|quoted| - 1] == value;
    AssignmentDefinition(key, quoted, line);
    PlainLine(key, line);
    ExportedLine(line);
  }

  /** A key written as one word: not empty, not a comment, and holding no `=` and no trim character. */
  predicate PlainKey(key: string) {
    key != [] && key[0] != '#' && forall c <- key :: c != '=' && !IsTrimChar(c)
  }

  /**
   * A `KEY=VALUE` line padded with trim characters anywhere around the key,
   * the `=` and the value, with or without a leading `export `, is read as
   * that key and that value unquoted. Without the prefix the one exception is
   * the key `export` followed by a space, which is taken for the prefix.
   */
  lemma ParsePaddedLine(a: string, key: string, b: string, c: string, value: string, d: string)
    requires Padding(a) && Padding(b) && Padding(c) && Padding(d)
    requires PlainKey(key)
    requires value == [] || (!IsTrimChar(value[0]) && !IsTrimChar(value[|value| - 1]))
    ensures ParseLine(a + ExportPrefix + key + b + "=" + c + value + d) == Some(Entry(key, Unquote(value)))
    ensures !(key == "export" && b != [] && b[0] == ' ') ==>
              ParseLine(a + key + b + "=" + c + value + d) == Some(Entry(key, Unquote(value)))
  {
    var plain := a + key + b + "=" + c + value + d;
    var exported := a + ExportPrefix + key + b + "=" + c + value + d;
    var bare := !(key == "export" && b != [] && b[0] == ' ');
    Regroup(a, key, b, c, value, d);
    if value == [] {
      // the padding after `=` joins the trailing padding
      var text := key + b + "=";
      assert Padding(c + d) by { assert forall x <- c + d :: x in c || x in d; }
      assert key + b + "=" + [] + [] == text;
      PaddedDefinition(key, b, [], []);
      assert text[..|key| + |b|] == key + b && text[|key| + |b|] == '=';
      assert exported == a + ExportPrefix + text + (c + d);
      ExportedPaddedLine(a, text, c + d);
      if bare {
        assert plain == a + text + (c + d);
        PaddedLine(a, key, b, text, c + d);
      }
    } else {
      var text := key + b + "=" + c + value;
      assert text[|text| - 1] == value[|value| - 1];
      PaddedDefinition(key, b, c, value);
      assert text[..|key| + |b|] == key + b && text[|key| + |b|] == '=';
      assert exported == a + ExportPrefix + text + d;
      ExportedPaddedLine(a, text, d);
      if bare {
        assert plain == a + text + d;
        PaddedLine(a, key, b, text, d);
      }
    }
  }

  /** The line as prefix, text and trailing padding. */
  lemma Regroup(a: string, key: string, b: string, c: string, value: string, d: string)
    ensures a + key + b + "=" + c + value + d == a + (key + b + "=" + c + value) + d
    ensures a + ExportPrefix + key + b + "=" + c + value + d == a + ExportPrefix + (key + b + "=" + c + value) + d
    ensures value == [] ==> a + key + b + "=" + c + value + d == a + (key + b + "=") + (c + d)
    ensures value == [] ==> a + ExportPrefix + key + b + "=" + c + value + d == a + ExportPrefix + (key + b + "=") + (c + d)
  {
  }

  /** The definition parser reads a padded `KEY=VALUE` as the key and the unquoted value. */
  lemma PaddedDefinition(key: string, b: string, c: string, value: string)
    requires Padding(b) && Padding(c) && PlainKey(key)
    requires value == [] || (!IsTrimChar(value[0]) && !IsTrimChar(value[|value| - 1]))
    ensures ParseDefinition(key + b + "=" + c + value) == Some(Entry(key, Unquote(value)))
  {
    var body := key + b + "=" + c + value;
    var at := |key| + |b|;
    assert body[..at] == key + b && body[at] == '=';
    assert '=' !in key + b by {
      assert forall x <- key + b :: x in key || x in b;
    }
    IndexOfAt(body, '=', at);
    assert body[at + 1..] == c + value;
    assert key[|key| - 1] in key;
    TrimPadded([], key, b);
    assert [] + key + b == key + b;
    TrimPadded(c, value, []);
    assert c + value + [] == c + value;
  }

  /** Without a prefix, a padded line whose text ends with no trim character reaches the definition parser. */
  lemma PaddedLine(a: string, key: string, b: string, body: string, d: string)
    requires Padding(a) && Padding(b) && Padding(d) && PlainKey(key)
    requires |body| > |key| + |b| && body[..|key| + |b|] == key + b && body[|key| + |b|] == '='
    requires !IsTrimChar(body[|body| - 1])
    requires !(key == "export" && b != [] && b[0] == ' ')
    ensures ParseLine(a + body + d) == ParseDefinition(body)
  {
    assert key[0] in key && body[0] == key[0];
    TrimPadded(a, body, d);
    NotExportedPadded(key, b, body);
    assert !IsEmpty(body) by { assert |body| >= 2; }
    assert !StartsWith(body, "#") by { assert body[..1][0] == key[0]; }
  }

  /** With the prefix, a padded line whose text ends with no trim character reaches the definition parser. */
  lemma ExportedPaddedLine(a: string, body: string, d: string)
    requires Padding(a) && Padding(d) && body != [] && !IsTrimChar(body[|body| - 1])
    ensures ParseLine(a + ExportPrefix + body + d) == ParseDefinition(body)
  {
    var e := ExportPrefix + body;
    assert e[0] == 'e' && e[|e| - 1] == body[|body| - 1];
    assert a + ExportPrefix + body + d == a + e + d;
    TrimPadded(a, e, d);
    assert e[..7] == ExportPrefix && e[7..] == body;
    assert !IsEmpty(e) by { assert |e| >= 8; }
    assert !StartsWith(e, "#") by { assert e[..1][0] == 'e'; }
  }

  /** A line starting with a plain key, padding and `=` is not taken as exported, unless the key is `export` and a space follows. */
  lemma NotExportedPadded(key: string, b: string, body: string)
    requires PlainKey(key) && Padding(b)
    requires |body| > |key| + |b| && body[..|key| + |b|] == key + b && body[|key| + |b|] == '='
    requires !(key == "export" && b != [] && b[0] == ' ')
    ensures !StartsWith(body, ExportPrefix)
  {
    if |body| >= 7 {
      var m := |key|;
      if m >= 7 {
        assert key[6] in key && body[6] == key[6];
        assert body[..7][6] != ExportPrefix[6];
      } else if m == 6 && b != [] && b[0] == ' ' {
        assert body[..6] == key;
        assert key != ExportPrefix[..6];
        assert body[..7][..6] != ExportPrefix[..6];
      } else {
        if b != [] {
          assert b[0] in b && body[m] == b[0];
        } else {
          assert body[m] == '=';
        }
        assert body[..7][m] != ExportPrefix[m];
      }
    }
  }

  /** The assignment is read by the definition parser. */
  lemma AssignmentDefinition(key: string, quoted: string, line: string)
    requires forall c <- key :: c != '=' && !IsTrimChar(c)
    requires |quoted| >= 2 && quoted[0] == '"' && quoted[|quoted| - 1] == '"'
    requires line == key + "=" + quoted
    ensures ParseDefinition(line) == Some(Entry(key, quoted[1..|quoted| - 1]))
  {
    assert line[..|key|] == key && line[|key|] == '=';
    IndexOfAt(line, '=', |key|);
    assert line[|key| + 1..] == quoted;
    if key != [] {
      TrimKeeps(key);
    }
    TrimKeeps(quoted);
    UnquoteQuoted('"', quoted[1..|quoted| - 1]);
    assert [quoted[0]] + quoted[1..|quoted| - 1] + [quoted[|quoted| - 1]] == quoted;
  }

  /** Without a prefix the assignment line reaches the definition parser whole. */
  lemma PlainLine(key: string, line: string)
    requires key != [] && key[0] != '#'
    requires forall c <- key :: c != '=' && !IsTrimChar(c)
    requires |line| >= |key| + 2 && line[..|key|] == key && line[|key|] == '=' && line[|line| - 1] == '"'
    ensures ParseLine(line) == ParseDefinition(line)
  {
    assert key[0] in key;
    assert line[0] == key[0];
    TrimKeeps(line);
    NotExported(key, line);
    assert !IsEmpty(line) by { assert |line| >= 3; }
    assert !StartsWith(line, "#") by { assert line[..1][0] == key[0]; }
  }

  /** With the `export ` prefix the same line reaches the definition parser. */
  lemma ExportedLine(line: string)
    requires line != [] && line[|line| - 1] == '"'
    ensures ParseLine(ExportPrefix + line) == ParseDefinition(line)
  {
    var exported := ExportPrefix + line;
    assert exported[0] == 'e' && exported[|exported| - 1] == '"';
    TrimKeeps(exported);
    assert exported[..7] == ExportPrefix;
    assert exported[7..] == line;
    assert !IsEmpty(exported) by { assert |exported| >= 8; }
    assert !StartsWith(exported, "#") by { assert exported[..1][0] == 'e'; }
  }

  lemma NotExported(key: string, line: string)
    requires forall c <- key :: c != '=' && !IsTrimChar(c)
    requires |line| > |key| && line[..|key|] == key && line[|key|] == '='
    ensures !StartsWith(line, ExportPrefix)
  {
    if |line| >= 7 {
      if |key| >= 7 {
        assert key[6] in key;
        assert line[..7][6] != ExportPrefix[6];
      } else {
        assert line[..7][|key|] != ExportPrefix[|key|];
      }
    }
  }

  // ---------------------------------------------------------------------------
  // The session environment

  /**
   * The variables from the environment file of the named service: nothing
   * without a service name or when the file does not exist. `files` maps each
   * existing path to its contents, `None` when it cannot be read.
   */
  function FileEnvironment(serviceName: Option<string>, files: map<string, Option<string>>): map<string, string> {
    if serviceName.None? then map[]
    else
      var path := EnvironmentFile(serviceName.value);
      if path in files then ParseContent(files[path]) else map[]
  }

  /**
   * The session environment: the file's variables, with the command-line
   * options (decoded by `decode` from their `&`-joined form) overriding them
   * key by key when any option is given.
   */
  function LoadEnvironment(serviceName: Option<string>, files: map<string, Option<string>>,
                           envOptions: seq<string>, decode: string -> map<string, string>): (r: map<string, string>)
    ensures var fromFile := FileEnvironment(serviceName, files);
            var fromOptions := if envOptions == [] then map[] else decode(Join("&", envOptions));
            && (forall k :: k in r <==> k in fromFile || k in fromOptions)
            && (forall k | k in fromOptions :: r[k] == fromOptions[k])
            && (forall k | k in fromFile && k !in fromOptions :: r[k] == fromFile[k])
  {
    var environment := FileEnvironment(serviceName, files);
    if envOptions != [] then environment + decode(Join("&", envOptions)) else environment
  }
}
