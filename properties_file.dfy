/**
 * A reader for the properties text that `template.properties` holds. The tool's own
 * reader (`common.GetGaugeConfigurationFor`) is not part of this model; this one reads
 * the format the registry writes: lines separated by `\n`, blank lines and lines that
 * start with `#` carry nothing, and any other line is `key = value`, split at its first
 * `=` with one space taken off either side. A later line for the same key wins.
 */
module PropertiesFile {
  import opened Strings

  /** A key that survives a write and a read: one line, no `=`, not a comment. */
  predicate WellFormedKey(k: string) {
    '\n' !in k && '=' !in k && (k == [] || k[0] != '#')
  }

  /** A value that survives a write and a read: one line. */
  predicate WellFormedValue(v: string) {
    '\n' !in v
  }

  predicate WellFormed(config: map<string, string>) {
    forall k :: k in config ==> WellFormedKey(k) && WellFormedValue(config[k])
  }

  function DropTrailingSpace(s: string): string {
    if s != [] && s[|s| - 1] == ' ' then s[..|s| - 1] else s
  }

  function DropLeadingSpace(s: string): string {
    if s != [] && s[0] == ' ' then s[1..] else s
  }

  /** The entry one line defines, if any. */
  function ParseLine(line: string): (m: map<string, string>)
    ensures |m.Keys| <= 1
  {
    if line == [] || line[0] == '#' then map[]
    else
      var i := IndexOf(line, '=');
      if i == |line| then map[]
      else map[DropTrailingSpace(line[..i]) := DropLeadingSpace(line[i + 1..])]
  }

  /** The entries of a whole text, line by line; later lines override earlier ones. */
  function Parse(text: string): map<string, string>
    decreases |text|
  {
    if text == [] then map[]
    else
      var i := IndexOf(text, '\n');
      if i == |text| then ParseLine(text)
      else ParseLine(text[..i]) + Parse(text[i + 1..])
  }

  /** Reading a text line by line: the first line, then the rest. */
  lemma ParseNextLine(line: string, rest: string)
    requires '\n' !in line
    ensures Parse(line + "\n" + rest) == ParseLine(line) + Parse(rest)
  {
    var text := line + "\n" + rest;
    assert text[|line|] == '\n';
    forall j | 0 <= j < |line| ensures text[j] != '\n' {
      assert text[j] == line[j];
    }
    assert IndexOf(text, '\n') == |line|;
    assert text[..|line|] == line;
    assert text[|line| + 1..] == rest;
  }

  /** A line that defines nothing can be skipped. */
  lemma SkipLine(line: string, rest: string)
    requires '\n' !in line && ParseLine(line) == map[]
    ensures Parse(line + "\n" + rest) == Parse(rest)
  {
    ParseNextLine(line, rest);
  }

  /** A `#` line with no line break in it can be skipped. */
  lemma SkipComment(c: string, rest: string)
    requires '\n' !in c
    ensures Parse("#" + c + "\n" + rest) == Parse(rest)
  {
    ParseComment(c);
    SkipLine("#" + c, rest);
  }

  /** A `#` line is a comment. */
  lemma ParseComment(c: string)
    ensures ParseLine("#" + c) == map[]
  {
  }

  /** The line the registry writes for an entry reads back as that entry. */
  lemma ParseAssignment(k: string, v: string)
    requires WellFormedKey(k)
    ensures ParseLine(k + " = " + v) == map[k := v]
  {
    var line := k + " = " + v;
    assert line[|k|] == ' ' && line[|k| + 1] == '=';
    forall j | 0 <= j < |k| + 1 ensures line[j] != '=' {
      if j < |k| {
        assert line[j] == k[j];
      }
    }
    assert IndexOf(line, '=') == |k| + 1;
    assert line[..|k| + 1] == k + " ";
    assert line[|k| + 2..] == " " + v;
    assert line[0] != '#' by {
      if k != [] {
        assert line[0] == k[0];
      }
    }
  }

  /** A line splits at its first `=`, whatever follows it. */
  lemma ParseAtFirstEquals(k: string, rest: string)
    requires WellFormedKey(k) && k != [] && k[|k| - 1] != ' '
    requires rest != [] && rest[0] != ' '
    ensures ParseLine(k + "=" + rest) == map[k := rest]
  {
    var line := k + "=" + rest;
    forall j | 0 <= j < |k| ensures line[j] != '=' {
      assert line[j] == k[j];
    }
    assert line[|k|] == '=';
    assert IndexOf(line, '=') == |k|;
    assert line[..|k|] == k;
    assert line[|k| + 1..] == rest;
    assert line[0] == k[0];
  }

  /** Whatever a line yields is well formed. */
  lemma ParseLineWellFormed(line: string)
    requires '\n' !in line
    ensures WellFormed(ParseLine(line))
  {
    if line != [] && line[0] != '#' {
      var i := IndexOf(line, '=');
      if i < |line| {
        var k := DropTrailingSpace(line[..i]);
        var v := DropLeadingSpace(line[i + 1..]);
        assert forall c :: c in k ==> c in line[..i];
        assert forall c :: c in v ==> c in line;
        assert '=' !in line[..i];
        if k != [] {
          assert k[0] == line[0];
        }
      }
    }
  }

  /** Whatever a text yields is well formed, so it can be written back unchanged. */
  lemma {:induction false} ParseWellFormed(text: string)
    ensures WellFormed(Parse(text))
    decreases |text|
  {
    if text != [] {
      var i := IndexOf(text, '\n');
      if i == |text| {
        ParseLineWellFormed(text);
      } else {
        assert '\n' !in text[..i];
        ParseLineWellFormed(text[..i]);
        ParseWellFormed(text[i + 1..]);
      }
    }
  }
}
