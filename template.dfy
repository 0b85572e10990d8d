/**
 * The template registry of `template/template.go`: a map from template name to its
 * property (key, download location, description), the sorted list of its names,
 * lookup with suggestions, validated updates, the `template.properties` text, the
 * built-in defaults and their merge with the persisted overrides.
 */
module Template {
  import opened Wrappers
  import opened Strings
  import opened Urls
  import opened Versions
  import PropertiesFile

  /**
   * `comment`: the second header line of `template.properties`. It is written in pieces
   * because the verifier can rule out a line break only in a short literal.
   */
  const Comment := "This file contains Gauge " + "template configurations." + " Do not delete"

  /** `config.Property`. */
  datatype Property = Property(key: string, value: string, description: string)

  /** The shape of `closestmatch.New(names, []int{2}).ClosestN(k, n)`, which is not part of this model. */
  type Matcher = (seq<string>, string, nat) -> seq<string>

  datatype TemplateError =
    | InvalidLocation(key: string)                        // `update` with a value the URI parser rejects
    | NotFound(key: string, suggestions: seq<string>)     // `get` on a missing name

  /** The two fixed parts of `getProperty`'s description format. */
  const DescriptionPrefix := "Template download information for gauge "
  const DescriptionSuffix := " projects"

  /** The description every template entry carries. */
  function Description(name: string): string {
    DescriptionPrefix + name + DescriptionSuffix
  }

  function NotFoundText(key: string): string {
    "cannot find a Gauge template '" + key + "'"
  }

  /** The text of each error, as `fmt.Errorf` builds it. */
  function Message(e: TemplateError): (m: string)
    ensures e.NotFound? ==> (m == NotFoundText(e.key) <==> e.suggestions == [])
    ensures e.NotFound? ==> NotFoundText(e.key) <= m
  {
    match e
    case InvalidLocation(k) =>
      "Failed to add template '" + k + "'. The template location must be a valid (https) URI"
    case NotFound(k, ms) =>
      if ms == [] then NotFoundText(k)
      else
        var m := NotFoundText(k) + ".\nThe most similar template names are\n\n\t" + Join(ms, "\n\t");
        assert |m| > |NotFoundText(k)|;
        assert m[..|NotFoundText(k)|] == NotFoundText(k);
        m
  }

  // ---------------------------------------------------------------------------------
  // Entries and the merge of persisted overrides
  // ---------------------------------------------------------------------------------

  /** The property `update` stores for `k`: the old one with a new value, or a new one. */
  function Updated(m: map<string, Property>, k: string, v: string): Property {
    if k in m then m[k].(value := v) else Property(k, v, Description(k))
  }

  /** What `update(k, v, _)` does to the map once validation has passed. */
  function Put(m: map<string, Property>, k: string, v: string): (r: map<string, Property>)
    ensures r.Keys == m.Keys + {k}
    ensures r[k].value == v
    ensures k in m ==> r[k].key == m[k].key && r[k].description == m[k].description
    ensures k !in m ==> r[k].key == k && r[k].description == Description(k)
    ensures forall j :: j in m && j != k ==> r[j] == m[j]
  {
    m[k := Updated(m, k, v)]
  }

  /** `base` with every configured value applied, as `mergeTemplates`' loop of updates leaves it. */
  function Overlay(base: map<string, Property>, config: map<string, string>): (m: map<string, Property>)
    ensures m.Keys == base.Keys + config.Keys
    ensures forall k :: k in config ==> m[k].value == config[k]
    ensures forall k :: k in base && k !in config ==> m[k] == base[k]
    ensures forall k :: k in base && k in config ==>
              m[k].key == base[k].key && m[k].description == base[k].description
    ensures forall k :: k in config && k !in base ==> m[k] == Property(k, config[k], Description(k))
  {
    map k | k in base.Keys + config.Keys :: if k in config then Updated(base, k, config[k]) else base[k]
  }

  function Restrict(config: map<string, string>, keys: set<string>): map<string, string> {
    map k | k in config && k in keys :: config[k]
  }

  lemma RestrictNone(config: map<string, string>)
    ensures Restrict(config, config.Keys - config.Keys) == map[]
  {
  }

  lemma RestrictAll(config: map<string, string>)
    ensures Restrict(config, config.Keys - {}) == config
  {
  }

  /** Taking one more key `k` of `config` into the restriction adds its entry. */
  lemma RestrictStep(config: map<string, string>, pending: set<string>, k: string)
    requires k in pending && pending <= config.Keys
    ensures Restrict(config, config.Keys - (pending - {k}))
            == Restrict(config, config.Keys - pending)[k := config[k]]
  {
  }

  /** With nothing configured, the overlay is the base. */
  lemma OverlayEmpty(base: map<string, Property>)
    ensures Overlay(base, map[]) == base
  {
  }

  /** Updating a merged map is the merge of the updated configuration. */
  lemma OverlayPut(base: map<string, Property>, config: map<string, string>, k: string, v: string)
    ensures Put(Overlay(base, config), k, v) == Overlay(base, config[k := v])
  {
    var l := Put(Overlay(base, config), k, v);
    var r := Overlay(base, config[k := v]);
    assert l.Keys == r.Keys;
    forall j | j in l ensures l[j] == r[j] {
      if j == k {
        if k in base {
          assert Overlay(base, config)[k].key == base[k].key;
          assert Overlay(base, config)[k].description == base[k].description;
        }
      }
    }
  }

  /** `getProperty`: the built-in entry for one runtime language. */
  function GetProperty(repoName: string, templateName: string): (p: Property)
    ensures p.key == templateName && p.description == Description(templateName)
  {
    var url := ReleasesHost + repoName + LatestDownload + templateName + ".zip";
    Property(templateName, url, Description(templateName))
  }

  /** The fixed parts of `getProperty`'s download location format. */
  const ReleasesHost := "https://github.com/getgauge/"
  const LatestDownload := "/releases/latest/download/"

  /** The runtime languages that have a built-in template. */
  const Languages: seq<string> := ["dotnet", "java", "js", "python", "ruby", "ts"]

  /** The download location of a built-in template, by the repository naming convention. */
  function BuiltinUrl(language: string): string {
    ReleasesHost + "template-" + language + LatestDownload + language + ".zip"
  }

  /** The map literal of `defaults`. */
  function DefaultsMap(): map<string, Property> {
    map[
      "dotnet" := GetProperty("template-dotnet", "dotnet"),
      "java" := GetProperty("template-java", "java"),
      "js" := GetProperty("template-js", "js"),
      "python" := GetProperty("template-python", "python"),
      "ruby" := GetProperty("template-ruby", "ruby"),
      "ts" := GetProperty("template-ts", "ts")
    ]
  }

  /** A built-in entry is `getProperty` of the language's repository, `template-<language>`. */
  lemma BuiltinProperty(language: string)
    ensures GetProperty("template-" + language, language) == Property(language, BuiltinUrl(language), Description(language))
  {
  }

  /** The built-in entries: one per language, keyed by it, pointing at its release archive. */
  lemma DefaultsAreBuiltins()
    ensures DefaultsMap().Keys == set l | l in Languages
    ensures forall l :: l in Languages ==>
              DefaultsMap()[l] == Property(l, BuiltinUrl(l), Description(l))
  {
    var d := DefaultsMap();
    assert d.Keys == {"dotnet", "java", "js", "python", "ruby", "ts"};
    forall l | l in Languages ensures l in d && d[l] == Property(l, BuiltinUrl(l), Description(l)) {
      BuiltinProperty(l);
      if l == "dotnet" {
        assert "template-dotnet" == "template-" + l;
      } else if l == "java" {
        assert "template-java" == "template-" + l;
      } else if l == "js" {
        assert "template-js" == "template-" + l;
      } else if l == "python" {
        assert "template-python" == "template-" + l;
      } else if l == "ruby" {
        assert "template-ruby" == "template-" + l;
      } else {
        assert l == "ts";
        assert "template-ts" == "template-" + l;
      }
    }
  }

  /** The effective registry: the defaults, then the loaded configuration when loading succeeded. */
  function MergedMap(loaded: Option<map<string, string>>): map<string, Property> {
    match loaded
    case None => DefaultsMap()
    case Some(config) => Overlay(DefaultsMap(), config)
  }

  /** What `mergeTemplates` promises about the registry it builds. */
  lemma MergedRegistry(loaded: Option<map<string, string>>)
    ensures forall l :: l in Languages ==> l in MergedMap(loaded)
    ensures forall l :: l in Languages && (loaded.None? || l !in loaded.value) ==>
              MergedMap(loaded)[l] == Property(l, BuiltinUrl(l), Description(l))
    ensures loaded.Some? ==> forall k :: k in loaded.value ==> MergedMap(loaded)[k].value == loaded.value[k]
    ensures loaded.Some? ==> MergedMap(loaded).Keys == DefaultsMap().Keys + loaded.value.Keys
    ensures loaded.None? ==> MergedMap(loaded) == DefaultsMap()
    ensures forall k :: k in MergedMap(loaded) ==> MergedMap(loaded)[k].key == k
  {
    DefaultsAreBuiltins();
  }

  // ---------------------------------------------------------------------------------
  // Suggestions
  // ---------------------------------------------------------------------------------

  /** The non-empty elements of `s`, in order. */
  function NonEmpty(s: seq<string>): (r: seq<string>)
    ensures "" !in r
    ensures |r| <= |s|
    ensures forall m :: m != "" ==> multiset(r)[m] == multiset(s)[m]
    decreases |s|
  {
    if s == [] then []
    else
      var init := s[..|s| - 1];
      var last := s[|s| - 1];
      assert s == init + [last];
      NonEmpty(init) + (if last != "" then [last] else [])
  }

  /** `closestMatch`: the matcher's answers without the empty ones, in ascending order. */
  function Suggestions(found: seq<string>): (r: seq<string>)
    ensures Sorted(r)
    ensures "" !in r
    ensures |r| <= |found|
    ensures forall m :: m != "" ==> multiset(r)[m] == multiset(found)[m]
  {
    var kept := NonEmpty(found);
    var r := SortStrings(kept);
    assert |r| == |multiset(r)| == |multiset(kept)| == |kept|;
    assert multiset(r)[""] == multiset(kept)[""] == 0;
    r
  }

  /** When the matcher keeps its contract (at most `n` answers, each a known name or ""), so do the suggestions. */
  lemma SuggestionsAreKnownNames(names: seq<string>, found: seq<string>, n: nat)
    requires |found| <= n
    requires forall m :: m in found ==> m == "" || m in names
    ensures |Suggestions(found)| <= n
    ensures forall m :: m in Suggestions(found) ==> m in names
  {
    forall m | m in Suggestions(found) ensures m in names {
      assert multiset(Suggestions(found))[m] > 0;
      assert m != "";
      assert m in multiset(found);
    }
  }

  // ---------------------------------------------------------------------------------
  // The `template.properties` text
  // ---------------------------------------------------------------------------------

  lemma CommentOneLine()
    ensures '\n' !in Comment
  {
    assert '\n' !in "This file contains Gauge ";
    assert '\n' !in "template configurations.";
    assert '\n' !in " Do not delete";
  }

  function Header(fullVersion: string): string {
    "# Version " + fullVersion + "\n# " + Comment + "\n"
  }

  /** The block `String` writes for one property. */
  function Block(p: Property): string {
    "\n# " + p.description + "\n" + p.key + " = " + p.value + "\n"
  }

  /** The blocks of `names`, in order. */
  function Blocks(names: seq<string>, m: map<string, Property>): string
    requires forall n :: n in names ==> n in m
    decreases |names|
  {
    if names == [] then "" else Block(m[names[0]]) + Blocks(names[1..], m)
  }

  lemma {:induction false} BlocksSnoc(names: seq<string>, n: string, m: map<string, Property>)
    requires forall x :: x in names ==> x in m
    requires n in m
    ensures Blocks(names + [n], m) == Blocks(names, m) + Block(m[n])
    decreases |names|
  {
    if names == [] {
      assert [n][1..] == [];
    } else {
      assert (names + [n])[1..] == names[1..] + [n];
      BlocksSnoc(names[1..], n, m);
    }
  }

  lemma Associative(a: string, b: string, c: string)
    ensures (a + b) + c == a + (b + c)
  {
  }

  /** One more name's block, as `String`'s loop adds it. */
  lemma BlocksPrefix(names: seq<string>, i: nat, m: map<string, Property>)
    requires i < |names|
    requires forall x :: x in names ==> x in m
    ensures Blocks(names[..i + 1], m) == Blocks(names[..i], m) + Block(m[names[i]])
  {
    assert names[..i + 1] == names[..i] + [names[i]];
    BlocksSnoc(names[..i], names[i], m);
  }

  /** The whole text `String` produces for a registry whose map is `m`. */
  ghost function Render(fullVersion: string, m: map<string, Property>): string {
    Header(fullVersion) + Blocks(SortedKeys(m.Keys), m)
  }

  /** A registry map whose text reads back: each entry keyed by its own key, everything on one line. */
  ghost predicate Writable(m: map<string, Property>) {
    forall k :: k in m ==>
      && m[k].key == k
      && PropertiesFile.WellFormedKey(k)
      && PropertiesFile.WellFormedValue(m[k].value)
      && '\n' !in m[k].description
  }

  /** The values of a registry map: what its text should read back as. */
  function Values(m: map<string, Property>): map<string, string> {
    map k | k in m :: m[k].value
  }

  lemma AssignmentOneLine(k: string, v: string)
    requires '\n' !in k && '\n' !in v
    ensures '\n' !in k + " = " + v
  {
    assert '\n' !in " = ";
  }

  /** A block is three lines: a blank one, the description comment and the assignment. */
  lemma BlockLines(p: Property, rest: string)
    ensures Block(p) + rest
            == "" + "\n" + (("# " + p.description) + "\n" + ((p.key + " = " + p.value) + "\n" + rest))
  {
  }

  lemma BlockParse(p: Property, rest: string)
    requires PropertiesFile.WellFormedKey(p.key)
    requires '\n' !in p.description
    requires '\n' !in p.value
    ensures PropertiesFile.Parse(Block(p) + rest) == map[p.key := p.value] + PropertiesFile.Parse(rest)
  {
    var comment := "# " + p.description;
    var assignment := p.key + " = " + p.value;
    var second := assignment + "\n" + rest;
    var first := comment + "\n" + second;
    BlockLines(p, rest);
    PropertiesFile.SkipLine("", first);
    CommentBlockLine(p.description, second);
    AssignmentOneLine(p.key, p.value);
    PropertiesFile.ParseNextLine(assignment, rest);
    PropertiesFile.ParseAssignment(p.key, p.value);
  }

  lemma CommentBlockLine(description: string, rest: string)
    requires '\n' !in description
    ensures PropertiesFile.Parse(("# " + description) + "\n" + rest) == PropertiesFile.Parse(rest)
  {
    assert ("# " + description) + "\n" + rest == "#" + (" " + description) + "\n" + rest;
    PropertiesFile.SkipComment(" " + description, rest);
  }

  /** The entries the blocks of `names` define, first to last. */
  function BlockValues(names: seq<string>, m: map<string, Property>): map<string, string>
    requires forall n :: n in names ==> n in m
    decreases |names|
  {
    if names == [] then map[] else map[names[0] := m[names[0]].value] + BlockValues(names[1..], m)
  }

  lemma {:induction false} BlocksParse(names: seq<string>, m: map<string, Property>)
    requires forall n :: n in names ==> n in m
    requires Writable(m)
    ensures PropertiesFile.Parse(Blocks(names, m)) == BlockValues(names, m)
    decreases |names|
  {
    if names != [] {
      BlockParse(m[names[0]], Blocks(names[1..], m));
      BlocksParse(names[1..], m);
    }
  }

  lemma {:induction false} BlockValuesAreValues(names: seq<string>, m: map<string, Property>)
    requires forall n :: n in names ==> n in m
    ensures BlockValues(names, m) == map n | n in names :: m[n].value
    decreases |names|
  {
    if names != [] {
      BlockValuesAreValues(names[1..], m);
      var l := BlockValues(names, m);
      var r := map n | n in names :: m[n].value;
      assert forall x :: x in names <==> x == names[0] || x in names[1..];
      assert l.Keys == r.Keys;
    }
  }

  /** The header is two comment lines. */
  lemma HeaderLines(fullVersion: string, rest: string)
    ensures Header(fullVersion) + rest
            == "#" + (" Version " + fullVersion) + "\n" + ("#" + (" " + Comment) + "\n" + rest)
  {
  }

  lemma VersionOneLine(fullVersion: string)
    requires '\n' !in fullVersion
    ensures '\n' !in " Version " + fullVersion
  {
    assert '\n' !in " Version ";
  }

  lemma HeaderParse(fullVersion: string, rest: string)
    requires '\n' !in fullVersion
    ensures PropertiesFile.Parse(Header(fullVersion) + rest) == PropertiesFile.Parse(rest)
  {
    HeaderLines(fullVersion, rest);
    VersionOneLine(fullVersion);
    CommentOneLine();
    assert '\n' !in " " + Comment;
    PropertiesFile.SkipComment(" Version " + fullVersion, "#" + (" " + Comment) + "\n" + rest);
    PropertiesFile.SkipComment(" " + Comment, rest);
  }

  /** Reading the written text back yields every key with its value. */
  lemma RenderParse(fullVersion: string, m: map<string, Property>)
    requires '\n' !in fullVersion
    requires Writable(m)
    ensures PropertiesFile.Parse(Render(fullVersion, m)) == Values(m)
  {
    var names := SortedKeys(m.Keys);
    var blocks := Blocks(names, m);
    assert Render(fullVersion, m) == Header(fullVersion) + blocks;
    HeaderParse(fullVersion, blocks);
    BlocksParse(names, m);
    BlockValuesAreValues(names, m);
    AllKeysValues(names, m);
  }

  lemma AllKeysValues(names: seq<string>, m: map<string, Property>)
    requires forall n :: n in names <==> n in m
    ensures (map n | n in names :: m[n].value) == Values(m)
  {
  }

  lemma DescriptionOneLine(name: string)
    requires '\n' !in name
    ensures '\n' !in Description(name)
  {
    assert '\n' !in DescriptionPrefix;
    assert '\n' !in DescriptionSuffix;
  }

  lemma UrlOneLine(language: string)
    requires '\n' !in language
    ensures '\n' !in BuiltinUrl(language)
  {
    assert '\n' !in ReleasesHost && '\n' !in LatestDownload;
    assert '\n' !in "template-" && '\n' !in ".zip";
  }

  /** The language names are plain keys. */
  lemma LanguagesWellFormed()
    ensures forall l :: l in Languages ==> PropertiesFile.WellFormedKey(l)
  {
    assert PropertiesFile.WellFormedKey("dotnet");
    assert PropertiesFile.WellFormedKey("java");
    assert PropertiesFile.WellFormedKey("js");
    assert PropertiesFile.WellFormedKey("python");
    assert PropertiesFile.WellFormedKey("ruby");
    assert PropertiesFile.WellFormedKey("ts");
  }

  /** Every merged registry can be written and read back. */
  lemma MergedWritable(loaded: Option<map<string, string>>)
    requires loaded.Some? ==> PropertiesFile.WellFormed(loaded.value)
    ensures Writable(MergedMap(loaded))
  {
    var m := MergedMap(loaded);
    MergedRegistry(loaded);
    DefaultsAreBuiltins();
    LanguagesWellFormed();
    forall k | k in m
      ensures PropertiesFile.WellFormedKey(k)
      ensures PropertiesFile.WellFormedValue(m[k].value)
      ensures '\n' !in m[k].description
    {
      BuiltinOrLoaded(loaded, k);
      if k in Languages {
        DescriptionOneLine(k);
        UrlOneLine(k);
      } else {
        DescriptionOneLine(k);
      }
    }
  }

  /** Where a merged entry comes from. */
  lemma BuiltinOrLoaded(loaded: Option<map<string, string>>, k: string)
    requires k in MergedMap(loaded)
    ensures k in Languages || (loaded.Some? && k in loaded.value)
    ensures loaded.Some? && k in loaded.value ==> MergedMap(loaded)[k].value == loaded.value[k]
    ensures k in Languages && (loaded.None? || k !in loaded.value) ==> MergedMap(loaded)[k].value == BuiltinUrl(k)
    ensures MergedMap(loaded)[k].description == Description(k)
  {
    DefaultsAreBuiltins();
  }

  /**
   * Writing a merged registry and merging with what the file then holds gives back the
   * same registry: the persisted overrides are kept and no entry is lost or altered.
   */
  lemma ReloadStable(fullVersion: string, config: map<string, string>)
    requires '\n' !in fullVersion
    requires PropertiesFile.WellFormed(config)
    ensures MergedMap(Some(PropertiesFile.Parse(Render(fullVersion, MergedMap(Some(config))))))
            == MergedMap(Some(config))
  {
    var m := MergedMap(Some(config));
    MergedWritable(Some(config));
    RenderParse(fullVersion, m);
    OverlayValues(DefaultsMap(), config);
  }

  /** Applying the values of an overlaid registry to the same base changes nothing. */
  lemma OverlayValues(base: map<string, Property>, config: map<string, string>)
    ensures Overlay(base, Values(Overlay(base, config))) == Overlay(base, config)
  {
    var m := Overlay(base, config);
    var again := Overlay(base, Values(m));
    assert again.Keys == m.Keys;
    forall k | k in m ensures again[k] == m[k] {
      assert again[k] == Updated(base, k, m[k].value);
    }
  }

  /**
   * After `Update(name, value)` succeeds, the registry read from the file it wrote has
   * `name` at `value` and differs from the old one only there.
   */
  lemma UpdatePersists(fullVersion: string, config: map<string, string>, name: string, value: string)
    requires '\n' !in fullVersion
    requires PropertiesFile.WellFormed(config)
    requires PropertiesFile.WellFormedKey(name) && PropertiesFile.WellFormedValue(value)
    ensures MergedMap(Some(PropertiesFile.Parse(Render(fullVersion, Put(MergedMap(Some(config)), name, value)))))
            == Put(MergedMap(Some(config)), name, value)
    ensures Put(MergedMap(Some(config)), name, value)[name].value == value
  {
    OverlayPut(DefaultsMap(), config, name, value);
    ReloadStable(fullVersion, config[name := value]);
  }

  /**
   * `Update` stores any name, but only a well-formed key reads back: the block written for
   * a new name `x=y` defines the key `x`, with `y = value` as its value.
   */
  lemma NameWithEqualsSplits(x: string, y: string, value: string)
    requires PropertiesFile.WellFormedKey(x) && x != [] && x[|x| - 1] != ' '
    requires '\n' !in y && y != [] && y[0] != ' '
    requires '\n' !in value
    ensures var name := x + "=" + y;
            PropertiesFile.Parse(Block(Put(map[], name, value)[name])) == map[x := y + " = " + value]
  {
    var name := x + "=" + y;
    var p := Put(map[], name, value)[name];
    assert p.key == name && p.value == value;
    DescriptionOneLine(name);
    BlockAssignment(p);
    Associative(x + "=", y, " = ");
    Associative(x + "=", y + " = ", value);
    PropertiesFile.ParseAtFirstEquals(x, y + " = " + value);
  }

  /** A block on its own reads as its assignment line, whatever the key. */
  lemma BlockAssignment(p: Property)
    requires '\n' !in p.key && '\n' !in p.description && '\n' !in p.value
    ensures PropertiesFile.Parse(Block(p)) == PropertiesFile.ParseLine(p.key + " = " + p.value)
  {
    var assignment := p.key + " = " + p.value;
    var second := assignment + "\n" + "";
    var first := ("# " + p.description) + "\n" + second;
    BlockLines(p, "");
    assert Block(p) + "" == Block(p);
    PropertiesFile.SkipLine("", first);
    CommentBlockLine(p.description, second);
    AssignmentOneLine(p.key, p.value);
    PropertiesFile.ParseNextLine(assignment, "");
  }

  /** After a `Put`, sorting the names again (with `k` appended when it is new) lists the new key set. */
  lemma PutNames(t: map<string, Property>, names: seq<string>, k: string, v: string)
    requires names == SortedKeys(t.Keys)
    requires forall j :: j in t ==> t[j].key == j
    ensures SortStrings(if k in t then names else names + [k]) == SortedKeys(Put(t, k, v).Keys)
    ensures forall j :: j in Put(t, k, v) ==> Put(t, k, v)[j].key == j
    ensures k in t ==> SortStrings(names) == names
  {
    if k in t {
      assert Put(t, k, v).Keys == t.Keys;
      SortSorted(names);
    } else {
      SortedKeysAppend(t.Keys, k);
    }
  }

  // ---------------------------------------------------------------------------------
  // The registry object
  // ---------------------------------------------------------------------------------

  /** `templates`: the map `t` and its names `names`. */
  class Templates {
    var t: map<string, Property>
    var names: seq<string>

    /** `names` is the sorted key set of `t`, and every property is stored under its own key. */
    ghost predicate Valid()
      reads this
    {
      && names == SortedKeys(t.Keys)
      && forall k :: k in t ==> t[k].key == k
    }

    /** The struct literal `templates{t: props, names: keys}`, given the sorted keys of `props`. */
    constructor (props: map<string, Property>, keys: seq<string>)
      requires keys == SortedKeys(props.Keys)
      requires forall k :: k in props ==> props[k].key == k
      ensures Valid()
      ensures t == props && names == keys
    {
      t := props;
      names := keys;
    }

    /** `String`: the version header, then one block per name, in `names` order. */
    method String(fullVersion: string) returns (s: string)
      requires Valid()
      ensures s == Header(fullVersion) + Blocks(names, t)
      ensures s == Render(fullVersion, t)
    {
      s := Header(fullVersion);
      var i := 0;
      while i < |names|
        invariant 0 <= i <= |names|
        invariant s == Header(fullVersion) + Blocks(names[..i], t)
      {
        var v := t[names[i]];
        Associative(Header(fullVersion), Blocks(names[..i], t), Block(v));
        s := s + Block(v);
        BlocksPrefix(names, i, t);
        i := i + 1;
      }
      assert names[..|names|] == names;
    }

    /**
     * `update`: with `validate`, a value the URI parser rejects is an error naming `k` and
     * nothing changes; otherwise the value is stored, and `names` stays the sorted key set.
     */
    method Update(k: string, v: string, validate: bool, parse: UriParser) returns (err: Option<TemplateError>)
      requires Valid()
      modifies this
      ensures Valid()
      ensures err.Some? <==> validate && parse(v).None?
      ensures err.Some? ==> err.value == InvalidLocation(k) && t == old(t) && names == old(names)
      ensures err.None? ==> t == Put(old(t), k, v)
      ensures k in old(t) ==> names == old(names)
    {
      if validate && parse(v).None? {
        return Some(InvalidLocation(k));
      }
      ghost var added := if k in t then names else names + [k];
      ghost var put := Put(t, k, v);
      PutNames(t, names, k, v);
      if k in t {
        t := t[k := t[k].(value := v)];
      } else {
        t := t[k := Property(k, v, Description(k))];
        names := names + [k];
      }
      assert t == put && names == added;
      names := SortStrings(names);
      err := None;
    }

    /** `get`: the stored value, or a not-found error with the suggestions of `closestMatch`. */
    method Get(k: string, closestN: Matcher) returns (r: Result<string, TemplateError>)
      ensures r.Ok? <==> k in t
      ensures r.Ok? ==> r.value == t[k].value
      ensures r.Err? ==> r.error == NotFound(k, Suggestions(closestN(names, k, 5)))
    {
      if k in t {
        return Ok(t[k].value);
      }
      var matches := ClosestMatch(k, closestN);
      return Err(NotFound(k, matches));
    }

    /** `closestMatch`: at most five known names close to `k`, none empty, in ascending order. */
    method ClosestMatch(k: string, closestN: Matcher) returns (matches: seq<string>)
      ensures matches == Suggestions(closestN(names, k, 5))
    {
      var found := closestN(names, k, 5);
      var kept: seq<string> := [];
      var i := 0;
      while i < |found|
        invariant 0 <= i <= |found|
        invariant kept == NonEmpty(found[..i])
      {
        assert found[..i + 1] == found[..i] + [found[i]];
        if found[i] != "" {
          kept := kept + [found[i]];
        }
        i := i + 1;
      }
      assert found[..|found|] == found;
      matches := SortStrings(kept);
    }
  }

  // ---------------------------------------------------------------------------------
  // Building registries
  // ---------------------------------------------------------------------------------

  /** `getKeys`: the keys of `prop`, collected in map order and then sorted. */
  method GetKeys(prop: map<string, Property>) returns (keys: seq<string>)
    ensures StrictlySorted(keys)
    ensures forall k :: k in keys <==> k in prop
  {
    keys := [];
    var rest := prop.Keys;
    while rest != {}
      invariant rest <= prop.Keys
      invariant NoDup(keys)
      invariant forall k :: k in keys <==> k in prop && k !in rest
      decreases rest
    {
      var k :| k in rest;
      keys := keys + [k];
      rest := rest - {k};
    }
    var collected := keys;
    keys := SortStrings(keys);
    NoDupMultiset(collected, keys);
    forall x ensures x in keys <==> x in collected {
      assert x in keys <==> x in multiset(keys);
      assert x in collected <==> x in multiset(collected);
    }
  }

  /** Every built-in entry is stored under its own key. */
  lemma DefaultsKeyed()
    ensures forall k :: k in DefaultsMap() ==> DefaultsMap()[k].key == k
  {
    DefaultsAreBuiltins();
  }

  /** `defaults`: the built-in registry. */
  method Defaults() returns (t: Templates)
    ensures fresh(t) && t.Valid()
    ensures t.t == DefaultsMap()
  {
    var prop := DefaultsMap();
    var keys := GetKeys(prop);
    SortedKeysUnique(keys, prop.Keys);
    DefaultsKeyed();
    t := new Templates(prop, keys);
  }

  /**
   * `mergeTemplates`: the defaults, then an unvalidated update for every loaded entry in
   * map order; when loading failed, the defaults alone. The update error it forwards
   * cannot occur, since nothing is validated.
   */
  method MergeTemplates(loaded: Option<map<string, string>>, parse: UriParser) returns (t: Templates)
    ensures fresh(t) && t.Valid()
    ensures t.t == MergedMap(loaded)
  {
    t := Defaults();
    if loaded.None? {
      return;
    }
    var configs := loaded.value;
    var pending := configs.Keys;
    RestrictNone(configs);
    OverlayEmpty(DefaultsMap());
    while pending != {}
      invariant pending <= configs.Keys
      invariant fresh(t) && t.Valid()
      invariant t.t == Overlay(DefaultsMap(), Restrict(configs, configs.Keys - pending))
      decreases pending
    {
      var k :| k in pending;
      ghost var done := Restrict(configs, configs.Keys - pending);
      var err := t.Update(k, configs[k], false, parse);
      assert err.None?;
      OverlayPut(DefaultsMap(), done, k, configs[k]);
      RestrictStep(configs, pending, k);
      pending := pending - {k};
    }
    RestrictAll(configs);
  }

  // ---------------------------------------------------------------------------------
  // The package's entry points
  // ---------------------------------------------------------------------------------

  /**
   * `Update`: merge, validate and store, then the text `write` persists. A rejected
   * location is reported before anything is written.
   */
  method Update(name: string, value: string, loaded: Option<map<string, string>>, parse: UriParser,
                fullVersion: string)
    returns (written: Result<string, TemplateError>)
    ensures written.Err? <==> parse(value).None?
    ensures written.Err? ==> written.error == InvalidLocation(name)
    ensures written.Ok? ==> written.value == Render(fullVersion, Put(MergedMap(loaded), name, value))
  {
    var t := MergeTemplates(loaded, parse);
    var err := t.Update(name, value, true, parse);
    if err.Some? {
      return Err(err.value);
    }
    var text := t.String(fullVersion);
    return Ok(text);
  }

  /**
   * `Merge`: the file is rewritten, with the merged registry, exactly when its recorded
   * version cannot be read or is older than the running one.
   */
  method Merge(stored: Option<Version>, current: Version, loaded: Option<map<string, string>>,
               parse: UriParser, fullVersion: string)
    returns (written: Option<string>)
    ensures written.Some? <==> stored.None? || LesserThan(stored.value, current)
    ensures written.Some? ==> written.value == Render(fullVersion, MergedMap(loaded))
  {
    if stored.None? || LesserThan(stored.value, current) {
      var t := MergeTemplates(loaded, parse);
      var text := t.String(fullVersion);
      return Some(text);
    }
    return None;
  }

  /** `Get`: the location of a template of the merged registry, or why there is none. */
  method Get(name: string, loaded: Option<map<string, string>>, parse: UriParser, closestN: Matcher)
    returns (r: Result<string, TemplateError>)
    ensures r.Ok? <==> name in MergedMap(loaded)
    ensures r.Ok? ==> r.value == MergedMap(loaded)[name].value
    ensures r.Err? ==> r.error == NotFound(name, Suggestions(closestN(SortedKeys(MergedMap(loaded).Keys), name, 5)))
  {
    var t := MergeTemplates(loaded, parse);
    r := t.Get(name, closestN);
  }

  /** `All`: every template name of the merged registry, ascending, one per line. */
  method All(loaded: Option<map<string, string>>, parse: UriParser) returns (r: string)
    ensures r == Join(SortedKeys(MergedMap(loaded).Keys), "\n")
  {
    var t := MergeTemplates(loaded, parse);
    r := Join(t.names, "\n");
  }
}
