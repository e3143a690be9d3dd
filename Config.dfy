/** The in-memory part of the configuration manager: the JSON document
    loaded from disk, the default sections filled in when the manager is
    created, section and option access, and the most-recently-used lists.
    Loading the file is the `loaded` argument and each save's outcome is a
    `saved` argument. */
module Config {
  import opened Wrappers
  import opened Strings

  /** A JSON value as `json.load` returns it. */
  datatype Json = JNull | JBool(b: bool) | JInt(i: int) | JString(s: string) | JList(items: seq<Json>)
                | JObject(fields: map<string, Json>)

  /** Python's `key in value`: a key of a dict, an element of a list, a
      substring of a string; any other value raises `TypeError`. */
  function Has(v: Json, key: string): (r: Result<bool>)
    ensures v.JObject? ==> r == Success(key in v.fields)
  {
    match v
    case JObject(f) => Success(key in f)
    case JList(items) => Success(JString(key) in items)
    case JString(s) => Success(Contains(s, key))
    case _ => Failure("TypeError")
  }

  /** Python's `value[key] = x`: only a dict takes a string key. */
  function SetItem(v: Json, key: string, x: Json): (r: Result<Json>)
    ensures r.Success? <==> v.JObject?
    ensures r.Success? ==> r.value == JObject(v.fields[key := x])
  {
    match v
    case JObject(f) => Success(JObject(f[key := x]))
    case _ => Failure("TypeError")
  }

  /** A default entry: a plain value, or a section whose keys are filled
      in one by one. */
  datatype Default = Plain(value: Json) | Section(items: seq<(string, Json)>)

  function ToMap(items: seq<(string, Json)>): (m: map<string, Json>)
    ensures m.Keys == Keys(items)
  {
    if |items| == 0 then map[] else ToMap(items[..|items| - 1])[items[|items| - 1].0 := items[|items| - 1].1]
  }

  function Keys(items: seq<(string, Json)>): set<string> {
    if |items| == 0 then {} else Keys(items[..|items| - 1]) + {items[|items| - 1].0}
  }

  /** The value a default entry stands for. */
  function AsJson(d: Default): Json {
    match d
    case Plain(v) => v
    case Section(items) => JObject(ToMap(items))
  }

  /** `_get_default_config()`, in its key order. */
  const DefaultConfig: seq<(string, Default)> := [
    ("window", Section([("width", JInt(1000)), ("height", JInt(600)), ("title", JString("文本對齊工具"))])),
    ("audio", Section([("sample_rate", JInt(44100)), ("channels", JInt(2)), ("buffer_size", JInt(4096))])),
    ("display", Section([("font_family", JString("Arial")), ("font_size", JInt(12)), ("theme", JString("default"))])),
    ("database", Section([("host", JString("localhost")), ("port", JInt(5432)), ("username", JString("postgres")),
                          ("password", JString("")), ("database", JString("Text_Alignment_Tool"))])),
    ("recent_projects", Plain(JList([]))),
    ("recent_files", Plain(JList([]))),
    ("language", Plain(JString("zh_TW"))),
    ("auto_save", Plain(JBool(true))),
    ("auto_save_interval", Plain(JInt(300))),
    ("max_undo_steps", Plain(JInt(50))),
    ("login", Section([("remember_username", JBool(false)), ("saved_username", JString(""))])),
    ("update", Section([("auto_check", JBool(true)), ("check_interval", JInt(24)), ("last_check_time", JInt(0)),
                        ("repo_owner", JString("")), ("repo_name", JString("")), ("branch", JString("main")),
                        ("current_version", JString("1.0.0"))]))
  ]

  /** One step of the inner loop of `_ensure_config_sections`: a missing
      key gets its default. */
  function FillKey(v: Json, key: string, x: Json): Result<Json> {
    match Has(v, key)
    case Failure(e) => Failure(e)
    case Success(true) => Success(v)
    case Success(false) => SetItem(v, key, x)
  }

  /** The inner loop over the default keys of one section. */
  function Filled(v: Json, items: seq<(string, Json)>): (r: Result<Json>)
    ensures r.Success? && !v.JObject? ==> r.value == v
    decreases |items|
  {
    if |items| == 0 then Success(v)
    else match FillKey(v, items[0].0, items[0].1)
      case Failure(e) => Failure(e)
      case Success(w) => Filled(w, items[1..])
  }

  /** `v` grows into `w`: the same value, or a dict with every entry of
      `v` kept. */
  predicate Extends(v: Json, w: Json) {
    v == w || (v.JObject? && w.JObject? && forall k :: k in v.fields ==> k in w.fields && w.fields[k] == v.fields[k])
  }

  /** Growing keeps every key that was present. */
  lemma ExtendsHas(v: Json, w: Json, key: string)
    requires Extends(v, w) && Has(v, key) == Success(true)
    ensures Has(w, key) == Success(true)
  {
  }

  lemma ExtendsTransitive(u: Json, v: Json, w: Json)
    requires Extends(u, v) && Extends(v, w)
    ensures Extends(u, w)
  {
  }

  /** Filling a section never overwrites a value, and afterwards every
      default key is in the section. */
  lemma {:induction false} FilledSpec(v: Json, items: seq<(string, Json)>)
    requires Filled(v, items).Success?
    ensures Extends(v, Filled(v, items).value)
    ensures forall i :: 0 <= i < |items| ==> Has(Filled(v, items).value, items[i].0) == Success(true)
    decreases |items|
  {
    if |items| > 0 {
      var w := FillKey(v, items[0].0, items[0].1).value;
      assert Extends(v, w) && Has(w, items[0].0) == Success(true);
      FilledSpec(w, items[1..]);
      var r := Filled(v, items).value;
      ExtendsTransitive(v, w, r);
      ExtendsHas(w, r, items[0].0);
      forall i | 1 <= i < |items|
        ensures Has(r, items[i].0) == Success(true)
      {
        assert items[i] == items[1..][i - 1];
      }
    }
  }

  /** A dict section is always filled; a value of another kind is left as
      it is or raises. */
  lemma {:induction false} FilledShape(v: Json, items: seq<(string, Json)>)
    ensures v.JObject? ==> Filled(v, items).Success? && Filled(v, items).value.JObject?
    ensures !v.JObject? && Filled(v, items).Success? ==> Filled(v, items).value == v
    decreases |items|
  {
    if |items| > 0 {
      match FillKey(v, items[0].0, items[0].1)
      case Failure(_) =>
      case Success(w) => FilledShape(w, items[1..]);
    }
  }

  /** One step of the outer loop: a missing section gets its default, a
      present dict default is filled key by key, a present plain one is
      kept. */
  function EnsureSection(c: map<string, Json>, name: string, d: Default): Result<map<string, Json>> {
    if name !in c then Success(c[name := AsJson(d)])
    else match d
      case Plain(_) => Success(c)
      case Section(items) =>
        match Filled(c[name], items)
        case Failure(e) => Failure(e)
        case Success(v) => Success(c[name := v])
  }

  /** The outer loop of `_ensure_config_sections`: the configuration it
      reaches, and whether it ran to the end (`false` where it raised). */
  function Ensure(c: map<string, Json>, defaults: seq<(string, Default)>): (r: (map<string, Json>, bool))
    ensures c.Keys <= r.0.Keys
    decreases |defaults|
  {
    if |defaults| == 0 then (c, true)
    else match EnsureSection(c, defaults[0].0, defaults[0].1)
      case Failure(_) => (c, false)
      case Success(c') => Ensure(c', defaults[1..])
  }

  /** What `_ensure_config_sections` promises when it completes: every
      default section is present, every key of a dict default is in its
      section, nothing else is added and no existing value is overwritten
      (dict sections only gain keys). */
  lemma {:induction false} EnsureSpec(c: map<string, Json>, defaults: seq<(string, Default)>)
    requires Ensure(c, defaults).1
    ensures var r := Ensure(c, defaults).0;
      (forall i :: 0 <= i < |defaults| ==> defaults[i].0 in r) &&
      (forall k :: k in c ==> k in r && Extends(c[k], r[k])) &&
      (forall k :: k in r ==> k in c || exists i :: 0 <= i < |defaults| && defaults[i].0 == k)
    ensures var r := Ensure(c, defaults).0;
      forall i, j :: 0 <= i < |defaults| && defaults[i].1.Section? && 0 <= j < |defaults[i].1.items| ==>
        Has(r[defaults[i].0], defaults[i].1.items[j].0) == Success(true)
    decreases |defaults|
  {
    if |defaults| > 0 {
      var name, d := defaults[0].0, defaults[0].1;
      var c' := EnsureSection(c, name, d).value;
      EnsureSectionSpec(c, name, d);
      EnsureSpec(c', defaults[1..]);
      var r := Ensure(c, defaults).0;
      assert r == Ensure(c', defaults[1..]).0;
      forall k | k in c
        ensures k in r && Extends(c[k], r[k])
      {
        ExtendsTransitive(c[k], c'[k], r[k]);
      }
      forall k | k in r
        ensures k in c || exists i :: 0 <= i < |defaults| && defaults[i].0 == k
      {
        if k !in c' {
          var i :| 0 <= i < |defaults[1..]| && defaults[1..][i].0 == k;
          assert defaults[i + 1].0 == k;
        } else if k !in c {
          assert defaults[0].0 == k;
        }
      }
      forall i, j | 0 <= i < |defaults| && defaults[i].1.Section? && 0 <= j < |defaults[i].1.items|
        ensures Has(r[defaults[i].0], defaults[i].1.items[j].0) == Success(true)
      {
        if i == 0 {
          ExtendsHas(c'[name], r[name], d.items[j].0);
        } else {
          assert defaults[i] == defaults[1..][i - 1];
        }
      }
    }
  }

  /** One section step keeps and only grows what was there, and leaves
      the section present with its default keys in it. */
  lemma EnsureSectionSpec(c: map<string, Json>, name: string, d: Default)
    requires EnsureSection(c, name, d).Success?
    ensures var c' := EnsureSection(c, name, d).value;
      c'.Keys == c.Keys + {name} &&
      (forall k :: k in c ==> Extends(c[k], c'[k])) &&
      (d.Section? ==> forall j :: 0 <= j < |d.items| ==> Has(c'[name], d.items[j].0) == Success(true))
  {
    var c' := EnsureSection(c, name, d).value;
    if name !in c {
      if d.Section? {
        forall j | 0 <= j < |d.items|
          ensures d.items[j].0 in ToMap(d.items)
        {
          KeysHas(d.items, j);
        }
      }
    } else if d.Section? {
      FilledSpec(c[name], d.items);
    }
  }

  lemma {:induction false} KeysHas(items: seq<(string, Json)>, j: nat)
    requires j < |items|
    ensures items[j].0 in Keys(items)
    decreases |items|
  {
    if j < |items| - 1 {
      KeysHas(items[..|items| - 1], j);
    }
  }

  /** The configuration manager: the loaded document, updated in place. */
  class ConfigManager {
    var config: map<string, Json>

    /** The part of `__init__` before the sections are checked: the
        loaded document becomes the configuration. */
    constructor Loaded(loaded: map<string, Json>)
      ensures config == loaded
    {
      config := loaded;
    }

    /** `__init__(config_path)` on the document `_load_config` returned:
        the sections are ensured, and an error raised there escapes the
        constructor, which gives no manager. */
    static method Create(loaded: map<string, Json>) returns (m: Option<ConfigManager>)
      ensures m.Some? <==> Ensure(loaded, DefaultConfig).1
      ensures m.Some? ==> fresh(m.value) && m.value.config == Ensure(loaded, DefaultConfig).0
    {
      var manager := new ConfigManager.Loaded(loaded);
      var completed := manager.EnsureConfigSections();
      if completed {
        m := Some(manager);
      } else {
        m := None;
      }
    }

    /** `_ensure_config_sections()`: `completed` is false where it raises,
        and the configuration is what the loop reached by then. */
    method EnsureConfigSections() returns (completed: bool)
      modifies this
      ensures (config, completed) == Ensure(old(config), DefaultConfig)
    {
      completed := EnsureSections(DefaultConfig);
    }

    /** The loop of `_ensure_config_sections` over the entries `defaults`. */
    method EnsureSections(defaults: seq<(string, Default)>) returns (completed: bool)
      modifies this
      ensures (config, completed) == Ensure(old(config), defaults)
    {
      var i := 0;
      while i < |defaults|
        invariant 0 <= i <= |defaults|
        invariant Ensure(config, defaults[i..]) == Ensure(old(config), defaults)
      {
        var name, d := defaults[i].0, defaults[i].1;
        assert defaults[i..][1..] == defaults[i + 1..];
        if name !in config {
          config := config[name := AsJson(d)];
        } else if d.Section? {
          var filled := FillKeys(config[name], d.items);
          if filled.Failure? {
            return false;
          }
          config := config[name := filled.value];
        }
        i := i + 1;
      }
      return true;
    }

    /** `get_section(section)`: a present section as it is; a missing
        default section is inserted from the defaults; any other name
        gives `{}` and changes nothing. */
    method GetSection(section: string) returns (v: Json)
      modifies this
      ensures section in old(config) ==> v == old(config)[section] && config == old(config)
      ensures section !in old(config) && DefaultOf(section).Some? ==>
        v == AsJson(DefaultOf(section).value) && config == old(config)[section := v]
      ensures section !in old(config) && DefaultOf(section).None? ==>
        v == JObject(map[]) && config == old(config)
    {
      if section in config {
        return config[section];
      }
      var d := DefaultOf(section);
      if d.Some? {
        v := AsJson(d.value);
        config := config[section := v];
      } else {
        v := JObject(map[]);
      }
    }

    /** `get_option(section, option, default)`: `section.get(option,
        default)` on what `get_section` returns; a section that is not a
        dict has no `get` and raises. */
    method GetOption(section: string, option: string, default: Json) returns (r: Result<Json>)
      modifies this
      ensures var s := if section in old(config) then old(config)[section]
                       else if DefaultOf(section).Some? then AsJson(DefaultOf(section).value)
                       else JObject(map[]);
        r == (if s.JObject? then Success(if option in s.fields then s.fields[option] else default)
              else Failure("AttributeError"))
      ensures section in old(config) || DefaultOf(section).None? ==> config == old(config)
      ensures section !in old(config) && DefaultOf(section).Some? ==>
        config == old(config)[section := AsJson(DefaultOf(section).value)]
    {
      var s := GetSection(section);
      if s.JObject? {
        r := Success(if option in s.fields then s.fields[option] else default);
      } else {
        r := Failure("AttributeError");
      }
    }

    /** `set_option(section, option, value)`: a missing section is created
        as `{}`, then only that option is set; on a section that is not a
        dict the assignment raises, the error is caught and nothing
        changes. The result is the save's outcome `saved`. */
    method SetOption(section: string, option: string, value: Json, saved: bool) returns (ok: bool)
      modifies this
      ensures section !in old(config) ==>
        config == old(config)[section := JObject(map[option := value])] && ok == saved
      ensures section in old(config) && old(config)[section].JObject? ==>
        config == old(config)[section := JObject(old(config)[section].fields[option := value])] && ok == saved
      ensures section in old(config) && !old(config)[section].JObject? ==> config == old(config) && !ok
    {
      if section !in config {
        config := config[section := JObject(map[])];
      }
      var updated := SetItem(config[section], option, value);
      if updated.Failure? {
        return false;
      }
      config := config[section := updated.value];
      ok := saved;
    }

    /** `set_section(section, config)`: the whole section is replaced. */
    method SetSection(section: string, value: Json, saved: bool) returns (ok: bool)
      modifies this
      ensures config == old(config)[section := value] && ok == saved
    {
      config := config[section := value];
      ok := saved;
    }

    /** The body shared by `add_recent_project` and `add_recent_file` on
        the list stored under `key` (absent means `[]`); a value that is not
        a list fails on `remove` or `insert` and nothing changes. */
    method AddRecent(key: string, path: string, maxSize: int, saved: bool) returns (ok: bool)
      modifies this
      ensures var l := if key in old(config) then old(config)[key] else JList([]);
        if l.JList? then config == old(config)[key := JList(Recent(l.items, JString(path), maxSize))] && ok == saved
        else config == old(config) && !ok
    {
      var recent := if key in config then config[key] else JList([]);
      if !recent.JList? {
        return false;
      }
      var items := RemoveFirst(recent.items, JString(path));
      items := [JString(path)] + items;
      if |items| > maxSize {
        items := SliceTo(items, maxSize);
      }
      config := config[key := JList(items)];
      ok := saved;
    }

    /** `add_recent_project(project_path, max_size)`. */
    method AddRecentProject(projectPath: string, maxSize: int, saved: bool) returns (ok: bool)
      modifies this
      ensures var l := if "recent_projects" in old(config) then old(config)["recent_projects"] else JList([]);
        if l.JList? then
          config == old(config)["recent_projects" := JList(Recent(l.items, JString(projectPath), maxSize))] && ok == saved
        else config == old(config) && !ok
    {
      ok := AddRecent("recent_projects", projectPath, maxSize, saved);
    }

    /** `add_recent_file(file_path, max_size)`. */
    method AddRecentFile(filePath: string, maxSize: int, saved: bool) returns (ok: bool)
      modifies this
      ensures var l := if "recent_files" in old(config) then old(config)["recent_files"] else JList([]);
        if l.JList? then
          config == old(config)["recent_files" := JList(Recent(l.items, JString(filePath), maxSize))] && ok == saved
        else config == old(config) && !ok
    {
      ok := AddRecent("recent_files", filePath, maxSize, saved);
    }
  }

  /** The default entry of a section name, if it has one. */
  function DefaultOf(name: string): (r: Option<Default>)
    ensures r.Some? <==> exists i :: 0 <= i < |DefaultConfig| && DefaultConfig[i].0 == name
    ensures r.Some? ==> exists i :: 0 <= i < |DefaultConfig| && DefaultConfig[i] == (name, r.value)
  {
    Lookup(DefaultConfig, name)
  }

  function Lookup(defaults: seq<(string, Default)>, name: string): (r: Option<Default>)
    ensures r.Some? <==> exists i :: 0 <= i < |defaults| && defaults[i].0 == name
    ensures r.Some? ==> exists i :: 0 <= i < |defaults| && defaults[i] == (name, r.value)
  {
    if |defaults| == 0 then None
    else if defaults[0].0 == name then Some(defaults[0].1)
    else
      var r := Lookup(defaults[1..], name);
      assert forall i :: 1 <= i < |defaults| ==> defaults[i] == defaults[1..][i - 1];
      if r.Some? then
        var i :| 0 <= i < |defaults[1..]| && defaults[1..][i] == (name, r.value);
        assert defaults[i + 1] == (name, r.value);
        r
      else r
  }

  /** `list.remove(x)` when `x` is in the list, else the list itself. */
  function RemoveFirst(s: seq<Json>, x: Json): (r: seq<Json>)
    ensures x !in s ==> r == s
    ensures x in s ==> |r| == |s| - 1
  {
    if |s| == 0 then []
    else if s[0] == x then s[1..]
    else [s[0]] + RemoveFirst(s[1..], x)
  }

  /** Exactly one occurrence of `x` goes. */
  lemma {:induction false} RemoveFirstMultiset(s: seq<Json>, x: Json)
    ensures multiset(RemoveFirst(s, x)) == multiset(s) - multiset{x}
  {
    if |s| > 0 {
      assert s == [s[0]] + s[1..];
      if s[0] != x {
        RemoveFirstMultiset(s[1..], x);
      }
    }
  }

  /** Python's `s[:n]`, where a negative `n` counts from the end. */
  function SliceTo(s: seq<Json>, n: int): (r: seq<Json>)
    ensures n >= 0 ==> r == s[..if n < |s| then n else |s|]
    ensures n < 0 ==> r == s[..if |s| + n > 0 then |s| + n else 0]
  {
    if n >= 0 then s[..if n < |s| then n else |s|] else s[..if |s| + n > 0 then |s| + n else 0]
  }

  /** The list after adding `x` as most recent. */
  function Recent(items: seq<Json>, x: Json, maxSize: int): (r: seq<Json>)
    ensures |r| <= |items| + 1
    ensures maxSize >= 1 ==> |r| >= 1 && r[0] == x
  {
    var l := [x] + RemoveFirst(items, x);
    if |l| > maxSize then SliceTo(l, maxSize) else l
  }

  /** The most recent entry comes first, the list holds at most `maxSize`
      entries, and the rest keep their order with the earlier occurrence
      of the entry removed. */
  lemma RecentSpec(items: seq<Json>, x: Json, maxSize: int)
    requires maxSize >= 1
    ensures |Recent(items, x, maxSize)| >= 1 && Recent(items, x, maxSize)[0] == x
    ensures |Recent(items, x, maxSize)| <= maxSize && |Recent(items, x, maxSize)| <= |items| + 1
    ensures Recent(items, x, maxSize)[1..] == RemoveFirst(items, x)[..|Recent(items, x, maxSize)| - 1]
  {
    var rest := RemoveFirst(items, x);
    var l := [x] + rest;
    assert l[1..] == rest;
    if |l| > maxSize {
      assert Recent(items, x, maxSize) == l[..maxSize];
      assert l[..maxSize][1..] == rest[..maxSize - 1];
    } else {
      assert Recent(items, x, maxSize) == l;
      assert rest[..|l| - 1] == rest;
    }
  }

  /** An entry already listed once is listed once afterwards. */
  lemma RecentNoDuplicate(items: seq<Json>, x: Json, maxSize: int)
    requires maxSize >= 1 && multiset(items)[x] <= 1
    ensures x !in Recent(items, x, maxSize)[1..]
  {
    var rest := RemoveFirst(items, x);
    RemoveFirstMultiset(items, x);
    assert multiset(rest)[x] == 0;
    assert x !in rest;
    RecentSpec(items, x, maxSize);
  }

  /** `FillKeys` is the inner loop itself. */
  method FillKeys(v: Json, items: seq<(string, Json)>) returns (r: Result<Json>)
    ensures r.Success? <==> Filled(v, items).Success?
    ensures r.Success? ==> r == Filled(v, items)
  {
    var current := v;
    var i := 0;
    while i < |items|
      invariant 0 <= i <= |items|
      invariant Filled(current, items[i..]) == Filled(v, items)
    {
      assert items[i..][1..] == items[i + 1..];
      var present := Has(current, items[i].0);
      if present.Failure? {
        return Failure(present.error);
      }
      if !present.value {
        var updated := SetItem(current, items[i].0, items[i].1);
        if updated.Failure? {
          return Failure(updated.error);
        }
        current := updated.value;
      }
      i := i + 1;
    }
    return Success(current);
  }
}
