/**
 The configuration file of agent.py and Agent/data_collector.py: built-in
 defaults, overlaid by the entries of an ini file the loader knows, each
 converted according to the type of the value it replaces; the file is
 (re)written from the configuration when it is missing or loading fails.

 The ini text layer is configparser's: a file is seen as the ordered sections
 configparser reports, each an ordered list of (lower-cased key, stripped
 value text).  A file configparser refuses (a syntax error, a duplicate
 section or key) makes `parser.read` raise.
 */
module Config {
  import opened Wrappers
  import Text
  import JsonList

  /** The Python values a configuration holds: `int`, `bool`, `str`, list of `str`. */
  datatype ConfigValue = IntVal(i: int) | BoolVal(b: bool) | StrVal(s: string) | ListVal(items: seq<string>)

  datatype Entry = Entry(key: string, value: ConfigValue)

  /** One `config[section]` dict, keys in insertion order. */
  datatype Section = Section(name: string, entries: seq<Entry>)

  /** The `config` dict of dicts, sections in insertion order. */
  type Config = seq<Section>

  /** One section of an ini file as configparser reports it. */
  datatype IniSection = IniSection(name: string, items: seq<(string, string)>)

  /** The configuration file: absent, present but refused by configparser, or present and parsed. */
  datatype ConfigFile = Missing | Garbled | Present(sections: seq<IniSection>)

  /**
   Which `_load_config` runs: agent.py's, Agent/data_collector.py's, or
   Agent/data_collector.py's with the `bool` test placed before the `int` test.
   */
  datatype Loader = AgentLoader | CollectorLoader | FixedCollectorLoader

  ghost predicate UniqueKeys(entries: seq<Entry>) {
    forall i, j :: 0 <= i < j < |entries| ==> entries[i].key != entries[j].key
  }

  /** A dict of dicts: section names unique, keys unique within a section. */
  ghost predicate WellFormed(cfg: Config) {
    && (forall i, j :: 0 <= i < j < |cfg| ==> cfg[i].name != cfg[j].name)
    && (forall i :: 0 <= i < |cfg| ==> UniqueKeys(cfg[i].entries))
  }

  /** Same sections and keys, in the same order; values may differ. */
  ghost predicate SameShape(a: Config, b: Config) {
    && |a| == |b|
    && forall i :: 0 <= i < |a| ==>
         && a[i].name == b[i].name
         && |a[i].entries| == |b[i].entries|
         && (forall k :: 0 <= k < |a[i].entries| ==> a[i].entries[k].key == b[i].entries[k].key)
  }

  lemma SameShapeWellFormed(a: Config, b: Config)
    requires SameShape(a, b) && WellFormed(a)
    ensures WellFormed(b)
  {
    forall i | 0 <= i < |b| ensures UniqueKeys(b[i].entries) {
      assert UniqueKeys(a[i].entries);
    }
  }

  /** `section in config`: the position of the first section so named. */
  function SectionIndex(cfg: Config, name: string): (r: Option<nat>)
    ensures r.Some? ==> r.value < |cfg| && cfg[r.value].name == name
    ensures r.Some? ==> forall i :: 0 <= i < r.value ==> cfg[i].name != name
    ensures r.None? <==> forall i :: 0 <= i < |cfg| ==> cfg[i].name != name
    decreases |cfg|
  {
    if |cfg| == 0 then None
    else if cfg[0].name == name then Some(0)
    else match SectionIndex(cfg[1..], name)
      case None => None
      case Some(i) => Some(i + 1)
  }

  /** `key in config[section]`: the position of the first entry with that key. */
  function KeyIndex(entries: seq<Entry>, key: string): (r: Option<nat>)
    ensures r.Some? ==> r.value < |entries| && entries[r.value].key == key
    ensures r.Some? ==> forall i :: 0 <= i < r.value ==> entries[i].key != key
    ensures r.None? <==> forall i :: 0 <= i < |entries| ==> entries[i].key != key
    decreases |entries|
  {
    if |entries| == 0 then None
    else if entries[0].key == key then Some(0)
    else match KeyIndex(entries[1..], key)
      case None => None
      case Some(i) => Some(i + 1)
  }

  /** `config[section][key]`, when both exist. */
  function Lookup(cfg: Config, section: string, key: string): Option<ConfigValue> {
    match SectionIndex(cfg, section)
    case None => None
    case Some(si) =>
      match KeyIndex(cfg[si].entries, key)
      case None => None
      case Some(ki) => Some(cfg[si].entries[ki].value)
  }

  /** `config[section][key] = v` for an existing entry. */
  function SetValue(cfg: Config, si: nat, ki: nat, v: ConfigValue): (r: Config)
    requires si < |cfg| && ki < |cfg[si].entries|
    ensures SameShape(cfg, r)
    ensures r[si].entries[ki].value == v
    ensures forall i, k :: 0 <= i < |cfg| && 0 <= k < |cfg[i].entries| && (i, k) != (si, ki) ==>
      r[i].entries[k] == cfg[i].entries[k]
  {
    var es := cfg[si].entries;
    cfg[si := cfg[si].(entries := es[ki := Entry(es[ki].key, v)])]
  }

  /** `RawConfigParser.BOOLEAN_STATES`, looked up with the lower-cased text. */
  function ParseBool(text: string): (r: Option<bool>)
    ensures r == Some(true) <==> Text.AsciiLower(text) in ["1", "yes", "true", "on"]
    ensures r == Some(false) <==> Text.AsciiLower(text) in ["0", "no", "false", "off"]
  {
    var t := Text.AsciiLower(text);
    if t in ["1", "yes", "true", "on"] then Some(true)
    else if t in ["0", "no", "false", "off"] then Some(false)
    else None
  }

  /** What the loader does with one known key: assign a converted value, keep the default, or raise. */
  datatype Step = Assign(value: ConfigValue) | Keep | Raise

  /** `getint`: the text as a Python int, or raise. */
  function GetInt(text: string): Step {
    match Text.ParseInt(text)
    case Some(n) => Assign(IntVal(n))
    case None => Raise
  }

  /**
   The type dispatch of `_load_config` for one known key whose current value
   is `current`.  As written, a `bool` value passes the `isinstance(..., int)`
   test first and is read with `getint`.
   */
  function Convert(loader: Loader, key: string, current: ConfigValue, text: string): (r: Step)
    ensures current.StrVal? ==> r == Assign(StrVal(text))
    ensures current.IntVal? || (current.BoolVal? && loader != FixedCollectorLoader) ==>
      if Text.ParseInt(text).Some? then r == Assign(IntVal(Text.ParseInt(text).value)) else r.Raise?
    ensures current.BoolVal? && loader == FixedCollectorLoader ==>
      if ParseBool(text).Some? then r == Assign(BoolVal(ParseBool(text).value)) else r.Raise?
    ensures current.ListVal? && (loader == AgentLoader || key == "subnets") ==>
      && (r.Assign? <==> JsonList.DecodeList(text).Some?)
      && (r.Assign? ==> r.value == ListVal(JsonList.DecodeList(text).value))
      && (JsonList.DecodeList(text).None? ==> if loader == AgentLoader then r.Raise? else r.Keep?)
    ensures current.ListVal? && loader != AgentLoader && key != "subnets" ==> r == Assign(StrVal(text))
    ensures r.Keep? ==> loader != AgentLoader && current.ListVal? && key == "subnets"
  {
    match current
    case IntVal(_) => GetInt(text)
    case BoolVal(_) =>
      if loader == FixedCollectorLoader then
        match ParseBool(text)
        case Some(b) => Assign(BoolVal(b))
        case None => Raise
      else GetInt(text)
    case ListVal(_) =>
      if loader == AgentLoader then
        match JsonList.DecodeList(text)
        case Some(xs) => Assign(ListVal(xs))
        case None => Raise
      else if key == "subnets" then
        match JsonList.DecodeList(text)
        case Some(xs) => Assign(ListVal(xs))
        case None => Keep
      else Assign(StrVal(text))
    case StrVal(_) => Assign(StrVal(text))
  }

  /** Some item of section `name` in `sections` has key `key`. */
  ghost predicate Mentioned(sections: seq<IniSection>, name: string, key: string) {
    exists s, j :: 0 <= s < |sections| && sections[s].name == name && 0 <= j < |sections[s].items|
      && sections[s].items[j].0 == key
  }

  /** Values of `b` differ from `a` only under keys `sections` mentions. */
  ghost predicate ChangesOnlyMentioned(a: Config, b: Config, sections: seq<IniSection>)
    requires SameShape(a, b)
  {
    forall i, k :: 0 <= i < |a| && 0 <= k < |a[i].entries| && b[i].entries[k].value != a[i].entries[k].value ==>
      Mentioned(sections, a[i].name, a[i].entries[k].key)
  }

  /**
   `for key, value in parser.items(section)` for the config section at `si`:
   known keys are converted in file order, unknown ones skipped.  The flag is
   false when a conversion raised, which abandons the rest of the file.
   */
  function OverlayItems(loader: Loader, cfg: Config, si: nat, items: seq<(string, string)>): (Config, bool)
    requires si < |cfg|
    decreases |items|
  {
    if |items| == 0 then (cfg, true)
    else
      match ItemStep(loader, cfg, si, items[0])
      case None => (cfg, false)
      case Some(c) => OverlayItems(loader, c, si, items[1..])
  }

  /** One `(key, value)` item of the section at `si`: the configuration after it, or `None` when the conversion raised. */
  function ItemStep(loader: Loader, cfg: Config, si: nat, item: (string, string)): (r: Option<Config>)
    requires si < |cfg|
    ensures r.Some? ==> |r.value| == |cfg| && si < |r.value|
  {
    var (key, text) := item;
    match KeyIndex(cfg[si].entries, key)
    case None => Some(cfg)
    case Some(ki) =>
      match Convert(loader, key, cfg[si].entries[ki].value, text)
      case Raise => None
      case Keep => Some(cfg)
      case Assign(v) => Some(SetValue(cfg, si, ki, v))
  }

  /** An item keeps the shape and changes at most the value under its own key in section `si`. */
  lemma ItemStepChanges(loader: Loader, cfg: Config, si: nat, item: (string, string))
    requires si < |cfg| && ItemStep(loader, cfg, si, item).Some?
    ensures var m := ItemStep(loader, cfg, si, item).value;
      && SameShape(cfg, m)
      && (forall k :: 0 <= k < |cfg[si].entries| && m[si].entries[k].value != cfg[si].entries[k].value ==>
            cfg[si].entries[k].key == item.0)
      && (forall i, k :: 0 <= i < |cfg| && i != si && 0 <= k < |cfg[i].entries| ==> m[i].entries[k] == cfg[i].entries[k])
  {
    match KeyIndex(cfg[si].entries, item.0)
    case None =>
    case Some(ki) =>
      match Convert(loader, item.0, cfg[si].entries[ki].value, item.1)
      case Raise =>
      case Keep =>
      case Assign(v) => SetValueChanges(cfg, si, ki, v, item.0);
  }

  /**
   The `for section in parser.sections()` loop: sections the configuration
   knows are overlaid in file order; the flag is false when a conversion raised.
   */
  function Overlay(loader: Loader, cfg: Config, sections: seq<IniSection>): (Config, bool)
    decreases |sections|
  {
    if |sections| == 0 then (cfg, true)
    else
      match SectionIndex(cfg, sections[0].name)
      case None => Overlay(loader, cfg, sections[1..])
      case Some(si) =>
        var (c, ok) := OverlayItems(loader, cfg, si, sections[0].items);
        if !ok then (c, false) else Overlay(loader, c, sections[1..])
  }

  /** Overlaying the items of one section keeps the shape and changes only values of that section whose keys the items name. */
  lemma {:induction false} OverlayItemsChanges(loader: Loader, cfg: Config, si: nat, items: seq<(string, string)>)
    requires si < |cfg|
    ensures SameShape(cfg, OverlayItems(loader, cfg, si, items).0)
    ensures var c := OverlayItems(loader, cfg, si, items).0;
      forall i, k :: 0 <= i < |cfg| && 0 <= k < |cfg[i].entries| && c[i].entries[k].value != cfg[i].entries[k].value ==>
        (i == si && exists j :: 0 <= j < |items| && items[j].0 == cfg[i].entries[k].key)
    decreases |items|
  {
    if |items| > 0 {
      match ItemStep(loader, cfg, si, items[0])
      case None =>
      case Some(m) =>
        ItemStepChanges(loader, cfg, si, items[0]);
        OverlayItemsChanges(loader, m, si, items[1..]);
        ItemsTail(cfg, m, OverlayItems(loader, cfg, si, items).0, si, items);
    }
  }

  /** Setting the entry at `ki` changes no other section and, in its own, only values under its key. */
  lemma SetValueChanges(cfg: Config, si: nat, ki: nat, v: ConfigValue, key: string)
    requires si < |cfg| && ki < |cfg[si].entries| && cfg[si].entries[ki].key == key
    ensures var m := SetValue(cfg, si, ki, v);
      && (forall k :: 0 <= k < |cfg[si].entries| && m[si].entries[k].value != cfg[si].entries[k].value ==>
            cfg[si].entries[k].key == key)
      && (forall i, k :: 0 <= i < |cfg| && i != si && 0 <= k < |cfg[i].entries| ==> m[i].entries[k] == cfg[i].entries[k])
  {
  }

  /** A change after the first item is a change named by the items, and so is one the first item made. */
  lemma ItemsTail(a: Config, m: Config, c: Config, si: nat, items: seq<(string, string)>)
    requires |items| > 0 && si < |a| && SameShape(a, m) && SameShape(m, c)
    requires forall k :: 0 <= k < |a[si].entries| && m[si].entries[k].value != a[si].entries[k].value ==>
      a[si].entries[k].key == items[0].0
    requires forall i, k :: 0 <= i < |a| && i != si && 0 <= k < |a[i].entries| ==> m[i].entries[k] == a[i].entries[k]
    requires forall i, k :: 0 <= i < |m| && 0 <= k < |m[i].entries| && c[i].entries[k].value != m[i].entries[k].value ==>
      (i == si && exists j :: 0 <= j < |items[1..]| && items[1..][j].0 == m[i].entries[k].key)
    ensures SameShape(a, c)
    ensures forall i, k :: 0 <= i < |a| && 0 <= k < |a[i].entries| && c[i].entries[k].value != a[i].entries[k].value ==>
      (i == si && exists j :: 0 <= j < |items| && items[j].0 == a[i].entries[k].key)
  {
    forall i, k | 0 <= i < |a| && 0 <= k < |a[i].entries| && c[i].entries[k].value != a[i].entries[k].value
      ensures i == si && exists j :: 0 <= j < |items| && items[j].0 == a[i].entries[k].key
    {
      if m[i].entries[k].value != a[i].entries[k].value {
        assert i == si;
        assert items[0].0 == a[i].entries[k].key;
      } else {
        var j :| 0 <= j < |items[1..]| && items[1..][j].0 == m[i].entries[k].key;
        assert items[j + 1].0 == a[i].entries[k].key;
      }
    }
  }

  /** Overlaying keeps the shape and changes only values whose section and key the file mentions. */
  lemma {:induction false} OverlayChanges(loader: Loader, cfg: Config, sections: seq<IniSection>)
    ensures SameShape(cfg, Overlay(loader, cfg, sections).0)
    ensures ChangesOnlyMentioned(cfg, Overlay(loader, cfg, sections).0, sections)
    decreases |sections|
  {
    if |sections| > 0 {
      var r := Overlay(loader, cfg, sections).0;
      match SectionIndex(cfg, sections[0].name)
      case None =>
        OverlayChanges(loader, cfg, sections[1..]);
        MentionedInTail(cfg, r, sections);
      case Some(si) =>
        var (c, ok) := OverlayItems(loader, cfg, si, sections[0].items);
        OverlayItemsChanges(loader, cfg, si, sections[0].items);
        if !ok {
          MentionedInHead(cfg, c, sections);
        } else {
          OverlayChanges(loader, c, sections[1..]);
          MentionedInHeadOrTail(cfg, c, r, sections);
        }
    }
  }

  lemma MentionedInTail(a: Config, b: Config, sections: seq<IniSection>)
    requires |sections| > 0 && SameShape(a, b)
    requires ChangesOnlyMentioned(a, b, sections[1..])
    ensures ChangesOnlyMentioned(a, b, sections)
  {
    forall i, k | 0 <= i < |a| && 0 <= k < |a[i].entries| && b[i].entries[k].value != a[i].entries[k].value
      ensures Mentioned(sections, a[i].name, a[i].entries[k].key)
    {
      var s, j :| 0 <= s < |sections[1..]| && sections[1..][s].name == a[i].name && 0 <= j < |sections[1..][s].items|
        && sections[1..][s].items[j].0 == a[i].entries[k].key;
      assert sections[s + 1] == sections[1..][s];
    }
  }

  lemma MentionedInHead(a: Config, b: Config, sections: seq<IniSection>)
    requires |sections| > 0 && SameShape(a, b)
    requires forall i, k :: 0 <= i < |a| && 0 <= k < |a[i].entries| && b[i].entries[k].value != a[i].entries[k].value ==>
      a[i].name == sections[0].name && exists j :: 0 <= j < |sections[0].items| && sections[0].items[j].0 == a[i].entries[k].key
    ensures ChangesOnlyMentioned(a, b, sections)
  {
    forall i, k | 0 <= i < |a| && 0 <= k < |a[i].entries| && b[i].entries[k].value != a[i].entries[k].value
      ensures Mentioned(sections, a[i].name, a[i].entries[k].key)
    {
      var j :| 0 <= j < |sections[0].items| && sections[0].items[j].0 == a[i].entries[k].key;
      assert sections[0].name == a[i].name;
    }
  }

  lemma MentionedInHeadOrTail(a: Config, c: Config, b: Config, sections: seq<IniSection>)
    requires |sections| > 0 && SameShape(a, c) && SameShape(c, b)
    requires forall i, k :: 0 <= i < |a| && 0 <= k < |a[i].entries| && c[i].entries[k].value != a[i].entries[k].value ==>
      a[i].name == sections[0].name && exists j :: 0 <= j < |sections[0].items| && sections[0].items[j].0 == a[i].entries[k].key
    requires ChangesOnlyMentioned(c, b, sections[1..])
    ensures SameShape(a, b)
    ensures ChangesOnlyMentioned(a, b, sections)
  {
    forall i, k | 0 <= i < |a| && 0 <= k < |a[i].entries| && b[i].entries[k].value != a[i].entries[k].value
      ensures Mentioned(sections, a[i].name, a[i].entries[k].key)
    {
      if c[i].entries[k].value != a[i].entries[k].value {
        var j :| 0 <= j < |sections[0].items| && sections[0].items[j].0 == a[i].entries[k].key;
        assert sections[0].name == a[i].name;
      } else {
        var s, j :| 0 <= s < |sections[1..]| && sections[1..][s].name == c[i].name && 0 <= j < |sections[1..][s].items|
          && sections[1..][s].items[j].0 == c[i].entries[k].key;
        assert sections[s + 1] == sections[1..][s];
      }
    }
  }

  /** configparser with `strict=True` refuses duplicate sections and duplicate keys in a section. */
  predicate NoDuplicates(sections: seq<IniSection>) {
    && (forall i, j :: 0 <= i < j < |sections| ==> sections[i].name != sections[j].name)
    && (forall s, i, j :: 0 <= s < |sections| && 0 <= i < j < |sections[s].items| ==>
          sections[s].items[i].0 != sections[s].items[j].0)
  }

  /** `str(value)`, or `json.dumps(value)` for a list. */
  function Render(v: ConfigValue): string {
    match v
    case IntVal(n) => Text.IntToString(n)
    case BoolVal(b) => if b then "True" else "False"
    case StrVal(s) => s
    case ListVal(xs) => JsonList.EncodeList(xs)
  }

  /** `_save_config`: every section and key in order, each value rendered as text. */
  function Written(cfg: Config): (file: seq<IniSection>)
    ensures |file| == |cfg|
    ensures forall i :: 0 <= i < |cfg| ==>
      && file[i].name == cfg[i].name
      && |file[i].items| == |cfg[i].entries|
      && (forall k :: 0 <= k < |cfg[i].entries| ==>
            file[i].items[k] == (cfg[i].entries[k].key, Render(cfg[i].entries[k].value)))
  {
    seq(|cfg|, i requires 0 <= i < |cfg| =>
      IniSection(cfg[i].name, seq(|cfg[i].entries|, k requires 0 <= k < |cfg[i].entries| =>
        (cfg[i].entries[k].key, Render(cfg[i].entries[k].value)))))
  }

  /** A written file as configparser reads it back: every value stripped. */
  function Reread(file: seq<IniSection>): (r: seq<IniSection>)
    ensures |r| == |file|
    ensures forall i :: 0 <= i < |file| ==>
      && r[i].name == file[i].name
      && |r[i].items| == |file[i].items|
      && (forall k :: 0 <= k < |file[i].items| ==>
            r[i].items[k] == (file[i].items[k].0, Text.Strip(file[i].items[k].1)))
  {
    seq(|file|, i requires 0 <= i < |file| =>
      IniSection(file[i].name, seq(|file[i].items|, k requires 0 <= k < |file[i].items| =>
        (file[i].items[k].0, Text.Strip(file[i].items[k].1)))))
  }

  /** The configuration `_load_config` returns and the file it writes, if any. */
  datatype Loaded = Loaded(config: Config, saved: Option<seq<IniSection>>)

  /**
   `_load_config`: with no file, or one configparser refuses, the defaults are
   returned and written; otherwise the file is overlaid on the defaults and,
   when a conversion raised, what was overlaid so far is returned and written.
   */
  function Load(loader: Loader, defaults: Config, file: ConfigFile): (r: Loaded)
    ensures SameShape(defaults, r.config)
    ensures r.saved.Some? ==> r.saved.value == Written(r.config)
    ensures file.Missing? || file.Garbled? ==> r == Loaded(defaults, Some(Written(defaults)))
    ensures file.Present? && !NoDuplicates(file.sections) ==> r == Loaded(defaults, Some(Written(defaults)))
    ensures file.Present? ==> ChangesOnlyMentioned(defaults, r.config, file.sections)
    ensures file.Present? && NoDuplicates(file.sections) ==>
      && r.config == Overlay(loader, defaults, file.sections).0
      && (r.saved.None? <==> Overlay(loader, defaults, file.sections).1)
  {
    match file
    case Missing => Loaded(defaults, Some(Written(defaults)))
    case Garbled => Loaded(defaults, Some(Written(defaults)))
    case Present(sections) =>
      if !NoDuplicates(sections) then Loaded(defaults, Some(Written(defaults)))
      else
        OverlayChanges(loader, defaults, sections);
        var (cfg, ok) := Overlay(loader, defaults, sections);
        if ok then Loaded(cfg, None) else Loaded(cfg, Some(Written(cfg)))
  }

  /** agent.py's `DEFAULT_CONFIG`, for agent id `id` and host name `host`. */
  function AgentDefaults(id: string, host: string): Config {
    [ Section("agent", [Entry("id", StrVal(id)), Entry("name", StrVal(host)),
                        Entry("polling_interval", IntVal(300)), Entry("discovery_interval", IntVal(86400)),
                        Entry("data_dir", StrVal("./data"))]),
      Section("server", [Entry("url", StrVal("https://your-server-domain.com/api")), Entry("token", StrVal(""))]),
      Section("network", [Entry("subnets", ListVal(["192.168.1.0/24"])), Entry("snmp_community", StrVal("public")),
                          Entry("snmp_timeout", IntVal(2))]) ]
  }

  /** Agent/data_collector.py's `DEFAULT_CONFIG`, for agent id `id` and host name `host`. */
  function CollectorDefaults(id: string, host: string): Config {
    [ Section("agent", [Entry("id", StrVal(id)), Entry("name", StrVal(host)),
                        Entry("polling_interval", IntVal(300)), Entry("discovery_interval", IntVal(86400)),
                        Entry("data_dir", StrVal("./data"))]),
      Section("server", [Entry("enabled", BoolVal(false)), Entry("url", StrVal("http://your-server-url.com/api"))]),
      Section("network", [Entry("subnets", ListVal(["192.168.1.0/24"])), Entry("snmp_community", StrVal("public")),
                          Entry("snmp_timeout", IntVal(2))]) ]
  }

  lemma AgentDefaultsWellFormed(id: string, host: string)
    ensures WellFormed(AgentDefaults(id, host))
  {
  }

  lemma CollectorDefaultsWellFormed(id: string, host: string)
    ensures WellFormed(CollectorDefaults(id, host))
  {
  }

  /**
   Which values of a configuration survive a save and a reload, given the
   default they replace: ints; bools only under the corrected loader (as
   written they are read with `getint`); strings without edge whitespace
   (configparser strips values); lists where the loader parses JSON.
   */
  predicate Reloads(loader: Loader, key: string, default: ConfigValue, v: ConfigValue) {
    match default
    case IntVal(_) => v.IntVal?
    case BoolVal(_) => if loader == FixedCollectorLoader then v.BoolVal? else v.IntVal?
    case StrVal(_) => v.StrVal? && Text.Unpadded(v.s)
    case ListVal(_) =>
      if loader == AgentLoader || key == "subnets" then v.ListVal?
      else v.StrVal? && Text.Unpadded(v.s)
  }

  ghost predicate SectionReloads(loader: Loader, defaults: Config, cfg: Config, i: nat)
    requires SameShape(defaults, cfg) && i < |cfg|
  {
    forall k :: 0 <= k < |cfg[i].entries| ==>
      Reloads(loader, cfg[i].entries[k].key, defaults[i].entries[k].value, cfg[i].entries[k].value)
  }

  ghost predicate AllReload(loader: Loader, defaults: Config, cfg: Config)
    requires SameShape(defaults, cfg)
  {
    forall i :: 0 <= i < |cfg| ==> SectionReloads(loader, defaults, cfg, i)
  }

  lemma IntTextUnpadded(n: int)
    ensures Text.Unpadded(Text.IntToString(n))
  {
    Text.NatToStringRoundTrip(if n < 0 then -n else n);
    if n < 0 {
      var s := Text.IntToString(n);
      assert s[|s| - 1] == Text.NatToString(-n)[|Text.NatToString(-n)| - 1];
    }
  }

  lemma ListTextUnpadded(xs: seq<string>)
    ensures Text.Unpadded(JsonList.EncodeList(xs))
  {
    var s := JsonList.EncodeList(xs);
    if |xs| == 0 {
      assert s == "[]";
    } else {
      assert s == "[" + JsonList.EncodeItems(xs) + "]";
      assert s[0] == '[' && s[|s| - 1] == ']';
    }
  }

  lemma IntReloads(n: int)
    ensures GetInt(Text.Strip(Text.IntToString(n))) == Assign(IntVal(n))
  {
    IntTextUnpadded(n);
    Text.StripFixes(Text.IntToString(n));
    Text.IntRoundTrip(n);
  }

  lemma BoolReloads(b: bool)
    ensures ParseBool(Text.Strip(Render(BoolVal(b)))) == Some(b)
  {
    var text := Render(BoolVal(b));
    Text.StripFixes(text);
    var t := Text.AsciiLower(text);
    if b {
      assert t[0] == 't' && t[1] == 'r' && t[2] == 'u' && t[3] == 'e';
      assert t == "true";
    } else {
      assert t[0] == 'f' && t[1] == 'a' && t[2] == 'l' && t[3] == 's' && t[4] == 'e';
      assert t == "false";
    }
  }

  lemma ListReloads(xs: seq<string>)
    ensures JsonList.DecodeList(Text.Strip(JsonList.EncodeList(xs))) == Some(xs)
  {
    ListTextUnpadded(xs);
    Text.StripFixes(JsonList.EncodeList(xs));
    JsonList.ListRoundTrip(xs);
  }

  /** A value that reloads is converted back to itself from its stripped text. */
  lemma ConvertRendered(loader: Loader, key: string, default: ConfigValue, v: ConfigValue)
    requires Reloads(loader, key, default, v)
    ensures Convert(loader, key, default, Text.Strip(Render(v))) == Assign(v)
  {
    match v
    case IntVal(n) => IntReloads(n);
    case BoolVal(b) => BoolReloads(b);
    case StrVal(s) => Text.StripFixes(s);
    case ListVal(xs) => ListReloads(xs);
  }

  /** The first `n` entries of `cfg`'s section `i`, then the rest of `defaults`' section `i`. */
  function MixEntries(defaults: Config, cfg: Config, i: nat, n: nat): (r: seq<Entry>)
    requires SameShape(defaults, cfg) && i < |cfg| && n <= |cfg[i].entries|
    ensures |r| == |cfg[i].entries|
  {
    cfg[i].entries[..n] + defaults[i].entries[n..]
  }

  /** Reading back section `i`'s items from `n` on, over a config whose section `i` is `MixEntries(.., n)`. */
  lemma MixKeyIndex(defaults: Config, cfg: Config, i: nat, n: nat)
    requires WellFormed(defaults) && SameShape(defaults, cfg) && i < |cfg| && n < |cfg[i].entries|
    ensures KeyIndex(MixEntries(defaults, cfg, i, n), cfg[i].entries[n].key) == Some(n)
    ensures MixEntries(defaults, cfg, i, n)[n] == defaults[i].entries[n]
  {
    var es := cfg[i].entries;
    var m := MixEntries(defaults, cfg, i, n);
    assert UniqueKeys(defaults[i].entries);
    assert m[n] == defaults[i].entries[n];
    forall j | 0 <= j < n ensures m[j].key != es[n].key {
      assert m[j] == es[j];
      assert es[j].key == defaults[i].entries[j].key;
    }
  }

  lemma MixEntriesNext(defaults: Config, cfg: Config, mix: Config, i: nat, n: nat)
    requires SameShape(defaults, cfg) && i < |cfg| && n < |cfg[i].entries| && SameShape(defaults, mix)
    requires mix[i].entries == MixEntries(defaults, cfg, i, n)
    ensures SetValue(mix, i, n, cfg[i].entries[n].value)[i].entries == MixEntries(defaults, cfg, i, n + 1)
  {
    var es := cfg[i].entries;
    var m' := SetValue(mix, i, n, es[n].value)[i].entries;
    var want := MixEntries(defaults, cfg, i, n + 1);
    forall j | 0 <= j < |want| ensures m'[j] == want[j] {
      if j == n {
        assert m'[j].key == defaults[i].entries[j].key;
      }
    }
  }

  /** Reading back section `i`'s items from `n` on, over a config whose section `i` is `MixEntries(.., n)`. */
  lemma {:induction false} ReloadItems(loader: Loader, defaults: Config, cfg: Config, mix: Config, i: nat, n: nat)
    requires WellFormed(defaults) && SameShape(defaults, cfg)
    requires i < |cfg| && SectionReloads(loader, defaults, cfg, i)
    requires n <= |cfg[i].entries| && SameShape(defaults, mix)
    requires mix[i].entries == MixEntries(defaults, cfg, i, n)
    ensures var items := Reread(Written(cfg))[i].items;
      OverlayItems(loader, mix, i, items[n..]) == (mix[i := mix[i].(entries := cfg[i].entries)], true)
    decreases |cfg[i].entries| - n
  {
    var items := Reread(Written(cfg))[i].items;
    var es := cfg[i].entries;
    if n == |es| {
      assert items[n..] == [];
      assert MixEntries(defaults, cfg, i, n) == es;
      assert mix[i := mix[i].(entries := es)] == mix;
    } else {
      var key := es[n].key;
      var rest := items[n..];
      assert rest[0] == (key, Text.Strip(Render(es[n].value)));
      assert rest[1..] == items[n + 1..];
      MixKeyIndex(defaults, cfg, i, n);
      ConvertRendered(loader, key, defaults[i].entries[n].value, es[n].value);
      var mix' := SetValue(mix, i, n, es[n].value);
      assert OverlayItems(loader, mix, i, rest) == OverlayItems(loader, mix', i, rest[1..]);
      MixEntriesNext(defaults, cfg, mix, i, n);
      ReloadItems(loader, defaults, cfg, mix', i, n + 1);
      assert mix'[i := mix'[i].(entries := es)] == mix[i := mix[i].(entries := es)];
    }
  }

  /** The section of the read-back file at `n` is found at `n` in a config holding `cfg`'s first `n` sections. */
  lemma MixSectionIndex(defaults: Config, cfg: Config, n: nat)
    requires WellFormed(defaults) && SameShape(defaults, cfg) && n < |cfg|
    ensures SectionIndex(cfg[..n] + defaults[n..], cfg[n].name) == Some(n)
  {
    var mix := cfg[..n] + defaults[n..];
    assert mix[n] == defaults[n];
    forall j | 0 <= j < n ensures mix[j].name != cfg[n].name {
      assert mix[j] == cfg[j];
    }
  }

  lemma MixShape(defaults: Config, cfg: Config, n: nat)
    requires SameShape(defaults, cfg) && n <= |cfg|
    ensures SameShape(defaults, cfg[..n] + defaults[n..])
  {
    var mix := cfg[..n] + defaults[n..];
    forall i | 0 <= i < |mix| ensures mix[i] == if i < n then cfg[i] else defaults[i] { }
  }

  lemma MixNext(defaults: Config, cfg: Config, n: nat)
    requires SameShape(defaults, cfg) && n < |cfg|
    ensures var mix := cfg[..n] + defaults[n..];
      mix[n := mix[n].(entries := cfg[n].entries)] == cfg[..n + 1] + defaults[n + 1..]
  {
    var mix := cfg[..n] + defaults[n..];
    var next := mix[n := mix[n].(entries := cfg[n].entries)];
    assert mix[n] == defaults[n];
    forall i | 0 <= i < |next| ensures next[i] == (cfg[..n + 1] + defaults[n + 1..])[i] {
      if i == n {
        assert next[i] == cfg[n];
      }
    }
  }

  /** Reading back the sections from `n` on, over a config holding `cfg`'s first `n` sections and defaults after. */
  lemma {:induction false} ReloadSections(loader: Loader, defaults: Config, cfg: Config, n: nat)
    requires WellFormed(defaults) && SameShape(defaults, cfg) && AllReload(loader, defaults, cfg)
    requires n <= |cfg|
    ensures Overlay(loader, cfg[..n] + defaults[n..], Reread(Written(cfg))[n..]) == (cfg, true)
    decreases |cfg| - n
  {
    var file := Reread(Written(cfg));
    var mix := cfg[..n] + defaults[n..];
    if n == |cfg| {
      assert file[n..] == [];
      assert mix == cfg;
    } else {
      var rest := file[n..];
      assert rest[0] == file[n] && rest[1..] == file[n + 1..];
      MixSectionIndex(defaults, cfg, n);
      MixShape(defaults, cfg, n);
      assert mix[n] == defaults[n];
      assert mix[n].entries == MixEntries(defaults, cfg, n, 0);
      ReloadItems(loader, defaults, cfg, mix, n, 0);
      assert file[n].items[0..] == file[n].items;
      MixNext(defaults, cfg, n);
      ReloadSections(loader, defaults, cfg, n + 1);
    }
  }

  /**
   Saving a configuration and loading the file back over the same defaults
   returns that configuration and writes nothing, provided it has the
   defaults' shape and every value is one that reloads.
   */
  lemma SaveThenLoad(loader: Loader, defaults: Config, cfg: Config)
    requires WellFormed(defaults) && SameShape(defaults, cfg) && AllReload(loader, defaults, cfg)
    ensures Load(loader, defaults, Present(Reread(Written(cfg)))) == Loaded(cfg, None)
  {
    var file := Reread(Written(cfg));
    SameShapeWellFormed(defaults, cfg);
    assert NoDuplicates(file) by {
      forall s, i, j | 0 <= s < |file| && 0 <= i < j < |file[s].items|
        ensures file[s].items[i].0 != file[s].items[j].0
      {
        assert UniqueKeys(cfg[s].entries);
      }
    }
    assert cfg[..0] + defaults[0..] == defaults;
    assert file[0..] == file;
    ReloadSections(loader, defaults, cfg, 0);
  }

  /** A `[server]` section asking for the server to be enabled, with a changed address. */
  const EnableServer: seq<IniSection> :=
    [IniSection("server", [("enabled", "true"), ("url", "https://printers.example.com/api")])]

  /** A `[server]` section setting `enabled` to `text`, with the same changed address. */
  function EnableFile(text: string): seq<IniSection> {
    [IniSection("server", [("enabled", text), ("url", "https://printers.example.com/api")])]
  }

  /** The spellings of truth that `getint` rejects. */
  lemma WordsAreNotInts()
    ensures Text.ParseInt("true").None? && Text.ParseInt("yes").None? && Text.ParseInt("on").None?
  {
  }

  /**
   As written, Agent/data_collector.py cannot enable its server with any
   `enabled` value `getint` rejects (`true`, `yes` and `on` among them, by
   `WordsAreNotInts`): `getint` raises, so `enabled` stays `False`, the
   address edit after it is dropped, and the file is overwritten with the
   defaults.
   */
  lemma CollectorIgnoresEnable(id: string, host: string, text: string)
    requires Text.ParseInt(text).None?
    ensures Load(CollectorLoader, CollectorDefaults(id, host), Present(EnableFile(text)))
         == Loaded(CollectorDefaults(id, host), Some(Written(CollectorDefaults(id, host))))
  {
    var d := CollectorDefaults(id, host);
    assert SectionIndex(d, "server") == Some(1);
    assert KeyIndex(d[1].entries, "enabled") == Some(0);
    assert Convert(CollectorLoader, "enabled", BoolVal(false), text) == Raise;
  }

  /** A `[server]` section holding `enabled = 1`. */
  const EnableWithOne: seq<IniSection> := [IniSection("server", [("enabled", "1")])]

  /**
   As written, the integer spelling does enable the server: `getint("1")`
   succeeds, `enabled` becomes the int `1`, which is truthy, and nothing is
   rewritten.
   */
  lemma CollectorEnablesWithOne(id: string, host: string)
    ensures var r := Load(CollectorLoader, CollectorDefaults(id, host), Present(EnableWithOne));
      && r.saved.None?
      && Lookup(r.config, "server", "enabled") == Some(IntVal(1))
  {
    var d := CollectorDefaults(id, host);
    assert SectionIndex(d, "server") == Some(1);
    assert KeyIndex(d[1].entries, "enabled") == Some(0);
    assert Text.ParseInt("1") == Some(1);
    var d1 := SetValue(d, 1, 0, IntVal(1));
    assert EnableWithOne[0].items[1..] == [] && EnableWithOne[1..] == [];
    assert Overlay(CollectorLoader, d, EnableWithOne) == (d1, true);
    assert SectionIndex(d1, "server") == Some(1);
    assert KeyIndex(d1[1].entries, "enabled") == Some(0);
  }

  /** A file whose only entry is `[network] subnets = <text>`. */
  function SubnetsFile(text: string): seq<IniSection> {
    [IniSection("network", [("subnets", text)])]
  }

  /**
   The collector keeps its default subnet list when the file's `subnets`
   value is not a JSON list of strings, and rewrites nothing.
   */
  lemma BadSubnetsKeepDefault(loader: Loader, id: string, host: string, text: string)
    requires loader != AgentLoader && JsonList.DecodeList(text).None?
    ensures Load(loader, CollectorDefaults(id, host), Present(SubnetsFile(text))) == Loaded(CollectorDefaults(id, host), None)
  {
    var d := CollectorDefaults(id, host);
    var file := SubnetsFile(text);
    assert SectionIndex(d, "network") == Some(2);
    assert KeyIndex(d[2].entries, "subnets") == Some(0);
    assert Convert(loader, "subnets", d[2].entries[0].value, text) == Keep;
    assert ItemStep(loader, d, 2, ("subnets", text)) == Some(d);
    assert file[0].items[1..] == [] && file[1..] == [];
    assert OverlayItems(loader, d, 2, file[0].items) == (d, true);
    assert Overlay(loader, d, file) == (d, true);
    assert NoDuplicates(file);
  }

  /** agent.py instead lets the `json.loads` error abandon the file and writes its defaults back. */
  lemma AgentBadSubnetsRewrite(id: string, host: string, text: string)
    requires JsonList.DecodeList(text).None?
    ensures var d := AgentDefaults(id, host);
      Load(AgentLoader, d, Present(SubnetsFile(text))) == Loaded(d, Some(Written(d)))
  {
    var d := AgentDefaults(id, host);
    assert SectionIndex(d, "network") == Some(2);
    assert KeyIndex(d[2].entries, "subnets") == Some(0);
  }

  /**
   As written, the file Agent/data_collector.py saves for its own defaults
   does not load back cleanly: `enabled = False` is read with `getint`, which
   raises, so every start rewrites the file.
   */
  lemma CollectorRewritesOwnFile(id: string, host: string)
    requires Text.Unpadded(id) && Text.Unpadded(host)
    ensures var d := CollectorDefaults(id, host);
      Load(CollectorLoader, d, Present(Reread(Written(d)))) == Loaded(d, Some(Written(d)))
  {
    var d := CollectorDefaults(id, host);
    var file := Reread(Written(d));
    AgentSectionReloads(id, host);
    ServerSectionRaises(id, host);
    CollectorDefaultsWellFormed(id, host);
    assert SectionIndex(d, "agent") == Some(0);
    assert file[1..][0] == file[1];
    assert Overlay(CollectorLoader, d, file) == Overlay(CollectorLoader, d, file[1..]);
    assert SectionIndex(d, "server") == Some(1);
    assert Overlay(CollectorLoader, d, file[1..]) == (d, false);
  }

  lemma AgentSectionFits(id: string, host: string)
    requires Text.Unpadded(id) && Text.Unpadded(host)
    ensures var d := CollectorDefaults(id, host);
      SectionReloads(CollectorLoader, d, d, 0)
  {
    assert Text.Unpadded("./data");
  }

  /** The saved `[agent]` section of the collector's defaults loads back to itself. */
  lemma AgentSectionReloads(id: string, host: string)
    requires Text.Unpadded(id) && Text.Unpadded(host)
    ensures var d := CollectorDefaults(id, host);
      OverlayItems(CollectorLoader, d, 0, Reread(Written(d))[0].items) == (d, true)
  {
    var d := CollectorDefaults(id, host);
    CollectorDefaultsWellFormed(id, host);
    AgentSectionFits(id, host);
    assert d[0 := d[0].(entries := d[0].entries)] == d;
    assert MixEntries(d, d, 0, 0) == d[0].entries;
    ReloadItems(CollectorLoader, d, d, d, 0, 0);
    var items := Reread(Written(d))[0].items;
    assert items[0..] == items;
  }

  /** The saved `[server]` section of the collector's defaults raises at `enabled = False`. */
  lemma ServerSectionRaises(id: string, host: string)
    ensures var d := CollectorDefaults(id, host);
      OverlayItems(CollectorLoader, d, 1, Reread(Written(d))[1].items) == (d, false)
  {
    var d := CollectorDefaults(id, host);
    var file := Reread(Written(d));
    Text.StripFixes("False");
    assert file[1].items[0] == ("enabled", "False");
    assert Text.ParseInt("False").None?;
    assert KeyIndex(d[1].entries, "enabled") == Some(0);
  }

  lemma ParseTrue()
    ensures ParseBool("true") == Some(true)
  {
    Text.AsciiLowerKeeps("true");
  }

  /** The collector's defaults with the server enabled and its address replaced. */
  function EnabledDefaults(id: string, host: string, url: string): Config {
    var d := CollectorDefaults(id, host);
    SetValue(SetValue(d, 1, 0, BoolVal(true)), 1, 1, StrVal(url))
  }

  lemma FixedSetsEnabled(id: string, host: string)
    ensures var d := CollectorDefaults(id, host);
      OverlayItems(FixedCollectorLoader, d, 1, EnableServer[0].items)
      == OverlayItems(FixedCollectorLoader, SetValue(d, 1, 0, BoolVal(true)), 1, EnableServer[0].items[1..])
  {
    var d := CollectorDefaults(id, host);
    assert EnableServer[0].items[0] == ("enabled", "true");
    ParseTrue();
    assert KeyIndex(d[1].entries, "enabled") == Some(0);
    assert Convert(FixedCollectorLoader, "enabled", BoolVal(false), "true") == Assign(BoolVal(true));
  }

  lemma FixedSetsUrl(id: string, host: string)
    ensures var d1 := SetValue(CollectorDefaults(id, host), 1, 0, BoolVal(true));
      OverlayItems(FixedCollectorLoader, d1, 1, EnableServer[0].items[1..])
      == (EnabledDefaults(id, host, "https://printers.example.com/api"), true)
  {
    var url := "https://printers.example.com/api";
    var d1 := SetValue(CollectorDefaults(id, host), 1, 0, BoolVal(true));
    var items := EnableServer[0].items[1..];
    assert d1[1].entries[0].key == "enabled" && d1[1].entries[1].key == "url";
    assert KeyIndex(d1[1].entries, "url") == Some(1);
    assert items[0] == ("url", url) && items[1..] == [];
  }

  lemma FixedOverlaysEnable(id: string, host: string)
    ensures Overlay(FixedCollectorLoader, CollectorDefaults(id, host), EnableServer)
         == (EnabledDefaults(id, host, "https://printers.example.com/api"), true)
  {
    FixedSetsEnabled(id, host);
    FixedSetsUrl(id, host);
    assert SectionIndex(CollectorDefaults(id, host), "server") == Some(1);
    assert EnableServer[1..] == [];
  }

  lemma EnabledLookups(id: string, host: string, url: string)
    ensures Lookup(EnabledDefaults(id, host, url), "server", "enabled") == Some(BoolVal(true))
    ensures Lookup(EnabledDefaults(id, host, url), "server", "url") == Some(StrVal(url))
    ensures Lookup(EnabledDefaults(id, host, url), "agent", "id") == Some(StrVal(id))
  {
    var d2 := EnabledDefaults(id, host, url);
    assert d2[0] == CollectorDefaults(id, host)[0];
    assert SectionIndex(d2, "agent") == Some(0);
    assert KeyIndex(d2[0].entries, "id") == Some(0);
    assert d2[1].entries[0] == Entry("enabled", BoolVal(true));
    assert d2[1].entries[1] == Entry("url", StrVal(url));
    assert SectionIndex(d2, "server") == Some(1);
    assert KeyIndex(d2[1].entries, "url") == Some(1);
  }

  /** With the `bool` test first, the same section enables the server and keeps the address. */
  lemma FixedLoaderHonoursEnable(id: string, host: string)
    ensures var r := Load(FixedCollectorLoader, CollectorDefaults(id, host), Present(EnableServer));
      && r.saved.None?
      && Lookup(r.config, "server", "enabled") == Some(BoolVal(true))
      && Lookup(r.config, "server", "url") == Some(StrVal("https://printers.example.com/api"))
      && Lookup(r.config, "agent", "id") == Some(StrVal(id))
  {
    var url := "https://printers.example.com/api";
    FixedOverlaysEnable(id, host);
    assert NoDuplicates(EnableServer) by {
      assert "enabled" != "url";
    }
    assert Load(FixedCollectorLoader, CollectorDefaults(id, host), Present(EnableServer))
        == Loaded(EnabledDefaults(id, host, url), None);
    EnabledLookups(id, host, url);
  }

  /**
   With the `bool` test first, any configuration of the collector's shape
   whose strings carry no edge whitespace, `subnets` included, survives a save
   and a reload, `enabled` in particular.
   */
  lemma FixedCollectorRoundTrip(id: string, host: string, cfg: Config)
    requires SameShape(CollectorDefaults(id, host), cfg)
    requires AllReload(FixedCollectorLoader, CollectorDefaults(id, host), cfg)
    ensures Load(FixedCollectorLoader, CollectorDefaults(id, host), Present(Reread(Written(cfg)))) == Loaded(cfg, None)
  {
    CollectorDefaultsWellFormed(id, host);
    SaveThenLoad(FixedCollectorLoader, CollectorDefaults(id, host), cfg);
  }

  /** agent.py's file, which holds no `bool`, survives a save and a reload. */
  lemma AgentRoundTrip(id: string, host: string, cfg: Config)
    requires SameShape(AgentDefaults(id, host), cfg)
    requires AllReload(AgentLoader, AgentDefaults(id, host), cfg)
    ensures Load(AgentLoader, AgentDefaults(id, host), Present(Reread(Written(cfg)))) == Loaded(cfg, None)
  {
    AgentDefaultsWellFormed(id, host);
    SaveThenLoad(AgentLoader, AgentDefaults(id, host), cfg);
  }
}
