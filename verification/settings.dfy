/**
 * The value-level specification of AppConfig's settings store
 * (src/appconfig.cpp): what one save pass writes into the key-value store,
 * what one restore pass writes back into the registered objects, how the
 * name-filter lists are derived, the language guard and translation
 * discovery.  The class in appconfig.dfy is proved against these functions.
 *
 * Qt's reflection is abstracted as a property table per object
 * (name -> value and writability) and QSettings as a map from full key to
 * value.
 */
module Settings {
  import opened Strings

  /** A QVariant, restricted to the kinds the registered objects use. */
  datatype Value =
    | Bool(b: bool)
    | Int(i: int)
    | Str(s: string)
    | StrList(items: seq<string>)
    | Bytes(bytes: seq<bv8>)

  /** One declared property of an object: its current value and whether it has a WRITE accessor. */
  datatype Property = Property(value: Value, writable: bool)

  type PropertyTable = map<string, Property>

  /** QSettings: full key ("current/Class/object_prop") to value. */
  type Store = map<string, Value>

  /** The two top-level settings groups. */
  datatype Group = Default | Current

  function GroupPrefix(g: Group): string
  {
    if g == Default then "default/" else "current/"
  }

  /** The key a pass uses: group prefix and class name as the QSettings group, then "<object>_<property>". */
  function Key(g: Group, className: string, objectName: string, propName: string): string
  {
    GroupPrefix(g) + className + "/" + objectName + "_" + propName
  }

  /** Does some key of the store lie under the given top-level group (QSettings::childGroups)? */
  predicate HasGroup(store: Store, name: string)
  {
    exists k :: k in store && InGroup(k, name)
  }

  /** The key lies under the top-level group `name`: it starts with `name` and a '/'. */
  predicate InGroup(k: string, name: string)
  {
    |name| + 1 <= |k| && k[..|name| + 1] == name + "/"
  }

  /** A key built for the default group lies under "default". */
  lemma KeyInGroup(g: Group, className: string, objectName: string, propName: string)
    ensures var k := Key(g, className, objectName, propName);
      (g == Default ==> k[..8] == "default/") && (g == Current ==> k[..8] == "current/")
  {
    var k := Key(g, className, objectName, propName);
    assert k == GroupPrefix(g) + (className + "/" + objectName + "_" + propName);
  }

  // ---------------------------------------------------------------------------
  // Header and source name filters

  /** One filter group (header or source) of AppConfig with its cached list. */
  datatype NameFilters = NameFilters(
    parseEnabled: bool,
    standardFiltersEnabled: bool,
    currentStandardFilterIndex: int,
    currentStandardFilter: string,
    customFilters: string,
    cached: seq<string>,
    dirty: bool)

  /** Every token of a split consists of characters of the split string. */
  lemma {:induction false} SplitTokensFrom(s: string, sep: char)
    ensures forall w, c :: w in Split(s, sep) && c in w ==> c in s
  {
    if |s| > 0 {
      SplitTokensFrom(s[1..], sep);
      var rest := Split(s[1..], sep);
      forall w, c | w in Split(s, sep) && c in w ensures c in s {
        if s[0] != sep && w == [s[0]] + rest[0] {
          if c != s[0] {
            assert c in rest[0];
          }
        } else {
          assert w in rest;
        }
      }
    }
  }

  /** The filter list a group stands for: nothing when parsing is off, the selected
      standard filter, or the custom string without spaces split on ';'. */
  function Derive(f: NameFilters): (r: seq<string>)
    ensures !f.parseEnabled ==> r == []
    ensures f.parseEnabled && f.standardFiltersEnabled ==> r == [f.currentStandardFilter]
    ensures f.parseEnabled && !f.standardFiltersEnabled ==>
      |r| >= 1 && Join(r, ";") == RemoveSpaces(f.customFilters) &&
      forall t :: t in r ==> ' ' !in t && ';' !in t
  {
    if !f.parseEnabled then []
    else if f.standardFiltersEnabled then [f.currentStandardFilter]
    else
      JoinSplit(RemoveSpaces(f.customFilters), ';');
      SplitTokensFrom(RemoveSpaces(f.customFilters), ';');
      Split(RemoveSpaces(f.customFilters), ';')
  }

  /** The cache agrees with the settings whenever it is marked clean. */
  predicate Coherent(f: NameFilters)
  {
    !f.dirty ==> f.cached == Derive(f)
  }

  /** The group after a getter call that found it dirty: the list is rebuilt, the flag
      cleared, and the custom string has lost its spaces if it was used. */
  function Refreshed(f: NameFilters): NameFilters
  {
    var custom := if f.parseEnabled && !f.standardFiltersEnabled then RemoveSpaces(f.customFilters) else f.customFilters;
    f.(customFilters := custom, cached := Derive(f), dirty := false)
  }

  /** Rebuilding the cache does not change what the group stands for, and leaves it coherent. */
  lemma RefreshedKeepsFilters(f: NameFilters)
    ensures Derive(Refreshed(f)) == Derive(f)
    ensures Coherent(Refreshed(f)) && !Refreshed(f).dirty
  {
    if f.parseEnabled && !f.standardFiltersEnabled {
      RemoveSpacesIdempotent(f.customFilters);
    }
  }

  /** A custom string with a space after a ';': "a.h; b.h;c.h" becomes three filters. */
  lemma CustomFiltersExample(f: NameFilters)
    requires f.parseEnabled && !f.standardFiltersEnabled && f.customFilters == "a.h; b.h;c.h"
    ensures Derive(f) == ["a.h", "b.h", "c.h"]
  {
    ExampleStripped("a.h;", "b.h;c.h");
    assert "a.h;" + " " + "b.h;c.h" == "a.h; b.h;c.h";
    assert "a.h;" + "b.h;c.h" == "a.h;b.h;c.h";
    ExampleSplit();
  }

  lemma ExampleStripped(a: string, b: string)
    requires a == "a.h;" && b == "b.h;c.h"
    ensures RemoveSpaces(a + " " + b) == a + b
  {
    RemoveSpacesKeeps(a, b);
    RemoveSpacesNoop(b);
  }

  lemma ExampleSplit()
    ensures Split("a.h;b.h;c.h", ';') == ["a.h", "b.h", "c.h"]
  {
    assert Join(["a.h", "b.h", "c.h"], [';']) == "a.h;b.h;c.h";
    SplitJoin(["a.h", "b.h", "c.h"], ';');
  }

  /** Empty tokens survive the split: ";x" gives an empty first filter. */
  lemma EmptyTokensKept(f: NameFilters)
    requires f.parseEnabled && !f.standardFiltersEnabled && f.customFilters == ";x"
    ensures Derive(f) == ["", "x"]
  {
    RemoveSpacesNoop(";x");
    assert Join(["", "x"], [';']) == ";x";
    SplitJoin(["", "x"], ';');
  }

  // ---------------------------------------------------------------------------
  // AppConfig's own persisted state

  /** The fields of AppConfig that its properties read and its setters write. */
  datatype ConfigState = ConfigState(
    language: string,
    availableTranslations: map<string, string>,
    scanByFolders: bool,
    recursiveScan: bool,
    hiddenFoldersIncluded: bool,
    selectedFolders: seq<string>,
    showDonateOnExit: bool,
    hdr: NameFilters,
    src: NameFilters)

  const ConfigClassName: string := "depgraphV::AppConfig"

  /** AppConfig never sets its object name, so it is QObject's default, the empty string. */
  const ConfigObjectName: string := ""

  /** AppConfig::propList: the general properties, then the header and the source filter group. */
  const ConfigPropList: seq<string> := GeneralProps + HdrProps + SrcProps

  const GeneralProps: seq<string> := [
    "language", "scanByFolders", "isRecursiveScanEnabled", "hiddenFoldersIncluded",
    "selectedFolders", "showDonateOnExit"]

  const HdrProps: seq<string> := [
    "hdr_parseEnabled", "hdr_standardFiltersEnabled", "hdr_currentStandardFilterIndex", "hdr_customFilters"]

  const SrcProps: seq<string> := [
    "src_parseEnabled", "src_standardFiltersEnabled", "src_currentStandardFilterIndex", "src_customFilters"]

  /** AppConfig::setLanguage, its guard and assignment. */
  function SetLanguage(c: ConfigState, value: string): (r: ConfigState)
    ensures value in c.availableTranslations ==> r.language == value
    ensures value !in c.availableTranslations ==> r == c
    ensures r == c.(language := r.language)
  {
    if c.language == value || value !in c.availableTranslations then c
    else c.(language := value)
  }

  /** The value the READ accessor of a listed property returns. */
  function OwnValue(c: ConfigState, name: string): Value
  {
    if name in HdrProps then FilterValue(c.hdr, name)
    else if name in SrcProps then FilterValue(c.src, name)
    else GeneralValue(c, name)
  }

  /** The READ accessors of the general properties. */
  function GeneralValue(c: ConfigState, name: string): Value
  {
    match name
    case "language" => Str(c.language)
    case "scanByFolders" => Bool(c.scanByFolders)
    case "isRecursiveScanEnabled" => Bool(c.recursiveScan)
    case "hiddenFoldersIncluded" => Bool(c.hiddenFoldersIncluded)
    case "selectedFolders" => StrList(c.selectedFolders)
    case "showDonateOnExit" => Bool(c.showDonateOnExit)
    case _ => Bool(false)
  }

  /** The READ accessors of one filter group: the header group's properties carry the
      prefix "hdr_", the source group's the prefix "src_". */
  function FilterValue(f: NameFilters, name: string): Value
  {
    match name
    case "hdr_parseEnabled" | "src_parseEnabled" => Bool(f.parseEnabled)
    case "hdr_standardFiltersEnabled" | "src_standardFiltersEnabled" => Bool(f.standardFiltersEnabled)
    case "hdr_currentStandardFilterIndex" | "src_currentStandardFilterIndex" => Int(f.currentStandardFilterIndex)
    case "hdr_customFilters" | "src_customFilters" => Str(f.customFilters)
    case _ => Bool(false)
  }

  /** Two values of the same QVariant kind. */
  predicate SameKind(a: Value, b: Value)
  {
    (a.Bool? && b.Bool?) || (a.Int? && b.Int?) || (a.Str? && b.Str?) ||
    (a.StrList? && b.StrList?) || (a.Bytes? && b.Bytes?)
  }

  /** The values a general property's setter takes: one of the property's kind, and for
      "language" only a known translation. */
  predicate GeneralAccepts(c: ConfigState, name: string, v: Value)
  {
    SameKind(v, GeneralValue(c, name)) && (name == "language" ==> v.Str? && v.s in c.availableTranslations)
  }

  /** The values the setter of AppConfig's listed property `name` takes: one of the
      property's kind, and for "language" only a known translation. */
  predicate ConfigAccepts(c: ConfigState, name: string, v: Value)
  {
    SameKind(v, OwnValue(c, name)) && (name == "language" ==> v.Str? && v.s in c.availableTranslations)
  }

  /** AppConfig's property table: every listed property, all writable. */
  function OwnTable(c: ConfigState): PropertyTable
  {
    map n | n in ConfigPropList :: Property(OwnValue(c, n), true)
  }

  /** Every listed name is one of AppConfig's properties. */
  lemma OwnTableKeys(c: ConfigState)
    ensures forall n :: n in OwnTable(c) <==> n in ConfigPropList
  {
  }

  /** Every listed property of AppConfig is known and writable. */
  lemma OwnTableEntry(c: ConfigState, n: string)
    requires n in ConfigPropList
    ensures n in OwnTable(c) && OwnTable(c)[n].writable
  {
  }

  /** What the WRITE accessor of a listed property does; a value of another kind
      than the property's leaves the state unchanged. */
  function SetOwnProperty(c: ConfigState, name: string, v: Value): (r: ConfigState)
    ensures r.availableTranslations == c.availableTranslations
    ensures r.language == c.language || r.language in c.availableTranslations
    ensures r.hdr == c.hdr || r.hdr.dirty
    ensures r.src == c.src || r.src.dirty
  {
    if name in HdrProps then c.(hdr := SetFilterProperty(c.hdr, name, v))
    else if name in SrcProps then c.(src := SetFilterProperty(c.src, name, v))
    else SetGeneralProperty(c, name, v)
  }

  /** The WRITE accessors of the general properties: a value of the property's kind is
      what the property reads afterwards (for "language", only a known translation is taken);
      every field behind another property, and the filter groups, are left alone. */
  function SetGeneralProperty(c: ConfigState, name: string, v: Value): (r: ConfigState)
    ensures r.availableTranslations == c.availableTranslations
    ensures r.language == c.language || r.language in c.availableTranslations
    ensures r.hdr == c.hdr && r.src == c.src
    ensures name in GeneralProps && GeneralAccepts(c, name, v) ==> GeneralValue(r, name) == v
    ensures !(name in GeneralProps && GeneralAccepts(c, name, v)) ==> r == c
    ensures name != "language" ==> r.language == c.language
    ensures name != "scanByFolders" ==> r.scanByFolders == c.scanByFolders
    ensures name != "isRecursiveScanEnabled" ==> r.recursiveScan == c.recursiveScan
    ensures name != "hiddenFoldersIncluded" ==> r.hiddenFoldersIncluded == c.hiddenFoldersIncluded
    ensures name != "selectedFolders" ==> r.selectedFolders == c.selectedFolders
    ensures name != "showDonateOnExit" ==> r.showDonateOnExit == c.showDonateOnExit
  {
    match name
    case "language" => if v.Str? then SetLanguage(c, v.s) else c
    case "scanByFolders" => if v.Bool? then c.(scanByFolders := v.b) else c
    case "isRecursiveScanEnabled" => if v.Bool? then c.(recursiveScan := v.b) else c
    case "hiddenFoldersIncluded" => if v.Bool? then c.(hiddenFoldersIncluded := v.b) else c
    case "selectedFolders" => if v.StrList? then c.(selectedFolders := v.items) else c
    case "showDonateOnExit" => if v.Bool? then c.(showDonateOnExit := v.b) else c
    case _ => c
  }

  /** The WRITE accessors of one filter group: a value of the property's kind is what the
      property reads afterwards and marks the cache stale; every other field, the cache
      and the selected standard filter included, is left alone; any other value changes nothing. */
  function SetFilterProperty(f: NameFilters, name: string, v: Value): (r: NameFilters)
    ensures r == f || r.dirty
    ensures r.cached == f.cached && r.currentStandardFilter == f.currentStandardFilter
    ensures (name in HdrProps || name in SrcProps) && SameKind(v, FilterValue(f, name)) ==>
      FilterValue(r, name) == v && r.dirty
    ensures !((name in HdrProps || name in SrcProps) && SameKind(v, FilterValue(f, name))) ==> r == f
    ensures name != "hdr_parseEnabled" && name != "src_parseEnabled" ==> r.parseEnabled == f.parseEnabled
    ensures name != "hdr_standardFiltersEnabled" && name != "src_standardFiltersEnabled" ==>
      r.standardFiltersEnabled == f.standardFiltersEnabled
    ensures name != "hdr_currentStandardFilterIndex" && name != "src_currentStandardFilterIndex" ==>
      r.currentStandardFilterIndex == f.currentStandardFilterIndex
    ensures name != "hdr_customFilters" && name != "src_customFilters" ==> r.customFilters == f.customFilters
  {
    match name
    case "hdr_parseEnabled" | "src_parseEnabled" =>
      if v.Bool? then f.(parseEnabled := v.b, dirty := true) else f
    case "hdr_standardFiltersEnabled" | "src_standardFiltersEnabled" =>
      if v.Bool? then f.(standardFiltersEnabled := v.b, dirty := true) else f
    case "hdr_currentStandardFilterIndex" | "src_currentStandardFilterIndex" =>
      if v.Int? then f.(currentStandardFilterIndex := v.i, dirty := true) else f
    case "hdr_customFilters" | "src_customFilters" =>
      if v.Str? then f.(customFilters := v.s, dirty := true) else f
    case _ => f
  }

  /** Get after set: a value of a listed property's kind, written through its setter, is
      what the property reads afterwards ("language" takes only a known translation), and
      every other listed property reads as before. */
  lemma SetOwnPropertyGetSet(c: ConfigState, name: string, v: Value)
    requires name in ConfigPropList && ConfigAccepts(c, name, v)
    ensures OwnValue(SetOwnProperty(c, name, v), name) == v
    ensures forall m :: m in ConfigPropList && m != name ==>
      OwnValue(SetOwnProperty(c, name, v), m) == OwnValue(c, m)
  {
    var r := SetOwnProperty(c, name, v);
    if name in HdrProps {
      assert OwnValue(c, name) == FilterValue(c.hdr, name);
      assert r.hdr == SetFilterProperty(c.hdr, name, v);
    } else if name in SrcProps {
      assert OwnValue(c, name) == FilterValue(c.src, name);
      assert r.src == SetFilterProperty(c.src, name, v);
    } else {
      assert name in GeneralProps;
      assert GeneralAccepts(c, name, v);
    }
    forall m | m in ConfigPropList && m != name
      ensures OwnValue(r, m) == OwnValue(c, m)
    {
      OtherPropertyKept(c, name, v, m);
    }
  }

  /** Writing one listed property leaves another one's value alone. */
  lemma OtherPropertyKept(c: ConfigState, name: string, v: Value, m: string)
    requires name in ConfigPropList && m in ConfigPropList && m != name
    ensures OwnValue(SetOwnProperty(c, name, v), m) == OwnValue(c, m)
  {
    var r := SetOwnProperty(c, name, v);
    if name in HdrProps {
      assert r == c.(hdr := SetFilterProperty(c.hdr, name, v));
      if m in HdrProps {
        FilterValueKept(c.hdr, name, v, m);
      } else if m !in SrcProps {
        assert GeneralValue(r, m) == GeneralValue(c, m);
      }
    } else if name in SrcProps {
      assert r == c.(src := SetFilterProperty(c.src, name, v));
      if m in SrcProps {
        FilterValueKept(c.src, name, v, m);
      } else if m !in HdrProps {
        assert GeneralValue(r, m) == GeneralValue(c, m);
      }
    } else {
      assert r == SetGeneralProperty(c, name, v);
      if m !in HdrProps && m !in SrcProps {
        GeneralValueKept(c, name, v, m);
      }
    }
  }

  /** A general property's setter leaves every other general property alone. */
  lemma GeneralValueKept(c: ConfigState, name: string, v: Value, m: string)
    requires m in GeneralProps && m != name
    ensures GeneralValue(SetGeneralProperty(c, name, v), m) == GeneralValue(c, m)
  {
    var r := SetGeneralProperty(c, name, v);
    match m
    case "language" => assert r.language == c.language;
    case "scanByFolders" => assert r.scanByFolders == c.scanByFolders;
    case "isRecursiveScanEnabled" => assert r.recursiveScan == c.recursiveScan;
    case "hiddenFoldersIncluded" => assert r.hiddenFoldersIncluded == c.hiddenFoldersIncluded;
    case "selectedFolders" => assert r.selectedFolders == c.selectedFolders;
    case "showDonateOnExit" => assert r.showDonateOnExit == c.showDonateOnExit;
  }

  /** A filter property's setter leaves the other properties of its group alone. */
  lemma FilterValueKept(f: NameFilters, name: string, v: Value, m: string)
    requires (name in HdrProps && m in HdrProps) || (name in SrcProps && m in SrcProps)
    requires m != name
    ensures FilterValue(SetFilterProperty(f, name, v), m) == FilterValue(f, m)
  {
    var r := SetFilterProperty(f, name, v);
    match m
    case "hdr_parseEnabled" | "src_parseEnabled" => assert r.parseEnabled == f.parseEnabled;
    case "hdr_standardFiltersEnabled" | "src_standardFiltersEnabled" =>
      assert r.standardFiltersEnabled == f.standardFiltersEnabled;
    case "hdr_currentStandardFilterIndex" | "src_currentStandardFilterIndex" =>
      assert r.currentStandardFilterIndex == f.currentStandardFilterIndex;
    case "hdr_customFilters" | "src_customFilters" => assert r.customFilters == f.customFilters;
  }

  /** A value the setter refuses, of another kind than the property's or an unknown
      language, leaves the state unchanged. */
  lemma SetOwnPropertyRefused(c: ConfigState, name: string, v: Value)
    requires name in ConfigPropList && !ConfigAccepts(c, name, v)
    ensures SetOwnProperty(c, name, v) == c
  {
    if name in HdrProps {
      assert OwnValue(c, name) == FilterValue(c.hdr, name);
    } else if name in SrcProps {
      assert OwnValue(c, name) == FilterValue(c.src, name);
    } else {
      assert name in GeneralProps && !GeneralAccepts(c, name, v);
    }
  }

  /** The invariant AppConfig keeps: both caches coherent, the language a known translation. */
  predicate ConfigValid(c: ConfigState)
  {
    Coherent(c.hdr) && Coherent(c.src) && c.language in c.availableTranslations
  }

  /** Writing a property through its setter keeps the invariant and the translation table. */
  lemma SetOwnPropertyValid(c: ConfigState, name: string, v: Value)
    requires ConfigValid(c)
    ensures ConfigValid(SetOwnProperty(c, name, v))
    ensures SetOwnProperty(c, name, v).availableTranslations == c.availableTranslations
  {
  }

  /** The part of the state the properties expose: everything but the filter caches. */
  function Persistent(c: ConfigState): ConfigState
  {
    c.(hdr := c.hdr.(cached := [], dirty := false), src := c.src.(cached := [], dirty := false))
  }

  /** The property table depends only on the persistent part of the state. */
  lemma OwnTablePersistent(c: ConfigState, d: ConfigState)
    requires Persistent(c) == Persistent(d)
    ensures OwnTable(c) == OwnTable(d)
  {
    assert c.hdr.(cached := [], dirty := false) == d.hdr.(cached := [], dirty := false);
    assert c.src.(cached := [], dirty := false) == d.src.(cached := [], dirty := false);
    forall n | n in ConfigPropList ensures OwnValue(c, n) == OwnValue(d, n) {
    }
  }

  /** Writing back the value a property already reads leaves every property as it was
      (only a dirty flag may be raised). */
  lemma SetOwnPropertySame(c: ConfigState, name: string)
    requires name in ConfigPropList
    ensures OwnTable(SetOwnProperty(c, name, OwnValue(c, name))) == OwnTable(c)
  {
    var c' := SetOwnProperty(c, name, OwnValue(c, name));
    if name in HdrProps {
      SameFilterValue(c.hdr, name);
    } else if name in SrcProps {
      SameFilterValue(c.src, name);
    } else {
      SameGeneralValue(c, name);
    }
    assert Persistent(c') == Persistent(c);
    OwnTablePersistent(c', c);
  }

  /** Writing back a general property's own value changes nothing. */
  lemma SameGeneralValue(c: ConfigState, name: string)
    requires name in GeneralProps
    ensures SetGeneralProperty(c, name, GeneralValue(c, name)) == c
  {
  }

  /** Writing back a filter property's own value only marks the cache stale. */
  lemma SameFilterValue(f: NameFilters, name: string)
    requires name in HdrProps || name in SrcProps
    ensures SetFilterProperty(f, name, FilterValue(f, name)) == f.(dirty := true)
  {
  }

  // ---------------------------------------------------------------------------
  // Registered objects, as seen by a pass

  /** A registered object: AppConfig itself, or another object with its own property table. */
  datatype ObjState =
    | ConfigObject(config: ConfigState)
    | PlainObject(isQObject: bool, className: string, objectName: string,
                  propList: seq<string>, properties: PropertyTable)

  predicate IsQObject(o: ObjState)
  {
    o.ConfigObject? || o.isQObject
  }

  function ClassOf(o: ObjState): string
  {
    if o.ConfigObject? then ConfigClassName else o.className
  }

  function NameOf(o: ObjState): string
  {
    if o.ConfigObject? then ConfigObjectName else o.objectName
  }

  function PropsOf(o: ObjState): seq<string>
  {
    if o.ConfigObject? then ConfigPropList else o.propList
  }

  function TableOf(o: ObjState): PropertyTable
  {
    if o.ConfigObject? then OwnTable(o.config) else o.properties
  }

  function ObjKey(g: Group, o: ObjState, n: string): string
  {
    Key(g, ClassOf(o), NameOf(o), n)
  }

  /** QMetaProperty::write of a known property. */
  function WriteProperty(o: ObjState, n: string, v: Value): (r: ObjState)
    requires n in TableOf(o)
    ensures r.ConfigObject? == o.ConfigObject?
    ensures ClassOf(r) == ClassOf(o) && NameOf(r) == NameOf(o) && PropsOf(r) == PropsOf(o)
    ensures IsQObject(r) == IsQObject(o)
    ensures TableOf(r).Keys == TableOf(o).Keys
    ensures forall m :: m in TableOf(o) ==> TableOf(r)[m].writable == TableOf(o)[m].writable
    ensures o.PlainObject? ==> TableOf(r) == TableOf(o)[n := Property(v, TableOf(o)[n].writable)]
  {
    match o
    case ConfigObject(c) => ConfigObject(SetOwnProperty(c, n, v))
    case PlainObject(_, _, _, _, props) => o.(properties := props[n := Property(v, props[n].writable)])
  }

  // ---------------------------------------------------------------------------
  // The save pass

  /** The keys a save pass writes for one object: one per listed property it has. */
  function KeysOf(g: Group, o: ObjState): set<string>
  {
    if IsQObject(o) then set n | n in PropsOf(o) && n in TableOf(o) :: ObjKey(g, o, n) else {}
  }

  /** A listed, known property of a QObject has its key among the object's keys. */
  lemma InKeysOf(g: Group, o: ObjState, n: string)
    requires IsQObject(o) && n in PropsOf(o) && n in TableOf(o)
    ensures ObjKey(g, o, n) in KeysOf(g, o)
  {
  }

  /** Saving the listed properties `names` of `o`, in order; unknown names are skipped. */
  function SaveProps(store: Store, g: Group, o: ObjState, names: seq<string>): (r: Store)
    ensures r.Keys == store.Keys + set n | n in names && n in TableOf(o) :: ObjKey(g, o, n)
  {
    if names == [] then store
    else
      var s := SaveProps(store, g, o, names[..|names| - 1]);
      var n := names[|names| - 1];
      assert forall m :: m in names <==> m in names[..|names| - 1] || m == n;
      if n in TableOf(o) then s[ObjKey(g, o, n) := TableOf(o)[n].value] else s
  }

  /** Saving one more listed property extends the save of the names before it. */
  lemma SavePropsStep(store: Store, g: Group, o: ObjState, names: seq<string>, k: nat)
    requires k < |names|
    ensures var s := SaveProps(store, g, o, names[..k]);
      SaveProps(store, g, o, names[..k + 1]) ==
        if names[k] in TableOf(o) then s[ObjKey(g, o, names[k]) := TableOf(o)[names[k]].value] else s
  {
    assert names[..k + 1][..k] == names[..k];
  }

  /** One object's part of a save pass; objects that are not QObjects are skipped. */
  function SaveObject(store: Store, g: Group, o: ObjState): Store
  {
    if IsQObject(o) then SaveProps(store, g, o, PropsOf(o)) else store
  }

  /** Saving one object leaves every key that is not one of its own as it was. */
  lemma SaveObjectFrame(store: Store, g: Group, o: ObjState, k: string)
    requires k in store && k !in KeysOf(g, o)
    ensures k in SaveObject(store, g, o) && SaveObject(store, g, o)[k] == store[k]
  {
    if IsQObject(o) {
      SavePropsFrame(store, g, o, PropsOf(o), k);
    }
  }

  /** The whole save pass over the registry, in registration order. */
  function SaveAll(store: Store, g: Group, objs: seq<ObjState>): Store
  {
    if objs == [] then store
    else SaveObject(SaveAll(store, g, objs[..|objs| - 1]), g, objs[|objs| - 1])
  }

  /** All keys a save pass over `objs` writes. */
  function SavedKeys(g: Group, objs: seq<ObjState>): set<string>
  {
    if objs == [] then {} else SavedKeys(g, objs[..|objs| - 1]) + KeysOf(g, objs[|objs| - 1])
  }

  /** Within one object the key determines the property name. */
  lemma KeyInjective(g: Group, cls: string, obj: string, n: string, m: string)
    requires Key(g, cls, obj, n) == Key(g, cls, obj, m)
    ensures n == m
  {
    var p := GroupPrefix(g) + cls + "/" + obj + "_";
    assert Key(g, cls, obj, n) == p + n && Key(g, cls, obj, m) == p + m;
    assert n == (p + n)[|p|..];
  }

  /** A save writes each listed known property's current value under its key. */
  lemma {:induction false} SavePropsValue(store: Store, g: Group, o: ObjState, names: seq<string>, n: string)
    requires n in names && n in TableOf(o)
    ensures SaveProps(store, g, o, names)[ObjKey(g, o, n)] == TableOf(o)[n].value
  {
    var last := names[|names| - 1];
    if last in TableOf(o) && ObjKey(g, o, last) == ObjKey(g, o, n) {
      KeyInjective(g, ClassOf(o), NameOf(o), last, n);
    } else {
      assert n in names[..|names| - 1];
      SavePropsValue(store, g, o, names[..|names| - 1], n);
    }
  }

  /** A save leaves every key it does not own exactly as it was. */
  lemma {:induction false} SavePropsFrame(store: Store, g: Group, o: ObjState, names: seq<string>, k: string)
    requires k in store
    requires forall n :: n in names && n in TableOf(o) ==> ObjKey(g, o, n) != k
    ensures SaveProps(store, g, o, names)[k] == store[k]
  {
    if names != [] {
      SavePropsFrame(store, g, o, names[..|names| - 1], k);
    }
  }

  /** The whole save pass writes exactly the keys of the registered objects and
      leaves every other key of the store untouched. */
  lemma {:induction false} SaveAllFrame(store: Store, g: Group, objs: seq<ObjState>)
    ensures SaveAll(store, g, objs).Keys == store.Keys + SavedKeys(g, objs)
    ensures forall k :: k in store && k !in SavedKeys(g, objs) ==> SaveAll(store, g, objs)[k] == store[k]
  {
    if objs != [] {
      var init := objs[..|objs| - 1];
      var o := objs[|objs| - 1];
      SaveAllFrame(store, g, init);
      forall k | k in store && k !in SavedKeys(g, objs)
        ensures SaveAll(store, g, objs)[k] == store[k]
      {
        if IsQObject(o) {
          SavePropsFrame(SaveAll(store, g, init), g, o, PropsOf(o), k);
        }
      }
    }
  }

  /** No key of one registered object is also a key of another. */
  predicate KeysDisjoint(g: Group, objs: seq<ObjState>)
  {
    forall i, j :: 0 <= i < j < |objs| ==> KeysOf(g, objs[i]) !! KeysOf(g, objs[j])
  }

  lemma KeysDisjointPrefix(g: Group, objs: seq<ObjState>, k: nat)
    requires KeysDisjoint(g, objs) && k <= |objs|
    ensures KeysDisjoint(g, objs[..k])
  {
    forall i, j | 0 <= i < j < k ensures KeysOf(g, objs[..k][i]) !! KeysOf(g, objs[..k][j]) {
      assert objs[..k][i] == objs[i] && objs[..k][j] == objs[j];
    }
  }

  /** Every key of every registered object is among the keys a pass writes. */
  lemma {:induction false} SavedKeysInclude(g: Group, objs: seq<ObjState>, i: nat)
    requires i < |objs|
    ensures KeysOf(g, objs[i]) <= SavedKeys(g, objs)
  {
    if i < |objs| - 1 {
      SavedKeysInclude(g, objs[..|objs| - 1], i);
      assert objs[..|objs| - 1][i] == objs[i];
    }
  }

  /** A pass writes no key that belongs to no registered object. */
  lemma {:induction false} SavedKeysOwned(g: Group, objs: seq<ObjState>, k: string)
    requires k in SavedKeys(g, objs)
    ensures exists i :: 0 <= i < |objs| && k in KeysOf(g, objs[i])
  {
    var init := objs[..|objs| - 1];
    if k !in KeysOf(g, objs[|objs| - 1]) {
      SavedKeysOwned(g, init, k);
      var i :| 0 <= i < |init| && k in KeysOf(g, init[i]);
      assert objs[i] == init[i];
    }
  }

  /** A store holding a key under "default/" has the default group. */
  lemma HasDefaultGroup(store: Store, k: string)
    requires k in store && |k| >= 8 && k[..8] == "default/"
    ensures HasGroup(store, "default")
  {
    assert "default" + "/" == "default/";
  }

  /** A default save pass that writes some key creates the default group. */
  lemma SaveCreatesGroup(store: Store, objs: seq<ObjState>, i: nat, n: string)
    requires i < |objs| && IsQObject(objs[i]) && n in PropsOf(objs[i]) && n in TableOf(objs[i])
    ensures HasGroup(SaveAll(store, Default, objs), "default")
  {
    var k := ObjKey(Default, objs[i], n);
    InKeysOf(Default, objs[i], n);
    SavedKeysInclude(Default, objs, i);
    SaveAllFrame(store, Default, objs);
    KeyInGroup(Default, ClassOf(objs[i]), NameOf(objs[i]), n);
    HasDefaultGroup(SaveAll(store, Default, objs), k);
  }

  /** With disjoint keys, after a whole save pass every key of object i holds object i's value. */
  lemma {:induction false} SaveAllValue(store: Store, g: Group, objs: seq<ObjState>, i: nat, n: string)
    requires KeysDisjoint(g, objs)
    requires i < |objs| && IsQObject(objs[i]) && n in PropsOf(objs[i]) && n in TableOf(objs[i])
    ensures ObjKey(g, objs[i], n) in SaveAll(store, g, objs)
    ensures SaveAll(store, g, objs)[ObjKey(g, objs[i], n)] == TableOf(objs[i])[n].value
  {
    var init := objs[..|objs| - 1];
    var o := objs[|objs| - 1];
    if i == |objs| - 1 {
      SavePropsValue(SaveAll(store, g, init), g, o, PropsOf(o), n);
    } else {
      KeysDisjointPrefix(g, objs, |objs| - 1);
      assert init[i] == objs[i];
      SaveAllValue(store, g, init, i, n);
      InKeysOf(g, objs[i], n);
      assert KeysOf(g, objs[i]) !! KeysOf(g, o);
      SaveObjectFrame(SaveAll(store, g, init), g, o, ObjKey(g, objs[i], n));
    }
  }

  // ---------------------------------------------------------------------------
  // The restore pass

  /** Restoring one property: only a known, writable property whose key is stored is written. */
  function RestoreProp(o: ObjState, store: Store, g: Group, n: string): ObjState
  {
    if n in TableOf(o) && TableOf(o)[n].writable && ObjKey(g, o, n) in store
    then WriteProperty(o, n, store[ObjKey(g, o, n)])
    else o
  }

  /** Restoring one property of an ordinary object touches at most its own table entry. */
  lemma RestorePropPlain(o: ObjState, store: Store, g: Group, n: string)
    requires o.PlainObject?
    ensures var key := Key(g, o.className, o.objectName, n);
      RestoreProp(o, store, g, n) ==
        if n in o.properties && o.properties[n].writable && key in store
        then o.(properties := o.properties[n := Property(store[key], o.properties[n].writable)])
        else o
  {
  }

  /** Restoring the listed properties `names` of `o`, in order. */
  function RestoreProps(o: ObjState, store: Store, g: Group, names: seq<string>): (r: ObjState)
    ensures r.ConfigObject? == o.ConfigObject?
    ensures ClassOf(r) == ClassOf(o) && NameOf(r) == NameOf(o) && PropsOf(r) == PropsOf(o)
    ensures IsQObject(r) == IsQObject(o)
    ensures TableOf(r).Keys == TableOf(o).Keys
    ensures forall m :: m in TableOf(o) ==> TableOf(r)[m].writable == TableOf(o)[m].writable
  {
    if names == [] then o
    else RestoreProp(RestoreProps(o, store, g, names[..|names| - 1]), store, g, names[|names| - 1])
  }

  /** Restoring one more listed property extends the restore of the names before it. */
  lemma RestorePropsStep(o: ObjState, store: Store, g: Group, names: seq<string>, k: nat)
    requires k < |names|
    ensures RestoreProps(o, store, g, names[..k + 1]) == RestoreProp(RestoreProps(o, store, g, names[..k]), store, g, names[k])
  {
    assert names[..k + 1][..k] == names[..k];
  }

  /** Restoring one of AppConfig's listed properties writes it through its setter when its key is stored. */
  lemma RestorePropConfig(c: ConfigState, store: Store, g: Group, n: string)
    requires n in ConfigPropList
    ensures var key := Key(g, ConfigClassName, ConfigObjectName, n);
      RestoreProp(ConfigObject(c), store, g, n) ==
        if key in store then ConfigObject(SetOwnProperty(c, n, store[key])) else ConfigObject(c)
  {
    OwnTableEntry(c, n);
  }

  /** A restore of AppConfig over the listed names `names` gives each listed property the
      stored value under its key when the name is among `names`, the key is stored and the
      setter takes the value; every other property keeps its value. The translation table
      and each property's kind are kept. */
  lemma {:induction false} RestoreConfigTable(c: ConfigState, store: Store, g: Group, names: seq<string>, n: string)
    requires n in ConfigPropList && forall m :: m in names ==> m in ConfigPropList
    ensures var r := RestoreProps(ConfigObject(c), store, g, names);
      var key := Key(g, ConfigClassName, ConfigObjectName, n);
      && r.ConfigObject?
      && r.config.availableTranslations == c.availableTranslations
      && SameKind(OwnValue(r.config, n), OwnValue(c, n))
      && OwnValue(r.config, n) ==
           if n in names && key in store && ConfigAccepts(c, n, store[key]) then store[key] else OwnValue(c, n)
  {
    if names != [] {
      var init := names[..|names| - 1];
      var last := names[|names| - 1];
      assert forall m :: m in init ==> m in names;
      assert n in names <==> n in init || n == last;
      RestoreConfigTable(c, store, g, init, n);
      var prev := RestoreProps(ConfigObject(c), store, g, init);
      var d := prev.config;
      RestorePropConfig(d, store, g, last);
      var lastKey := Key(g, ConfigClassName, ConfigObjectName, last);
      if lastKey in store {
        var v := store[lastKey];
        if last != n {
          OtherPropertyKept(d, last, v, n);
        } else if ConfigAccepts(d, n, v) {
          SetOwnPropertyGetSet(d, n, v);
        } else {
          SetOwnPropertyRefused(d, n, v);
        }
      }
    }
  }

  /** What a restore pass does to AppConfig: each listed property takes the value stored
      under its key when the setter takes it, and keeps its value otherwise. */
  lemma RestoreConfigObject(c: ConfigState, store: Store, g: Group, n: string)
    requires n in ConfigPropList
    ensures var r := RestoreObject(ConfigObject(c), store, g);
      var key := Key(g, ConfigClassName, ConfigObjectName, n);
      && r.ConfigObject?
      && r.config.availableTranslations == c.availableTranslations
      && OwnValue(r.config, n) ==
           if key in store && ConfigAccepts(c, n, store[key]) then store[key] else OwnValue(c, n)
  {
    RestoreConfigTable(c, store, g, ConfigPropList, n);
  }

  /** One object's part of a restore pass; objects that are not QObjects are skipped. */
  function RestoreObject(o: ObjState, store: Store, g: Group): ObjState
  {
    if IsQObject(o) then RestoreProps(o, store, g, PropsOf(o)) else o
  }

  /** The whole restore pass: each registered object restored from the same store. */
  function RestoreAll(objs: seq<ObjState>, store: Store, g: Group): (r: seq<ObjState>)
    ensures |r| == |objs|
    ensures forall i :: 0 <= i < |objs| ==> r[i] == RestoreObject(objs[i], store, g)
  {
    seq(|objs|, i requires 0 <= i < |objs| => RestoreObject(objs[i], store, g))
  }

  /** For an ordinary object, a restore writes the stored value into exactly the listed,
      known, writable properties whose key is stored, and leaves every other property as it was. */
  lemma {:induction false} RestorePlainTable(o: ObjState, store: Store, g: Group, names: seq<string>, n: string)
    requires o.PlainObject? && n in TableOf(o)
    ensures var r := TableOf(RestoreProps(o, store, g, names));
      if n in names && TableOf(o)[n].writable && ObjKey(g, o, n) in store
      then r[n] == Property(store[ObjKey(g, o, n)], true)
      else r[n] == TableOf(o)[n]
  {
    if names != [] {
      var init := names[..|names| - 1];
      var last := names[|names| - 1];
      RestorePlainTable(o, store, g, init, n);
      assert n in names <==> n in init || n == last;
    }
  }

  /** Restoring a property from a store that holds its current value leaves the table as it was. */
  lemma RestorePropSame(o: ObjState, store: Store, g: Group, n: string)
    requires n in TableOf(o) ==> ObjKey(g, o, n) in store && store[ObjKey(g, o, n)] == TableOf(o)[n].value
    ensures TableOf(RestoreProp(o, store, g, n)) == TableOf(o)
  {
    if n in TableOf(o) && TableOf(o)[n].writable {
      if o.ConfigObject? {
        SetOwnPropertySame(o.config, n);
      } else {
        assert TableOf(o)[n := Property(TableOf(o)[n].value, TableOf(o)[n].writable)] == TableOf(o);
      }
    }
  }

  /** Restoring from a store that holds every listed known property's current value changes no property. */
  lemma {:induction false} RestorePropsSame(o: ObjState, store: Store, g: Group, names: seq<string>)
    requires forall n :: n in names && n in TableOf(o) ==>
      ObjKey(g, o, n) in store && store[ObjKey(g, o, n)] == TableOf(o)[n].value
    ensures TableOf(RestoreProps(o, store, g, names)) == TableOf(o)
  {
    if names != [] {
      var init := names[..|names| - 1];
      var o' := RestoreProps(o, store, g, init);
      RestorePropsSame(o, store, g, init);
      RestorePropSame(o', store, g, names[|names| - 1]);
    }
  }

  /** Save followed by restore on the same group leaves every property of every registered
      object as it was, provided no two objects share a key. */
  lemma SaveThenRestore(store: Store, g: Group, objs: seq<ObjState>)
    requires KeysDisjoint(g, objs)
    ensures var r := RestoreAll(objs, SaveAll(store, g, objs), g);
      forall i :: 0 <= i < |objs| ==> TableOf(r[i]) == TableOf(objs[i])
  {
    var saved := SaveAll(store, g, objs);
    forall i | 0 <= i < |objs| && IsQObject(objs[i])
      ensures TableOf(RestoreObject(objs[i], saved, g)) == TableOf(objs[i])
    {
      var o := objs[i];
      forall n | n in PropsOf(o) && n in TableOf(o)
        ensures ObjKey(g, o, n) in saved && saved[ObjKey(g, o, n)] == TableOf(o)[n].value
      {
        SaveAllValue(store, g, objs, i, n);
        SaveAllFrame(store, g, objs);
        assert ObjKey(g, o, n) in KeysOf(g, o);
        SavedKeysInclude(g, objs, i);
      }
      RestorePropsSame(o, saved, g, PropsOf(o));
    }
  }

  /** Splitting at the first occurrence of a separator is unambiguous. */
  lemma SplitAtFirst(a: string, b: string, a': string, b': string, c: char)
    requires c !in a && c !in a'
    requires a + [c] + b == a' + [c] + b'
    ensures a == a' && b == b'
  {
    var s := a + [c] + b;
    IndexOfAfterWord(a, c, b);
    IndexOfAfterWord(a', c, b');
    assert a == s[..|a|] == a';
    assert b == s[|a| + 1..] == b';
  }

  /** Keys are unambiguous when class names hold no '/', object names no '_', and no two
      QObjects share both names. */
  predicate UnambiguousNames(objs: seq<ObjState>)
  {
    && (forall i :: 0 <= i < |objs| ==> '/' !in ClassOf(objs[i]) && '_' !in NameOf(objs[i]))
    && (forall i, j :: 0 <= i < j < |objs| && IsQObject(objs[i]) && IsQObject(objs[j]) ==>
          ClassOf(objs[i]) != ClassOf(objs[j]) || NameOf(objs[i]) != NameOf(objs[j]))
  }

  /** A key with an unambiguous class and object name determines all three names. */
  lemma KeyParts(g: Group, cls: string, obj: string, n: string, cls': string, obj': string, m: string)
    requires '/' !in cls && '/' !in cls' && '_' !in obj && '_' !in obj'
    requires Key(g, cls, obj, n) == Key(g, cls', obj', m)
    ensures cls == cls' && obj == obj' && n == m
  {
    var pre := GroupPrefix(g);
    var rest := obj + "_" + n;
    var rest' := obj' + "_" + m;
    assert Key(g, cls, obj, n) == pre + (cls + "/" + rest);
    assert Key(g, cls', obj', m) == pre + (cls' + "/" + rest');
    assert cls + "/" + rest == Key(g, cls, obj, n)[|pre|..];
    SplitAtFirst(cls, rest, cls', rest', '/');
    SplitAtFirst(obj, n, obj', m, '_');
  }

  lemma UnambiguousNamesDisjoint(g: Group, objs: seq<ObjState>)
    requires UnambiguousNames(objs)
    ensures KeysDisjoint(g, objs)
  {
    forall i, j | 0 <= i < j < |objs| ensures KeysOf(g, objs[i]) !! KeysOf(g, objs[j]) {
      var o, p := objs[i], objs[j];
      if k :| k in KeysOf(g, o) && k in KeysOf(g, p) {
        var n :| n in PropsOf(o) && n in TableOf(o) && k == ObjKey(g, o, n);
        var m :| m in PropsOf(p) && m in TableOf(p) && k == ObjKey(g, p, m);
        KeyParts(g, ClassOf(o), NameOf(o), n, ClassOf(p), NameOf(p), m);
        assert false;
      }
    }
  }

  // ---------------------------------------------------------------------------
  // Translation discovery

  /** QString::mid(pos, n). */
  function Mid(s: string, pos: nat, n: nat): (r: string)
    ensures |r| <= n
    ensures pos + n <= |s| ==> r == s[pos..pos + n]
    ensures pos + n > |s| ==> r == (if pos <= |s| then s[pos..] else "")
  {
    if pos >= |s| then "" else if pos + n <= |s| then s[pos..pos + n] else s[pos..]
  }

  /** The directory filter "<appName>*.qm". */
  predicate IsTranslationFile(fileName: string, appName: string)
  {
    |fileName| >= |appName| + 3 && fileName[..|appName|] == appName && EndsWith(fileName, ".qm")
  }

  /** The language code of a translation file: two characters after "<appName>_". */
  function LanguageCode(fileName: string, appName: string): string
  {
    Mid(fileName, |appName| + 1, 2)
  }

  /** A signal AppConfig emits. */
  datatype Signal = ConfigSaved | ConfigRestored | TranslationFound(lang: string, path: string)

  /** One discovery pass over a directory listing: the new translation table and the signals
      emitted for the codes it added. */
  function Discover(table: map<string, string>, path: string, appName: string, files: seq<string>)
    : (r: (map<string, string>, seq<Signal>))
    ensures table.Keys <= r.0.Keys
    ensures forall k :: k in table ==> r.0[k] == table[k]
    ensures forall k :: k in r.0 && k !in table ==> r.0[k] == path
    ensures forall f :: f in files && IsTranslationFile(f, appName) ==> LanguageCode(f, appName) in r.0
    ensures forall k :: k in r.0 && k !in table ==> TranslationFound(k, path) in r.1
    ensures forall s :: s in r.1 ==> s.TranslationFound? && s.path == path && s.lang in r.0 && s.lang !in table
  {
    if files == [] then (table, [])
    else
      var prev := Discover(table, path, appName, files[..|files| - 1]);
      var f := files[|files| - 1];
      assert forall g :: g in files ==> g in files[..|files| - 1] || g == f;
      var code := LanguageCode(f, appName);
      if !IsTranslationFile(f, appName) || code in prev.0 then prev
      else (prev.0[code := path], prev.1 + [TranslationFound(code, path)])
  }

  /** Looking at one more directory entry extends the discovery over the entries before it. */
  lemma DiscoverStep(table: map<string, string>, path: string, appName: string, files: seq<string>, k: nat)
    requires k < |files|
    ensures var prev := Discover(table, path, appName, files[..k]);
      var code := LanguageCode(files[k], appName);
      Discover(table, path, appName, files[..k + 1]) ==
        if !IsTranslationFile(files[k], appName) || code in prev.0 then prev
        else (prev.0[code := path], prev.1 + [TranslationFound(code, path)])
  {
    assert files[..k + 1][..k] == files[..k];
  }

  /** Every code a pass adds comes from a translation file in the listing. */
  lemma {:induction false} DiscoverFromFiles(table: map<string, string>, path: string, appName: string,
                                             files: seq<string>, k: string)
    requires k in Discover(table, path, appName, files).0 && k !in table
    ensures exists f :: f in files && IsTranslationFile(f, appName) && LanguageCode(f, appName) == k
  {
    if files == [] {
      assert false;
    }
    var init := files[..|files| - 1];
    var prev := Discover(table, path, appName, init);
    var f := files[|files| - 1];
    assert f in files;
    if k in prev.0 {
      DiscoverFromFiles(table, path, appName, init, k);
      var g :| g in init && IsTranslationFile(g, appName) && LanguageCode(g, appName) == k;
      assert g in files;
    }
  }

  /** No two signals announce the same language. */
  predicate DistinctLangs(sig: seq<Signal>)
    requires forall s :: s in sig ==> s.TranslationFound?
  {
    forall i, j :: 0 <= i < j < |sig| ==> sig[i].lang != sig[j].lang
  }

  /** Each code is announced at most once per discovery pass. */
  lemma {:induction false} DiscoverSignalsDistinct(table: map<string, string>, path: string, appName: string, files: seq<string>)
    ensures DistinctLangs(Discover(table, path, appName, files).1)
  {
    if files != [] {
      DiscoverSignalsDistinct(table, path, appName, files[..|files| - 1]);
      var prev := Discover(table, path, appName, files[..|files| - 1]);
      var f := files[|files| - 1];
      var code := LanguageCode(f, appName);
      if IsTranslationFile(f, appName) && code !in prev.0 {
        var sig := prev.1 + [TranslationFound(code, path)];
        forall i | 0 <= i < |prev.1| ensures sig[i].lang != code {
          assert prev.1[i] in prev.1;
        }
        forall i, j | 0 <= i < j < |sig| ensures sig[i].lang != sig[j].lang {
          if j < |prev.1| {
            assert sig[i] == prev.1[i] && sig[j] == prev.1[j];
            assert prev.1[i].lang != prev.1[j].lang;
          }
        }
        assert Discover(table, path, appName, files).1 == sig;
      } else {
        assert Discover(table, path, appName, files).1 == prev.1;
      }
    }
  }
}
