/**
 * AppConfig (src/appconfig.cpp) as a class whose methods update its fields in
 * place: the registry of serialisable objects, the save/restore passes over
 * it, the default-group guard, the header/source name-filter caches with
 * their dirty flags, the language guard and translation discovery.
 *
 * Every method is proved against the value-level functions of module
 * Settings; the properties of those functions are proved there.
 */
module AppConfigStore {
  import opened Strings
  import opened Settings

  /** A message AppConfig prints on the warning or critical channel. */
  datatype Diagnostic = AlreadyRegistered | MissingDefaultSettings

  /** A registered object other than AppConfig itself, seen through Qt's reflection:
      its class and object name, its declared property list and its property table. */
  class SerializableObject {
    const isQObject: bool
    const className: string
    const objectName: string
    const propList: seq<string>
    var properties: PropertyTable

    constructor (isQObject: bool, className: string, objectName: string,
                 propList: seq<string>, properties: PropertyTable)
      ensures State() == PlainObject(isQObject, className, objectName, propList, properties)
    {
      this.isQObject := isQObject;
      this.className := className;
      this.objectName := objectName;
      this.propList := propList;
      this.properties := properties;
    }

    function State(): ObjState
      reads this
    {
      PlainObject(isQObject, className, objectName, propList, properties)
    }
  }

  /** A registry entry: AppConfig itself, which registers `this`, or another object. */
  datatype Entry = Self | Other(obj: SerializableObject)

  /** No entry is registered twice. */
  predicate NoDuplicates(s: seq<Entry>)
  {
    forall i, j :: 0 <= i < j < |s| ==> s[i] != s[j]
  }

  class AppConfig {
    var language: string
    var availableTranslations: map<string, string>
    var scanByFolders: bool
    var recursiveScan: bool
    var hiddenFoldersIncluded: bool
    var selectedFolders: seq<string>
    var showDonateOnExit: bool
    var hdr: NameFilters
    var src: NameFilters

    var serializableObjects: seq<Entry>
    /** The QSettings store, full key to value. */
    var settings: Store
    /** The signals emitted so far, in order. */
    var signals: seq<Signal>
    var diagnostics: seq<Diagnostic>

    /** The part of the object its properties expose. */
    function Config(): ConfigState
      reads this`language, this`availableTranslations, this`scanByFolders, this`recursiveScan,
            this`hiddenFoldersIncluded, this`selectedFolders, this`showDonateOnExit, this`hdr, this`src
    {
      ConfigState(language, availableTranslations, scanByFolders, recursiveScan, hiddenFoldersIncluded,
                  selectedFolders, showDonateOnExit, hdr, src)
    }

    /** The object invariant: caches coherent, the language a known translation, the
        registry free of duplicates and AppConfig itself registered first. */
    ghost predicate Valid()
      reads this`serializableObjects, this`language, this`availableTranslations, this`scanByFolders,
            this`recursiveScan, this`hiddenFoldersIncluded, this`selectedFolders, this`showDonateOnExit,
            this`hdr, this`src
    {
      && ConfigValid(Config())
      && NoDuplicates(serializableObjects)
      && |serializableObjects| >= 1 && serializableObjects[0] == Self
    }

    ghost function Objects(): set<SerializableObject>
      reads this`serializableObjects
    {
      set e | e in serializableObjects && e.Other? :: e.obj
    }

    /** What a pass sees of one entry. */
    function Snapshot(e: Entry): (r: ObjState)
      reads this`language, this`availableTranslations, this`scanByFolders, this`recursiveScan,
            this`hiddenFoldersIncluded, this`selectedFolders, this`showDonateOnExit, this`hdr, this`src
      reads if e.Other? then {e.obj} else {}
      ensures r.ConfigObject? <==> e.Self?
      ensures e.Other? ==>
        && IsQObject(r) == e.obj.isQObject && ClassOf(r) == e.obj.className
        && NameOf(r) == e.obj.objectName && PropsOf(r) == e.obj.propList && TableOf(r) == e.obj.properties
    {
      match e
      case Self => ConfigObject(Config())
      case Other(o) => o.State()
    }

    /** What a pass sees of the whole registry. */
    ghost function Snapshots(): (r: seq<ObjState>)
      reads this`serializableObjects, this`language, this`availableTranslations, this`scanByFolders,
            this`recursiveScan, this`hiddenFoldersIncluded, this`selectedFolders, this`showDonateOnExit,
            this`hdr, this`src, Objects()
      ensures |r| == |serializableObjects|
      ensures forall i :: 0 <= i < |r| ==> r[i] == Snapshot(serializableObjects[i])
    {
      SnapshotsOf(serializableObjects, Objects())
    }

    /** What a pass sees of the entries `es`, whose other objects are among `objs`, in order. */
    ghost function SnapshotsOf(es: seq<Entry>, objs: set<SerializableObject>): (r: seq<ObjState>)
      requires forall e :: e in es && e.Other? ==> e.obj in objs
      reads this`language, this`availableTranslations, this`scanByFolders, this`recursiveScan,
            this`hiddenFoldersIncluded, this`selectedFolders, this`showDonateOnExit, this`hdr, this`src
      reads objs
      ensures |r| == |es|
      ensures forall i :: 0 <= i < |r| ==> r[i] == Snapshot(es[i])
    {
      if es == [] then []
      else
        assert es[|es| - 1] in es;
        SnapshotsOf(es[..|es| - 1], objs) + [Snapshot(es[|es| - 1])]
    }

    /** AppConfig's constructor: the defaults of its initialiser list, itself registered,
        "en" available with an empty path. The store is whatever QSettings finds on disk. */
    constructor (stored: Store)
      ensures Valid()
      ensures serializableObjects == [Self]
      ensures language == "en" && availableTranslations == map["en" := ""]
      ensures scanByFolders && recursiveScan && showDonateOnExit && selectedFolders == []
      ensures hdr.parseEnabled && hdr.standardFiltersEnabled && hdr.dirty && hdr.customFilters == ""
      ensures src.parseEnabled && src.standardFiltersEnabled && src.dirty && src.customFilters == ""
      ensures settings == stored && signals == [] && diagnostics == []
    {
      language := "en";
      scanByFolders := true;
      selectedFolders := [];
      recursiveScan := true;
      showDonateOnExit := true;
      var hdrIndex: int := *;
      var srcIndex: int := *;
      var hidden: bool := *;
      hiddenFoldersIncluded := hidden;
      hdr := NameFilters(true, true, hdrIndex, "", "", [], true);
      src := NameFilters(true, true, srcIndex, "", "", [], true);
      availableTranslations := map[];
      serializableObjects := [];
      settings := stored;
      signals := [];
      diagnostics := [];
      new;
      RegisterSerializable(Self);
      availableTranslations := availableTranslations["en" := ""];
    }

    /** AppConfig::registerSerializable: append unless already present, otherwise warn. */
    method RegisterSerializable(e: Entry)
      requires NoDuplicates(serializableObjects)
      modifies this`serializableObjects, this`diagnostics
      ensures NoDuplicates(serializableObjects)
      ensures e in old(serializableObjects) ==>
        serializableObjects == old(serializableObjects) && diagnostics == old(diagnostics) + [AlreadyRegistered]
      ensures e !in old(serializableObjects) ==>
        serializableObjects == old(serializableObjects) + [e] && diagnostics == old(diagnostics)
    {
      if e !in serializableObjects {
        serializableObjects := serializableObjects + [e];
      } else {
        diagnostics := diagnostics + [AlreadyRegistered];
      }
    }

    // -------------------------------------------------------------------------
    // Setters and the name-filter getters

    /** AppConfig::setLanguage, its guard and assignment. */
    method SetLanguage(value: string)
      modifies this`language
      ensures Config() == Settings.SetLanguage(old(Config()), value)
    {
      if language == value || value !in availableTranslations {
        return;
      }
      language := value;
    }

    /** AppConfig::setSelectedFolders (the folder list the memento commits). */
    method SetSelectedFolders(folders: seq<string>)
      modifies this`selectedFolders
      ensures selectedFolders == folders
    {
      selectedFolders := folders;
    }

    method HdrSetParseEnabled(value: bool)
      modifies this`hdr
      ensures hdr == old(hdr).(parseEnabled := value, dirty := true)
    {
      hdr := hdr.(parseEnabled := value, dirty := true);
    }

    method HdrSetStandardFiltersEnabled(value: bool)
      modifies this`hdr
      ensures hdr == old(hdr).(standardFiltersEnabled := value, dirty := true)
    {
      hdr := hdr.(standardFiltersEnabled := value, dirty := true);
    }

    method HdrSetCurrentStandardFilterIndex(value: int)
      modifies this`hdr
      ensures hdr == old(hdr).(currentStandardFilterIndex := value, dirty := true)
    {
      hdr := hdr.(currentStandardFilterIndex := value, dirty := true);
    }

    method HdrSetCustomFilters(value: string)
      modifies this`hdr
      ensures hdr == old(hdr).(customFilters := value, dirty := true)
    {
      hdr := hdr.(customFilters := value, dirty := true);
    }

    method SrcSetParseEnabled(value: bool)
      modifies this`src
      ensures src == old(src).(parseEnabled := value, dirty := true)
    {
      src := src.(parseEnabled := value, dirty := true);
    }

    method SrcSetStandardFiltersEnabled(value: bool)
      modifies this`src
      ensures src == old(src).(standardFiltersEnabled := value, dirty := true)
    {
      src := src.(standardFiltersEnabled := value, dirty := true);
    }

    method SrcSetCurrentStandardFilterIndex(value: int)
      modifies this`src
      ensures src == old(src).(currentStandardFilterIndex := value, dirty := true)
    {
      src := src.(currentStandardFilterIndex := value, dirty := true);
    }

    method SrcSetCustomFilters(value: string)
      modifies this`src
      ensures src == old(src).(customFilters := value, dirty := true)
    {
      src := src.(customFilters := value, dirty := true);
    }

    /** AppConfig::headerNameFilters: rebuild the list only when the group is dirty.
        Whatever the flag, the list returned is the one the current settings stand for. */
    method HeaderNameFilters() returns (filters: seq<string>)
      requires Coherent(hdr)
      modifies this`hdr
      ensures filters == Derive(old(hdr)) && Derive(hdr) == Derive(old(hdr))
      ensures Coherent(hdr) && !hdr.dirty && hdr.cached == filters
      ensures hdr == if old(hdr).dirty then Refreshed(old(hdr)) else old(hdr)
    {
      if hdr.dirty {
        RefreshedKeepsFilters(hdr);
        var list: seq<string> := [];
        var custom := hdr.customFilters;
        if hdr.parseEnabled {
          if hdr.standardFiltersEnabled {
            list := list + [hdr.currentStandardFilter];
          } else {
            custom := RemoveSpaces(custom);
            list := Split(custom, ';');
          }
        }
        hdr := hdr.(customFilters := custom, cached := list, dirty := false);
      }
      filters := hdr.cached;
    }

    /** AppConfig::sourceNameFilters, the same rule over the source group. */
    method SourceNameFilters() returns (filters: seq<string>)
      requires Coherent(src)
      modifies this`src
      ensures filters == Derive(old(src)) && Derive(src) == Derive(old(src))
      ensures Coherent(src) && !src.dirty && src.cached == filters
      ensures src == if old(src).dirty then Refreshed(old(src)) else old(src)
    {
      if src.dirty {
        RefreshedKeepsFilters(src);
        var list: seq<string> := [];
        var custom := src.customFilters;
        if src.parseEnabled {
          if src.standardFiltersEnabled {
            list := list + [src.currentStandardFilter];
          } else {
            custom := RemoveSpaces(custom);
            list := Split(custom, ';');
          }
        }
        src := src.(customFilters := custom, cached := list, dirty := false);
      }
      filters := src.cached;
    }

    // -------------------------------------------------------------------------
    // The save/restore pass

    /** The WRITE accessor of one of AppConfig's own properties: the setter it names.
        A value of the wrong kind, like an unknown name, changes nothing. */
    method WriteOwnProperty(name: string, v: Value)
      modifies this`language, this`scanByFolders, this`recursiveScan, this`hiddenFoldersIncluded,
               this`selectedFolders, this`showDonateOnExit, this`hdr, this`src
      ensures Config() == SetOwnProperty(old(Config()), name, v)
    {
      if name in HdrProps {
        WriteHdrProperty(name, v);
      } else if name in SrcProps {
        WriteSrcProperty(name, v);
      } else {
        match name
        case "language" => if v.Str? { SetLanguage(v.s); }
        case "scanByFolders" => if v.Bool? { scanByFolders := v.b; }
        case "isRecursiveScanEnabled" => if v.Bool? { recursiveScan := v.b; }
        case "hiddenFoldersIncluded" => if v.Bool? { hiddenFoldersIncluded := v.b; }
        case "selectedFolders" => if v.StrList? { SetSelectedFolders(v.items); }
        case "showDonateOnExit" => if v.Bool? { showDonateOnExit := v.b; }
        case _ =>
      }
    }

    /** The WRITE accessors of the header filter group. */
    method WriteHdrProperty(name: string, v: Value)
      requires name in HdrProps
      modifies this`hdr
      ensures hdr == SetFilterProperty(old(hdr), name, v)
    {
      match name
      case "hdr_parseEnabled" => if v.Bool? { HdrSetParseEnabled(v.b); }
      case "hdr_standardFiltersEnabled" => if v.Bool? { HdrSetStandardFiltersEnabled(v.b); }
      case "hdr_currentStandardFilterIndex" => if v.Int? { HdrSetCurrentStandardFilterIndex(v.i); }
      case "hdr_customFilters" => if v.Str? { HdrSetCustomFilters(v.s); }
    }

    /** The WRITE accessors of the source filter group. */
    method WriteSrcProperty(name: string, v: Value)
      requires name in SrcProps
      modifies this`src
      ensures src == SetFilterProperty(old(src), name, v)
    {
      match name
      case "src_parseEnabled" => if v.Bool? { SrcSetParseEnabled(v.b); }
      case "src_standardFiltersEnabled" => if v.Bool? { SrcSetStandardFiltersEnabled(v.b); }
      case "src_currentStandardFilterIndex" => if v.Int? { SrcSetCurrentStandardFilterIndex(v.i); }
      case "src_customFilters" => if v.Str? { SrcSetCustomFilters(v.s); }
    }

    /** The inner loop of a save pass for one entry, as the pass sees it: each listed
        property the object has is read and stored under its key; unknown names are skipped. */
    method SaveSnapshot(o: ObjState, g: Group)
      modifies this`settings
      ensures settings == SaveObject(old(settings), g, o)
    {
      if !IsQObject(o) {
        return;
      }
      var table := TableOf(o);
      var props := PropsOf(o);
      var k := 0;
      while k < |props|
        invariant 0 <= k <= |props|
        invariant settings == SaveProps(old(settings), g, o, props[..k])
      {
        var n := props[k];
        SavePropsStep(old(settings), g, o, props, k);
        if n in table {
          settings := settings[ObjKey(g, o, n) := table[n].value];
        }
        k := k + 1;
      }
      assert props[..k] == props;
    }

    /** The inner loop of a restore pass for AppConfig itself: each known, writable
        property whose key is stored is written through its setter. */
    method RestoreSelf(g: Group)
      requires ConfigValid(Config())
      modifies this`language, this`scanByFolders, this`recursiveScan, this`hiddenFoldersIncluded,
               this`selectedFolders, this`showDonateOnExit, this`hdr, this`src
      ensures ConfigValid(Config())
      ensures ConfigObject(Config()) == RestoreObject(ConfigObject(old(Config())), settings, g)
    {
      ghost var start := ConfigObject(Config());
      var props := ConfigPropList;
      var k := 0;
      while k < |props|
        invariant 0 <= k <= |props|
        invariant ConfigValid(Config())
        invariant ConfigObject(Config()) == RestoreProps(start, settings, g, props[..k])
      {
        RestorePropsStep(start, settings, g, props, k);
        RestoreOwnProperty(g, props[k]);
        k := k + 1;
      }
      assert props[..k] == props;
    }

    /** One step of that loop: the property is looked up, checked for a WRITE accessor,
        and written from the store when its key is present. */
    method RestoreOwnProperty(g: Group, n: string)
      requires n in ConfigPropList && ConfigValid(Config())
      modifies this`language, this`scanByFolders, this`recursiveScan, this`hiddenFoldersIncluded,
               this`selectedFolders, this`showDonateOnExit, this`hdr, this`src
      ensures ConfigValid(Config())
      ensures ConfigObject(Config()) == RestoreProp(ConfigObject(old(Config())), settings, g, n)
    {
      RestorePropConfig(Config(), settings, g, n);
      OwnTableEntry(Config(), n);
      var table := OwnTable(Config());
      if n in table && table[n].writable {
        var key := Key(g, ConfigClassName, ConfigObjectName, n);
        if key in settings {
          SetOwnPropertyValid(Config(), n, settings[key]);
          WriteOwnProperty(n, settings[key]);
        }
      }
    }

    /** The inner loop of a restore pass for another object. */
    method RestoreOther(o: SerializableObject, g: Group)
      modifies o
      ensures o.State() == RestoreObject(old(o.State()), settings, g)
    {
      if !o.isQObject {
        return;
      }
      ghost var start := o.State();
      var k := 0;
      while k < |o.propList|
        invariant 0 <= k <= |o.propList|
        invariant o.State() == RestoreProps(start, settings, g, o.propList[..k])
      {
        var n := o.propList[k];
        RestorePropsStep(start, settings, g, o.propList, k);
        RestorePropPlain(o.State(), settings, g, n);
        if n in o.properties && o.properties[n].writable {
          var key := Key(g, o.className, o.objectName, n);
          if key in settings {
            o.properties := o.properties[n := Property(settings[key], o.properties[n].writable)];
          }
        }
        k := k + 1;
      }
      assert o.propList[..k] == o.propList;
    }

    /** The loop of a save pass: every entry in registration order. */
    method SavePass(g: Group)
      requires Valid()
      modifies this`settings
      ensures settings == SaveAll(old(settings), g, old(Snapshots()))
      ensures Snapshots() == old(Snapshots())
    {
      ghost var snaps := Snapshots();
      var i := 0;
      while i < |serializableObjects|
        invariant 0 <= i <= |serializableObjects|
        invariant Snapshots() == snaps
        invariant settings == SaveAll(old(settings), g, snaps[..i])
      {
        assert snaps[..i + 1][..i] == snaps[..i];
        SaveSnapshot(Snapshot(serializableObjects[i]), g);
        i := i + 1;
      }
      assert snaps[..i] == snaps;
    }

    /** The loop of a restore pass: every entry in registration order. */
    method RestorePass(g: Group)
      requires Valid()
      modifies this`language, this`scanByFolders, this`recursiveScan, this`hiddenFoldersIncluded,
               this`selectedFolders, this`showDonateOnExit, this`hdr, this`src, Objects()
      ensures Valid()
      ensures Snapshots() == RestoreAll(old(Snapshots()), settings, g)
    {
      ghost var snaps := Snapshots();
      var i := 0;
      while i < |serializableObjects|
        invariant 0 <= i <= |serializableObjects|
        invariant Valid()
        invariant forall j :: 0 <= j < |serializableObjects| ==>
          Snapshot(serializableObjects[j]) == if j < i then RestoreObject(snaps[j], settings, g) else snaps[j]
      {
        RestoreEntry(i, g);
        i := i + 1;
      }
    }

    /** One iteration of the restore pass: entry i is restored, every other entry is untouched. */
    method RestoreEntry(i: int, g: Group)
      requires Valid() && 0 <= i < |serializableObjects|
      modifies this`language, this`scanByFolders, this`recursiveScan, this`hiddenFoldersIncluded,
               this`selectedFolders, this`showDonateOnExit, this`hdr, this`src, Objects()
      ensures Valid()
      ensures Snapshot(serializableObjects[i]) == RestoreObject(old(Snapshot(serializableObjects[i])), settings, g)
      ensures forall j :: 0 <= j < |serializableObjects| && j != i ==>
        Snapshot(serializableObjects[j]) == old(Snapshot(serializableObjects[j]))
    {
      var e := serializableObjects[i];
      if e.Self? {
        RestoreSelf(g);
      } else {
        assert e in serializableObjects;
        RestoreOther(e.obj, g);
      }
    }

    /** Emitting a signal appends it to those emitted so far. */
    method EmitSignal(sig: Signal)
      modifies this`signals
      ensures signals == old(signals) + [sig]
    {
      signals := signals + [sig];
    }

    /** The save branch of AppConfig::_doSaveRestore: the pass, then configSaved. */
    method SaveBranch(g: Group)
      requires Valid()
      modifies this`settings, this`signals
      ensures settings == SaveAll(old(settings), g, old(Snapshots()))
      ensures Snapshots() == old(Snapshots())
      ensures signals == old(signals) + [ConfigSaved]
    {
      SavePass(g);
      EmitSignal(ConfigSaved);
    }

    /** The restore branch of AppConfig::_doSaveRestore: the pass, then configRestored. */
    method RestoreBranch(g: Group)
      requires Valid()
      modifies this`signals, this`language, this`scanByFolders, this`recursiveScan, this`hiddenFoldersIncluded,
               this`selectedFolders, this`showDonateOnExit, this`hdr, this`src, Objects()
      ensures Valid()
      ensures Snapshots() == RestoreAll(old(Snapshots()), settings, g)
      ensures signals == old(signals) + [ConfigRestored]
    {
      RestorePass(g);
      EmitSignal(ConfigRestored);
    }

    /** The group a pass works under: "default/" or "current/". */
    static function GroupOf(def: bool): Group
    {
      if def then Default else Current
    }

    /** AppConfig::_doSaveRestore: one pass over the registry under "default/" or
        "current/", then exactly one configSaved or configRestored signal. */
    method DoSaveRestore(save: bool, def: bool)
      requires Valid()
      modifies this`settings, this`signals, this`language, this`scanByFolders, this`recursiveScan,
               this`hiddenFoldersIncluded, this`selectedFolders, this`showDonateOnExit, this`hdr, this`src,
               Objects()
      ensures Valid()
      ensures save ==> settings == SaveAll(old(settings), GroupOf(def), old(Snapshots()))
      ensures save ==> Snapshots() == old(Snapshots())
      ensures !save ==> settings == old(settings)
      ensures !save ==> Snapshots() == RestoreAll(old(Snapshots()), old(settings), GroupOf(def))
      ensures signals == old(signals) + [if save then ConfigSaved else ConfigRestored]
    {
      if save {
        SaveBranch(GroupOf(def));
      } else {
        RestoreBranch(GroupOf(def));
      }
    }

    /** AppConfig::save. */
    method Save()
      requires Valid()
      modifies this`settings, this`signals, this`language, this`scanByFolders, this`recursiveScan,
               this`hiddenFoldersIncluded, this`selectedFolders, this`showDonateOnExit, this`hdr, this`src,
               Objects()
      ensures Valid()
      ensures settings == SaveAll(old(settings), Current, old(Snapshots())) && Snapshots() == old(Snapshots())
      ensures signals == old(signals) + [ConfigSaved]
    {
      DoSaveRestore(true, false);
    }

    /** AppConfig::restore. */
    method Restore()
      requires Valid()
      modifies this`settings, this`signals, this`language, this`scanByFolders, this`recursiveScan,
               this`hiddenFoldersIncluded, this`selectedFolders, this`showDonateOnExit, this`hdr, this`src,
               Objects()
      ensures Valid()
      ensures settings == old(settings) && Snapshots() == RestoreAll(old(Snapshots()), old(settings), Current)
      ensures signals == old(signals) + [ConfigRestored]
    {
      DoSaveRestore(false, false);
    }

    /** AppConfig::saveDefault: a no-op when the default group exists; otherwise a save pass
        under "default/", after which the group exists (AppConfig's own properties are in it). */
    method SaveDefault()
      requires Valid()
      modifies this`settings, this`signals, this`language, this`scanByFolders, this`recursiveScan,
               this`hiddenFoldersIncluded, this`selectedFolders, this`showDonateOnExit, this`hdr, this`src,
               Objects()
      ensures Valid()
      ensures HasGroup(settings, "default")
      ensures Snapshots() == old(Snapshots())
      ensures old(HasGroup(settings, "default")) ==> settings == old(settings) && signals == old(signals)
      ensures !old(HasGroup(settings, "default")) ==>
        settings == SaveAll(old(settings), Default, old(Snapshots())) && signals == old(signals) + [ConfigSaved]
    {
      if HasGroup(settings, "default") {
        return;
      }
      ghost var snaps := Snapshots();
      DoSaveRestore(true, true);
      SelfKeyStored(old(settings), snaps);
    }

    /** A warning or critical message: the diagnostic is appended to those reported so far. */
    method Warn(d: Diagnostic)
      modifies this`diagnostics
      ensures diagnostics == old(diagnostics) + [d]
    {
      diagnostics := diagnostics + [d];
    }

    /** AppConfig::restoreDefault: reports and changes nothing when the default group is
        missing; otherwise a restore pass under "default/". */
    method RestoreDefault()
      requires Valid()
      modifies this`settings, this`signals, this`diagnostics, this`language, this`scanByFolders,
               this`recursiveScan, this`hiddenFoldersIncluded, this`selectedFolders, this`showDonateOnExit,
               this`hdr, this`src, Objects()
      ensures Valid()
      ensures settings == old(settings)
      ensures !old(HasGroup(settings, "default")) ==>
        Snapshots() == old(Snapshots()) && signals == old(signals) &&
        diagnostics == old(diagnostics) + [MissingDefaultSettings]
      ensures old(HasGroup(settings, "default")) ==>
        Snapshots() == RestoreAll(old(Snapshots()), old(settings), Default) &&
        signals == old(signals) + [ConfigRestored] && diagnostics == old(diagnostics)
    {
      if !HasGroup(settings, "default") {
        Warn(MissingDefaultSettings);
        return;
      }
      DoSaveRestore(false, true);
    }

    /** A save pass under "default/" over a registry that starts with AppConfig stores at
        least AppConfig's language, so the default group exists afterwards. */
    lemma SelfKeyStored(store: Store, snaps: seq<ObjState>)
      requires |snaps| >= 1 && snaps[0].ConfigObject?
      ensures HasGroup(SaveAll(store, Default, snaps), "default")
    {
      OwnTableKeys(snaps[0].config);
      assert ConfigPropList[0] == "language";
      SaveCreatesGroup(store, snaps, 0, "language");
    }

    // -------------------------------------------------------------------------
    // Translation discovery

    /** AppConfig::_lookForTranslationsByPath over the directory listing `entries`:
        each "<appName>*.qm" file names a language by the two characters after
        "<appName>_"; a code already known is skipped, so the first path found wins. */
    method LookForTranslationsByPath(path: string, appName: string, entries: seq<string>)
      requires Valid()
      modifies this`availableTranslations, this`signals
      ensures Valid()
      ensures availableTranslations == Discover(old(availableTranslations), path, appName, entries).0
      ensures signals == old(signals) + Discover(old(availableTranslations), path, appName, entries).1
    {
      var k := 0;
      while k < |entries|
        invariant 0 <= k <= |entries|
        invariant availableTranslations == Discover(old(availableTranslations), path, appName, entries[..k]).0
        invariant signals == old(signals) + Discover(old(availableTranslations), path, appName, entries[..k]).1
      {
        DiscoverStep(old(availableTranslations), path, appName, entries, k);
        ConsiderEntry(path, appName, entries[k]);
        k := k + 1;
      }
      assert entries[..k] == entries;
    }

    /** The body of that loop for one directory entry. */
    method ConsiderEntry(path: string, appName: string, name: string)
      modifies this`availableTranslations, this`signals
      ensures var code := LanguageCode(name, appName);
        if !IsTranslationFile(name, appName) || code in old(availableTranslations) then
          availableTranslations == old(availableTranslations) && signals == old(signals)
        else
          availableTranslations == old(availableTranslations)[code := path] &&
          signals == old(signals) + [TranslationFound(code, path)]
    {
      if IsTranslationFile(name, appName) {
        var translation := Mid(name, |appName| + 1, 2);
        if translation !in availableTranslations {
          availableTranslations := availableTranslations[translation := path];
          signals := signals + [TranslationFound(translation, path)];
        }
      }
    }
  }
}
