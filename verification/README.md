# depgraphV settings store and main-window rules, in Dafny

This project models two parts of depgraphV, a Qt program that draws include
graphs of C/C++ sources.

**The settings store of `AppConfig`.** AppConfig keeps a registry of
serialisable objects, with AppConfig itself registered first. One pass of
`_doSaveRestore` walks the registry in order. For each object it walks the
object's declared property list:

- a save pass writes each known property under
  `<group><ClassName>/<objectName>_<propName>` in QSettings;
- a restore pass writes the stored values back into the writable properties.

The group is `default/` or `current/`. `saveDefault` writes the `default`
group only when it is missing. `restoreDefault` refuses to run without it.

The header and source name-filter lists are cached behind dirty flags, which
every setter raises. The language can only be set to a translation that
discovery has found.

Qt's reflection is modelled as a property table per object, mapping a name to
a value and a writable flag. QSettings is modelled as a map from full key to
value.

**The rules inside `MainWindow`'s slots:**

- capitalising a language name (`_ucFirst`);
- the image-filter string and its filter-to-extension map, built once;
- extension defaulting for images, `.dot` files and `.dProj` projects;
- classification of the update server's reply;
- de-duplication of language actions;
- the required image-format check.

Files:

- `strings.dfy` (module `Strings`): the QString operations used, written on
  `seq<char>`. These are split, join, space removal, ASCII upper-casing,
  `lastIndexOf`/`indexOf`, and the file-name suffix.
- `settings.dfy` (module `Settings`): the value-level specification of the
  store. It covers the keys, one save pass and one restore pass, filter
  derivation, the language guard and translation discovery. The round trip
  (restoring what a save wrote changes no property) is proved here.
- `appconfig.dfy` (module `AppConfigStore`): the class `AppConfig`, whose
  methods update its fields in place. Each method is proved against the
  functions of `Settings`.
- `mainwindow.dfy` (module `Window`): the class `MainWindow`, holding the state
  its slots mutate, plus the pure rules as functions.

The custom filter split keeps empty tokens, because QString::split keeps
empty parts by default: `";x"` gives `["", "x"]` (`Settings.EmptyTokensKept`).

## Model

| member | source | states |
|---|---|---|
| Strings.Split | src/appconfig.cpp:182 | a split yields at least one part and no part contains the separator (empty parts are kept) |
| Strings.Join | src/mainwindow.cpp:727 | the join of no words is empty and starts with the first word, followed by the separator when there are more; Strings.SplitJoin and Strings.JoinSplit prove it is the inverse of Split |
| Strings.JoinCons | src/appconfig.cpp:182 | a join of several words is the first word, the separator, then the join of the rest |
| Strings.JoinSnoc | src/mainwindow.cpp:442-444 | appending a word to a non-empty list appends the separator and the word to the join |
| Strings.SplitAfterWord | src/appconfig.cpp:182 | a separator-free word followed by the separator is split off whole |
| Strings.SplitNoSeparator | src/appconfig.cpp:182 | a string without the separator splits into itself alone |
| Strings.SplitAppend | src/mainwindow.cpp:540 | a separator between two strings splits them apart: the parts of the first, then the parts of the second |
| Strings.SplitJoin | src/appconfig.cpp:182 | splitting the join of separator-free words gives the words back |
| Strings.JoinSplit | src/mainwindow.cpp:720-727 | joining the parts of a split with the separator gives the original string back |
| Strings.RemoveSpaces | src/appconfig.cpp:182 | the result contains no space and is no longer than the input |
| Strings.RemoveSpacesNoop | src/appconfig.cpp:182 | removing spaces from a string without spaces changes nothing |
| Strings.RemoveSpacesIdempotent | src/appconfig.cpp:182 | removing spaces twice is the same as once |
| Strings.RemoveSpacesKeeps | src/appconfig.cpp:182 | removing spaces keeps every other character in order |
| Strings.Upper | src/mainwindow.cpp:724 | lower-case ASCII letters map to their upper-case letter, every other character to itself |
| Strings.ToUpper | src/mainwindow.cpp:440 | the upper-cased string has the same length and is upper-cased character by character |
| Strings.LastIndexOf | src/mainwindow.cpp:459-460 | the result is -1 or a position holding the character, and no later position holds it |
| Strings.LastIndexOfUnique | src/mainwindow.cpp:459-460 | those two facts determine the last occurrence |
| Strings.IndexOfAfterWord | src/appconfig.cpp:336 | in a separator-free word followed by the separator, the first separator comes right after the word |
| Strings.EndsWith | src/mainwindow.cpp:196 | QString::endsWith: the string's last characters are the suffix; Window.ProjectPath and Settings.IsTranslationFile rely on it |
| Strings.FileName | src/mainwindow.cpp:459 | a file name holds no '/' and is a tail of the path |
| Strings.Suffix | src/mainwindow.cpp:459-460 | a path's suffix holds no '.' and no '/' |
| Strings.FileNameOfAppended | src/mainwindow.cpp:465 | appending a '/'-free tail to a path extends its file name by that tail |
| Strings.LastDotAfterWord | src/mainwindow.cpp:459-460 | in a word, a dot and a dot-free tail, the last dot is the one after the word and the tail follows it |
| Strings.SuffixOfAppended | src/mainwindow.cpp:465 | appending "." + ext to any path makes ext its suffix, when ext holds no '.' or '/' |
| Settings.Key | src/appconfig.cpp:321-336 | the QSettings group "<group><className>" followed by "<objectName>_<propName>"; Settings.KeyParts proves the parts can be read back, Settings.KeyInjective that the property name can |
| Settings.HasGroup | src/appconfig.cpp:76 | QSettings::childGroups().contains(name): some key starts with the group name and a '/'; Settings.HasDefaultGroup and Settings.SaveCreatesGroup relate it to the keys a pass writes |
| Settings.KeyInGroup | src/appconfig.cpp:294-321 | every key a pass writes lies under "default/" or "current/", as its group says |
| Settings.SplitTokensFrom | src/appconfig.cpp:182 | every character of a split token comes from the split string |
| Settings.Refreshed | src/appconfig.cpp:172-183 | the group after a dirty getter call: list rebuilt from the settings, flag cleared, custom string without spaces when it was used; Settings.RefreshedKeepsFilters proves it coherent and that it stands for the same filters |
| Settings.Derive | src/appconfig.cpp:170-187 | the filter list is empty when parsing is off, the standard filter when standard filters are on, and otherwise space-free, ';'-free tokens whose ';'-join is the custom string without spaces |
| Settings.RefreshedKeepsFilters | src/appconfig.cpp:170-187 | rebuilding the cache clears the flag, leaves the group coherent, and does not change the filters the group stands for, although the custom string loses its spaces |
| Settings.CustomFiltersExample | src/appconfig.cpp:182 | the custom string "a.h; b.h;c.h" gives the three filters a.h, b.h and c.h |
| Settings.ExampleStripped | src/appconfig.cpp:182 | removing spaces from "a.h; b.h;c.h" gives "a.h;b.h;c.h" |
| Settings.ExampleSplit | src/appconfig.cpp:182 | splitting "a.h;b.h;c.h" at ';' gives a.h, b.h and c.h |
| Settings.EmptyTokensKept | src/appconfig.cpp:182 | the custom string ";x" gives an empty first filter and then x |
| Settings.SetLanguage | src/appconfig.cpp:208-213 | a language with an available translation becomes current; any other value changes nothing; no other field changes |
| Settings.OwnTableKeys | src/appconfig.cpp:147-168 | AppConfig's property table has exactly the fourteen listed names |
| Settings.OwnTableEntry | src/appconfig.cpp:147-168 | every listed property of AppConfig is in its table and writable |
| Settings.OwnValue | src/appconfig.cpp:147-168 | the READ accessor of each listed property: header names read the header group, source names the source group, the others AppConfig's own fields; Settings.SetOwnPropertyGetSet relates it to the setters |
| Settings.GeneralValue | src/appconfig.cpp:149-155 | the READ accessors of the six general properties, each returning its field |
| Settings.FilterValue | src/appconfig.cpp:157-165 | the READ accessors of one filter group's four properties, each returning its field |
| Settings.OwnTable | src/appconfig.cpp:147-168 | AppConfig's property table: each listed name with its read value, writable; Settings.OwnTableKeys and Settings.OwnTableEntry state its shape |
| Settings.SetOwnProperty | src/appconfig.cpp:242-288 | writing a property keeps the translation table, keeps the language or sets it to an available one, and raises a group's dirty flag whenever it changes that group |
| Settings.SetGeneralProperty | src/appconfig.cpp:208-240 | a value of the property's kind (for "language", a known translation) is what the property reads afterwards; any other value changes nothing; every field behind another property, the translation table and both filter groups are kept |
| Settings.SetFilterProperty | src/appconfig.cpp:242-288 | a value of the property's kind is what the property reads afterwards and raises the dirty flag; any other value changes nothing; every other field, the cached list and the standard filter are kept |
| Settings.SetOwnPropertyGetSet | src/appconfig.cpp:208-288 | get after set: a value of the property's kind written through a listed property's setter is what it reads afterwards ("language" only for a known translation), and every other listed property reads as before |
| Settings.OtherPropertyKept | src/appconfig.cpp:208-288 | writing one listed property never changes what another listed property reads |
| Settings.GeneralValueKept | src/appconfig.cpp:208-240 | a general setter leaves every other general property's value alone |
| Settings.FilterValueKept | src/appconfig.cpp:242-288 | a filter setter leaves the other properties of its group alone |
| Settings.SetOwnPropertyRefused | src/appconfig.cpp:208-288 | a value the setter refuses (of another kind than the property's, or a language without a known translation) leaves the state unchanged |
| Settings.SetOwnPropertyValid | src/appconfig.cpp:242-288 | writing any property keeps both caches coherent and the language an available translation |
| Settings.OwnTablePersistent | src/appconfig.cpp:147-168 | the property values do not depend on the filter caches or their flags |
| Settings.SetOwnPropertySame | src/appconfig.cpp:242-288 | writing back the value a property reads leaves every property value as it was |
| Settings.SameGeneralValue | src/appconfig.cpp:208-240 | writing back a general property's own value leaves the state unchanged |
| Settings.SameFilterValue | src/appconfig.cpp:242-288 | writing back a header or source property's own value only raises that group's dirty flag |
| Settings.WriteProperty | src/appconfig.cpp:341-345 | writing a known property keeps the object's class, name, property list, property names and writability; an ordinary object's table changes at that name only |
| Settings.SaveObject | src/appconfig.cpp:314-338 | an object that is not a QObject is skipped; a QObject's listed properties are saved; Settings.SaveObjectFrame and Settings.SavePropsValue state what it writes and keeps |
| Settings.SaveAll | src/appconfig.cpp:312-355 | the registered objects saved one after another in registry order; Settings.SaveAllFrame and Settings.SaveAllValue state its effect |
| Settings.InKeysOf | src/appconfig.cpp:322-336 | the key of a listed, known property of a QObject is among that object's keys |
| Settings.SaveProps | src/appconfig.cpp:322-338 | saving a property list adds exactly one key per listed name the object has, and no other key |
| Settings.SavePropsStep | src/appconfig.cpp:322-338 | one more loop step writes the next listed property's value under its key when the object has it, and nothing otherwise |
| Settings.KeyInjective | src/appconfig.cpp:336 | within one object, the key determines the property name |
| Settings.SavePropsValue | src/appconfig.cpp:335-338 | after a save, each listed known property's key holds that property's current value |
| Settings.SavePropsFrame | src/appconfig.cpp:322-338 | a save leaves every key it does not own exactly as it was |
| Settings.SaveObjectFrame | src/appconfig.cpp:314-338 | saving one object keeps every key that is not one of its own, with its value |
| Settings.SaveAllFrame | src/appconfig.cpp:312-355 | a whole save pass adds exactly the keys of the registered QObjects' known properties, and leaves every other key untouched |
| Settings.KeysDisjointPrefix | src/appconfig.cpp:312 | key disjointness holds for every prefix of the registry |
| Settings.SavedKeysInclude | src/appconfig.cpp:312-355 | every key of every registered object is among the keys a pass writes |
| Settings.SavedKeysOwned | src/appconfig.cpp:312-355 | a pass writes no key that belongs to no registered object |
| Settings.HasDefaultGroup | src/appconfig.cpp:76 | a store holding a key that starts with "default/" has the default group |
| Settings.SaveCreatesGroup | src/appconfig.cpp:74-86 | a default save pass that writes some object's known listed property creates the default group |
| Settings.SaveAllValue | src/appconfig.cpp:312-355 | when objects share no key, after a pass each object's key holds that object's property value |
| Settings.RestoreProp | src/appconfig.cpp:339-346 | one property is written with the stored value when it is known, writable and its key is stored, and otherwise the object is unchanged; Settings.RestorePropPlain and Settings.RestorePropConfig state the two cases |
| Settings.RestoreObject | src/appconfig.cpp:314-352 | an object that is not a QObject is skipped; a QObject's listed properties are restored in order; Settings.RestorePlainTable (ordinary objects) and Settings.RestoreConfigObject (AppConfig) state which properties take the stored values |
| Settings.RestoreProps | src/appconfig.cpp:322-352 | a restore keeps the object's class, name, property list, property names and writability |
| Settings.RestoreAll | src/appconfig.cpp:312-355 | a restore pass restores each registered object from the same store, in registry order |
| Settings.RestorePropsStep | src/appconfig.cpp:322-352 | one more loop step restores the next listed property on top of the ones before it |
| Settings.RestorePropPlain | src/appconfig.cpp:339-346 | for an ordinary object one restore step changes at most the table entry of that property |
| Settings.RestorePropConfig | src/appconfig.cpp:339-346 | for AppConfig one restore step writes the stored value through the property's setter when the key is stored, and changes nothing otherwise |
| Settings.RestorePlainTable | src/appconfig.cpp:339-346 | a restore writes the stored value into exactly the listed, known, writable properties with a stored key, and leaves every other property unchanged |
| Settings.RestorePropSame | src/appconfig.cpp:339-346 | restoring one property from a store holding its current value leaves the table unchanged |
| Settings.RestoreConfigTable | src/appconfig.cpp:322-352 | restoring AppConfig over a list of its property names gives each listed property the value stored under its key when the key is stored and the setter takes it, and keeps every other property; the translation table and each property's kind are kept |
| Settings.RestoreConfigObject | src/appconfig.cpp:314-352 | a restore pass over AppConfig, from any store (restoreDefault after changes included), sets each property to its stored value when the key is stored and the setter takes it, and keeps it otherwise |
| Settings.RestorePropsSame | src/appconfig.cpp:322-352 | restoring from a store holding every listed property's current value changes no property |
| Settings.SaveThenRestore | src/appconfig.cpp:290-361 | a save followed by a restore on the same group leaves every property of every registered object as it was, when no two objects share a key |
| Settings.SplitAtFirst | src/appconfig.cpp:336 | splitting at the first separator is unambiguous |
| Settings.KeyParts | src/appconfig.cpp:321-336 | a key built from a '/'-free class name and a '_'-free object name determines the class, object and property names |
| Settings.UnambiguousNamesDisjoint | src/appconfig.cpp:321-336 | objects with such names, no two QObjects sharing both names, never share a key |
| Settings.Mid | src/appconfig.cpp:371 | mid(pos, n) has at most n characters: the n characters from pos when the string is long enough, the tail from pos when it is shorter, and empty when pos lies past the end |
| Settings.IsTranslationFile | src/appconfig.cpp:367-368 | the name filter "<appName>*.qm": the file name starts with the application name and ends with ".qm" |
| Settings.LanguageCode | src/appconfig.cpp:370-371 | the two characters after "<appName>_", through Settings.Mid |
| Settings.Discover | src/appconfig.cpp:363-382 | discovery keeps every known code and its path, maps new codes to the scanned path, gives every matching file's code an entry, and signals exactly the new codes with that path |
| Settings.DiscoverFromFiles | src/appconfig.cpp:368-376 | every code a pass adds comes from a matching file in the listing |
| Settings.DiscoverStep | src/appconfig.cpp:368-381 | one more directory entry adds its language code with the path and signals it, unless the file does not match or the code is known |
| Settings.DiscoverSignalsDistinct | src/appconfig.cpp:373-380 | one discovery pass announces each language at most once |
| AppConfigStore.SerializableObject.constructor | src/appconfig.cpp:139-145 | an ordinary registered object is built with exactly the given QObject flag, class, object name, property list and table |
| AppConfigStore.AppConfig.Snapshot | src/appconfig.cpp:314-318 | AppConfig's own entry is seen as AppConfig's state; another entry as its object's QObject flag, class, name, property list and table |
| AppConfigStore.AppConfig.SnapshotsOf | src/appconfig.cpp:312 | the entries' states, one per entry, in order |
| AppConfigStore.AppConfig.Snapshots | src/appconfig.cpp:312 | a pass sees one object state per registry entry, in registry order |
| AppConfigStore.AppConfig.constructor | src/appconfig.cpp:39-57 | the constructor sets the initial language "en" with "en" available at an empty path, the other defaults, and both dirty flags; AppConfig is registered first; the invariant holds |
| AppConfigStore.AppConfig.RegisterSerializable | src/appconfig.cpp:139-145 | an object already registered leaves the registry unchanged and adds a warning; any other is appended at the end; no duplicates ever |
| AppConfigStore.AppConfig.SetLanguage | src/appconfig.cpp:208-213 | the object's state changes as Settings.SetLanguage says |
| AppConfigStore.AppConfig.SetSelectedFolders | src/appconfig.cpp:236-240 | the folder list becomes the given one |
| AppConfigStore.AppConfig.HdrSetParseEnabled | src/appconfig.cpp:242-246 | stores the value and raises the header dirty flag only |
| AppConfigStore.AppConfig.HdrSetStandardFiltersEnabled | src/appconfig.cpp:248-252 | stores the value and raises the header dirty flag only |
| AppConfigStore.AppConfig.HdrSetCurrentStandardFilterIndex | src/appconfig.cpp:254-258 | stores the value and raises the header dirty flag only |
| AppConfigStore.AppConfig.HdrSetCustomFilters | src/appconfig.cpp:260-264 | stores the value and raises the header dirty flag only |
| AppConfigStore.AppConfig.SrcSetParseEnabled | src/appconfig.cpp:266-270 | stores the value and raises the source dirty flag only |
| AppConfigStore.AppConfig.SrcSetStandardFiltersEnabled | src/appconfig.cpp:272-276 | stores the value and raises the source dirty flag only |
| AppConfigStore.AppConfig.SrcSetCurrentStandardFilterIndex | src/appconfig.cpp:278-282 | stores the value and raises the source dirty flag only |
| AppConfigStore.AppConfig.SrcSetCustomFilters | src/appconfig.cpp:284-288 | stores the value and raises the source dirty flag only |
| AppConfigStore.AppConfig.HeaderNameFilters | src/appconfig.cpp:170-187 | returns the list the header settings stand for, whether or not the flag was set; rebuilds the cache only when dirty; leaves the group clean and coherent |
| AppConfigStore.AppConfig.SourceNameFilters | src/appconfig.cpp:189-206 | the same as HeaderNameFilters, for the source group |
| AppConfigStore.AppConfig.WriteOwnProperty | src/appconfig.cpp:341-345 | writing one of AppConfig's properties goes through its setter, with the effect Settings.SetOwnProperty states |
| AppConfigStore.AppConfig.WriteHdrProperty | src/appconfig.cpp:242-264 | a header property is written through its setter, with the effect Settings.SetFilterProperty states |
| AppConfigStore.AppConfig.WriteSrcProperty | src/appconfig.cpp:266-288 | a source property is written through its setter, with the effect Settings.SetFilterProperty states |
| AppConfigStore.AppConfig.SaveSnapshot | src/appconfig.cpp:314-338 | the inner loop stores exactly what Settings.SaveObject stores for that object |
| AppConfigStore.AppConfig.RestoreSelf | src/appconfig.cpp:322-352 | the inner loop over AppConfig's own properties gives the state Settings.RestoreObject describes, and keeps the invariant |
| AppConfigStore.AppConfig.RestoreOwnProperty | src/appconfig.cpp:335-345 | one step of that loop gives the state Settings.RestoreProp describes and keeps the invariant |
| AppConfigStore.AppConfig.RestoreOther | src/appconfig.cpp:314-352 | the inner loop over another object gives the state Settings.RestoreObject describes |
| AppConfigStore.AppConfig.SavePass | src/appconfig.cpp:312-355 | the outer loop's store is Settings.SaveAll over the registry's states, and no object changes |
| AppConfigStore.AppConfig.RestorePass | src/appconfig.cpp:312-355 | the outer loop's objects are Settings.RestoreAll of their old states, and the invariant holds |
| AppConfigStore.AppConfig.RestoreEntry | src/appconfig.cpp:312-355 | one iteration of that loop restores its entry as Settings.RestoreObject says and leaves every other entry as it was |
| AppConfigStore.AppConfig.EmitSignal | src/appconfig.cpp:357-360 | an emitted signal is appended to those emitted so far |
| AppConfigStore.AppConfig.SaveBranch | src/appconfig.cpp:312-358 | the save pass followed by exactly one configSaved |
| AppConfigStore.AppConfig.RestoreBranch | src/appconfig.cpp:312-360 | the restore pass followed by exactly one configRestored |
| AppConfigStore.AppConfig.DoSaveRestore | src/appconfig.cpp:290-361 | one pass under the chosen group (save: store extended, objects unchanged; restore: store unchanged, objects restored), then exactly one configSaved or configRestored |
| AppConfigStore.AppConfig.Save | src/appconfig.cpp:64-67 | a save pass under "current/", signalled once |
| AppConfigStore.AppConfig.Restore | src/appconfig.cpp:69-72 | a restore pass under "current/", signalled once |
| AppConfigStore.AppConfig.SaveDefault | src/appconfig.cpp:74-86 | a no-op when the default group exists; otherwise a save pass under "default/"; afterwards the group always exists, so a second call never overwrites it |
| AppConfigStore.AppConfig.Warn | src/appconfig.cpp:91 | a reported diagnostic is appended to those reported so far |
| AppConfigStore.AppConfig.RestoreDefault | src/appconfig.cpp:88-97 | with no default group it reports an error and changes no object, setting or signal; otherwise a restore pass under "default/" |
| AppConfigStore.AppConfig.SelfKeyStored | src/appconfig.cpp:74-85 | a default save over a registry that starts with AppConfig creates the default group |
| AppConfigStore.AppConfig.LookForTranslationsByPath | src/appconfig.cpp:363-382 | the loop's table and signals are exactly Settings.Discover's, and the invariant holds |
| AppConfigStore.AppConfig.ConsiderEntry | src/appconfig.cpp:370-380 | a matching file whose two-letter code is new adds the code with the path and signals it once; any other entry changes nothing |
| Window.Capitalised | src/mainwindow.cpp:723-724 | a word's first character is upper-cased and the rest kept; an empty word becomes a single NUL; no space is introduced |
| Window.UcFirst | src/mainwindow.cpp:718-728 | the result has as many space-separated words as the input, and each word is the input word capitalised |
| Window.CapitalisedWordsUnique | src/mainwindow.cpp:718-728 | that word-by-word relation determines the result |
| Window.FilterEntry | src/mainwindow.cpp:440 | an entry is five characters longer than twice its extension |
| Window.EntryExtensionOf | src/mainwindow.cpp:440-441 | the extension can be read back from its entry, so different extensions give different entries |
| Window.Entries | src/mainwindow.cpp:437-445 | the i-th entry is the filter of the i-th plugin |
| Window.ExtensionMap | src/mainwindow.cpp:441 | the map's keys are exactly the entries |
| Window.ExtensionMapSends | src/mainwindow.cpp:441 | the map sends each plugin's entry to that plugin's extension |
| Window.MainWindow.constructor | src/mainwindow.cpp:57-95 | the filter string and map start empty and the once-flag false; English is announced with no path, so it is the only language action, checked, labelled with its capitalised native name; the system-language action keeps the object name and enabled state the form gives it, unless the system locale is English, when it takes the empty path and is enabled |
| Window.MainWindow.UpdateImageFilters | src/mainwindow.cpp:424-448 | on the first call with a plugin list, appends the entries joined by ";;" with no trailing separator, adds each entry's extension to the map, and sets the flag; after that, or with no plugin list, nothing changes |
| Window.PartialFiltersStep | src/mainwindow.cpp:437-445 | one loop step extends the filter string to the next plugin |
| Window.AppendEntry | src/mainwindow.cpp:437-445 | one loop step adds one entry to the list and to the map |
| Window.MainWindow.ResolveImagePath | src/mainwindow.cpp:456-466 | an empty path aborts; a path with a suffix keeps it as the format; otherwise the selected filter's extension is appended and becomes the format, and a missing filter is inserted with an empty extension; the written path's suffix is the format |
| Window.MainWindow.SaveAsImage | src/mainwindow.cpp:422-466 | the filter string, its map and the once-flag change as UpdateImageFilters says; with no plugins on first use there is no target; otherwise an empty path gives none, a path with a suffix is kept with that suffix as format, and a path without one gets the selected filter's extension (empty and inserted when the filter is unknown) appended as its format; a target's suffix is its format |
| Window.MainWindow.OnTranslationFound | src/mainwindow.cpp:687-716 | a language that already has an action changes nothing; otherwise exactly one action is added with the path, the capitalised native name, checked for "en"; the system-language action takes the path exactly when the language is the system locale's |
| Window.DotPath | src/mainwindow.cpp:482-489 | an empty path aborts; a path without a suffix gets exactly ".dot" appended, so its suffix becomes "dot"; a path with a suffix is kept |
| Window.ProjectPath | src/mainwindow.cpp:193-197 | an empty name aborts; a name ending with ".dProj" is kept, any other gets exactly ".dProj" appended |
| Window.ProjectPathIdempotent | src/mainwindow.cpp:196-197 | normalising a project path twice is the same as once |
| Window.NonEmpty | src/mainwindow.cpp:540-541 | the kept strings are exactly the non-empty ones, and there are no more of them than strings; one string is kept exactly when it is non-empty |
| Window.NonEmptyAppend | src/mainwindow.cpp:540-541 | dropping empty strings works piece by piece, so with the one-string case it keeps the non-empty strings in order and with their repetitions |
| Window.NonEmptyNoop | src/mainwindow.cpp:540-541 | a list without empty strings is kept whole |
| Window.Lines | src/mainwindow.cpp:540-541 | every reply line is non-empty and holds no newline; a text without newline is one line, or none when empty |
| Window.LinesAppend | src/mainwindow.cpp:540-541 | a newline separates lines: the lines before it, then those after it; with the newline-free case this fixes the lines of every text |
| Window.ClassifyUpdateReply | src/mainwindow.cpp:531-559 | a network error is a failure; a body is an error exactly when its first line is not "OK", carrying the second line; a new version is the second line and never "NO"; after "OK", a second line "NO" means up to date and any other second line is that new version |
| Window.LinesOfJoin | src/mainwindow.cpp:540-541 | non-empty lines joined by newlines split back into those lines |
| Window.TrailingBlankLines | src/mainwindow.cpp:540-541 | blank lines at the end of a reply are dropped |
| Window.BlanksJoin | src/mainwindow.cpp:540-541 | joining a list followed by n empty lines appends n newlines |
| Window.NonEmptyBlanks | src/mainwindow.cpp:540-541 | dropping empty strings removes trailing empty lines |
| Window.BlanksDropped | src/mainwindow.cpp:540-541 | a list of empty lines leaves nothing |
| Window.NewVersionAnnounced | src/mainwindow.cpp:540-552 | a reply "OK", then a version v other than "NO", then any blank lines, is read as new version v |
| Window.AllSupported | src/mainwindow.cpp:647-653 | the loop's answer is true exactly when every format is supported |
| Window.HasRequiredImageFormats | src/mainwindow.cpp:642-654 | true exactly when both "ico" and "png" are supported |

## Left out

- Qt's meta-object system and QSettings I/O. Reflection is a property table per object. A registered object is either AppConfig itself or a `SerializableObject` carrying a "is a QObject" flag. The store is a map loaded at construction.
- Restoring a key that is missing from the store leaves the property unchanged. This is Qt 4's QMetaProperty::write, which refuses an invalid QVariant. Under Qt 5 a default-constructed value would be written instead.
- The enum-to-int conversion on restore (`p.isEnumType()`). None of AppConfig's properties is an enum.
- QVariant conversions between value kinds. A stored value of another kind leaves an AppConfig property unchanged. An ordinary object takes the stored value as it is.
- The qDebug messages. Only the two messages that report a refused call are recorded: an object registered twice, and missing default settings.
- `saveDefault` moving the main window to the centre of the screen.
- `setLanguage`'s translator switching and `QLocale::setDefault`. Also left out: `installPrefix`, `translationsPath` and `loadTranslations`. Discovery takes the directory and its listing as parameters.
- The Memento behind `setSelectedFolders`. Only the committed folder list is kept; its undo history is not modelled.
- Settings.IsTranslationFile: the `<appName>*.qm` filter is matched case-sensitively. QDir matches it without regard to case when the CaseSensitive flag is absent.
- `_hdrCurrentStandardFilter` and `_srcCurrentStandardFilter` are read by the getters but set nowhere in `src/appconfig.cpp`. No modelled operation changes them.
- `_hiddenFoldersIncluded` and both standard-filter indices are not initialised by the constructor. Their initial values are arbitrary.
- Strings.Upper: upper-cases ASCII letters only, where QChar::toUpper covers all of Unicode.
- Window.ClassifyUpdateReply: requires a body with at least two non-empty lines. The code reads the first two lines without checking, so a shorter reply is outside what it handles.
- Also left out of the reply handling: reading the bytes into a QString, and the message texts.
- The network request (`checkForUpdates`, `_postData`), file dialogs, message boxes and menus. Graph saving and `Project::createNew` are left out too. Each dialog's result is a parameter, and so are the plugin list, the supported image formats, the system locale and a language's native name. The form file is not part of this model, so the system-language action's initial object name and enabled state are constructor parameters too.
- Language actions are values: path, text and checked state. Their icons, menu and action-group insertion are not modelled.
- Folder scanning with `QtConcurrent`, window geometry and state, and `closeEvent`/`changeEvent`. `src/project.cpp`, `src/customtabwidget.cpp`, `src/selectfilesdialog.cpp` and `src/main.cpp` are not part of this model.
