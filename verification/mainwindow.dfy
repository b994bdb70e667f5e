/**
 * The string and decision rules inside MainWindow's slots (src/mainwindow.cpp),
 * with the dialogs, widgets and network stripped away: capitalising a language
 * name, building the image-filter string and its filter-to-extension map,
 * extension defaulting for images, dot files and projects, classifying the
 * update server's reply, de-duplicating language actions and the required
 * image-format check.
 */
module Window {
  import opened Strings
  import opened Settings

  datatype Option<T> = None | Some(value: T)

  // ---------------------------------------------------------------------------
  // _ucFirst

  /** A word after `s[0] = s[0].toUpper()`: an empty word reads its first character
      as NUL, and writing it back makes the word that one character. */
  function Capitalised(w: string): (r: string)
    ensures |r| >= 1 && |r| >= |w|
    ensures w != "" ==> |r| == |w| && r[0] == Upper(w[0]) && r[1..] == w[1..]
    ensures w == "" ==> r == ['\0']
    ensures ' ' !in w ==> ' ' !in r
  {
    if w == "" then ['\0'] else [Upper(w[0])] + w[1..]
  }

  /** `r` has the words of `value`, split on single spaces, each capitalised. */
  predicate CapitalisedWords(value: string, r: string)
  {
    var ws := Split(value, ' ');
    var rs := Split(r, ' ');
    |rs| == |ws| && forall i :: 0 <= i < |ws| ==> rs[i] == Capitalised(ws[i])
  }

  /** MainWindow::_ucFirst: split on " ", capitalise each part in place, join with " ". */
  method UcFirst(value: string) returns (r: string)
    ensures CapitalisedWords(value, r)
  {
    var split := Split(value, ' ');
    ghost var words := split;
    var i := 0;
    while i < |split|
      invariant 0 <= i <= |split| == |words|
      invariant forall j :: 0 <= j < i ==> split[j] == Capitalised(words[j])
      invariant forall j :: i <= j < |split| ==> split[j] == words[j]
    {
      split := split[i := Capitalised(split[i])];
      i := i + 1;
    }
    forall w | w in split
      ensures ' ' !in w
    {
      var j :| 0 <= j < |split| && split[j] == w;
      assert words[j] in words;
    }
    r := Join(split, " ");
    SplitJoin(split, ' ');
  }

  /** The relation UcFirst promises pins its result down: there is one such string. */
  lemma CapitalisedWordsUnique(value: string, r1: string, r2: string)
    requires CapitalisedWords(value, r1) && CapitalisedWords(value, r2)
    ensures r1 == r2
  {
    JoinSplit(r1, ' ');
    JoinSplit(r2, ' ');
    assert Split(r1, ' ') == Split(r2, ' ');
  }

  // ---------------------------------------------------------------------------
  // The image-filter string of saveAsImage

  /** One file-dialog filter for the plugin extension f: "PNG (*.png)". */
  function FilterEntry(f: string): (e: string)
    ensures |e| == 2 * |f| + 5
  {
    ToUpper(f) + " (*." + f + ")"
  }

  /** The extension written inside a filter entry, read back from the entry's shape. */
  function EntryExtension(e: string): string
  {
    if |e| < 5 then "" else e[(|e| - 5) / 2 + 4..|e| - 1]
  }

  /** Reading an entry back gives the extension it was built from, so different
      extensions give different entries. */
  lemma EntryExtensionOf(f: string)
    ensures EntryExtension(FilterEntry(f)) == f
  {
    var e := FilterEntry(f);
    assert e == ToUpper(f) + " (*." + f + ")";
    assert e[|f| + 4..|e| - 1] == f;
  }

  /** The filter entries for a plugin list, in order. */
  function Entries(exts: seq<string>): (r: seq<string>)
    ensures |r| == |exts|
    ensures forall i :: 0 <= i < |exts| ==> r[i] == FilterEntry(exts[i])
  {
    seq(|exts|, i requires 0 <= i < |exts| => FilterEntry(exts[i]))
  }

  /** The filter-to-extension map for a plugin list: each entry to the extension inside it. */
  function ExtensionMap(exts: seq<string>): (m: map<string, string>)
    ensures m.Keys == set e | e in Entries(exts)
  {
    map e | e in Entries(exts) :: EntryExtension(e)
  }

  /** The map sends each plugin's entry to that plugin's extension. */
  lemma ExtensionMapSends(exts: seq<string>, i: nat)
    requires i < |exts|
    ensures FilterEntry(exts[i]) in ExtensionMap(exts)
    ensures ExtensionMap(exts)[FilterEntry(exts[i])] == exts[i]
  {
    assert Entries(exts)[i] in Entries(exts);
    EntryExtensionOf(exts[i]);
  }

  /** Where saveAsImage writes, and in which format. */
  datatype ImageTarget = ImageTarget(path: string, format: string)

  /** The language entry of the Language menu: the translation's path, its
      capitalised native name and whether it starts checked. */
  datatype LangAction = LangAction(path: string, text: string, checked: bool)

  class MainWindow {
    var imageFilters: string
    var imageFiltersByExt: map<string, string>
    var imageFiltersUpdated: bool
    var langActions: map<string, LangAction>
    /** The "system language" action: the translation path it loads and whether it is enabled. */
    var systemLanguagePath: string
    var systemLanguageEnabled: bool

    /** The fields MainWindow's constructor initialises that the slots below use: the
        system-language action starts as the form defines it (`systemLanguagePath` and
        `systemLanguageEnabled` are its object name and enabled state there), then the
        constructor announces English, the built-in language with no translation file,
        through onTranslationFound. `englishNativeName` and `systemLocale` stand for what
        QLocale reports. */
    constructor (systemLanguagePath: string, systemLanguageEnabled: bool,
                 englishNativeName: string, systemLocale: string)
      ensures !imageFiltersUpdated && imageFilters == "" && imageFiltersByExt == map[]
      ensures langActions.Keys == {"en"}
      ensures langActions["en"].path == "" && langActions["en"].checked
      ensures CapitalisedWords(englishNativeName, langActions["en"].text)
      ensures this.systemLanguagePath == (if Mid(systemLocale, 0, 2) == "en" then "" else systemLanguagePath)
      ensures this.systemLanguageEnabled == (systemLanguageEnabled || Mid(systemLocale, 0, 2) == "en")
    {
      imageFilters := "";
      imageFiltersByExt := map[];
      imageFiltersUpdated := false;
      langActions := map[];
      this.systemLanguagePath := systemLanguagePath;
      this.systemLanguageEnabled := systemLanguageEnabled;
      new;
      OnTranslationFound("en", "", englishNativeName, systemLocale);
    }

    /** The first block of saveAsImage: on the first call with a plugin list, append each
        plugin's entry to the filter string, ";;" between entries, record entry to extension,
        and set the once-flag. With no plugin list nothing changes and the slot gives up. */
    method UpdateImageFilters(plugins: Option<seq<string>>) returns (ok: bool)
      modifies this`imageFilters, this`imageFiltersByExt, this`imageFiltersUpdated
      ensures ok == (old(imageFiltersUpdated) || plugins.Some?) && imageFiltersUpdated == ok
      ensures old(imageFiltersUpdated) || plugins.None? ==>
        imageFilters == old(imageFilters) && imageFiltersByExt == old(imageFiltersByExt)
      ensures !old(imageFiltersUpdated) && plugins.Some? ==>
        imageFilters == old(imageFilters) + Join(Entries(plugins.value), ";;") &&
        imageFiltersByExt == old(imageFiltersByExt) + ExtensionMap(plugins.value)
    {
      if imageFiltersUpdated {
        return true;
      }
      if plugins.None? {
        return false;
      }
      var list := plugins.value;
      var i := 0;
      while i < |list|
        invariant 0 <= i <= |list|
        invariant imageFilters == PartialFilters(old(imageFilters), list, i)
        invariant imageFiltersByExt == old(imageFiltersByExt) + ExtensionMap(list[..i])
      {
        var f := list[i];
        var currentFilter := FilterEntry(f);
        PartialFiltersStep(old(imageFilters), list, i);
        AppendEntry(list, i);
        UnionUpdate(old(imageFiltersByExt), ExtensionMap(list[..i]), currentFilter, f);
        imageFiltersByExt := imageFiltersByExt[currentFilter := f];
        imageFilters := imageFilters + currentFilter;
        if i < |list| - 1 {
          imageFilters := imageFilters + ";;";
        }
        i := i + 1;
      }
      assert list[..i] == list;
      assert imageFilters == old(imageFilters) + Join(Entries(list), ";;");
      imageFiltersUpdated := true;
      return true;
    }

    /** The tail of saveAsImage after the dialog: an empty path aborts; a path without a
        suffix gets the selected filter's extension appended and that extension becomes the
        format (a filter the map lacks is inserted with an empty extension, as QMap's
        operator[] does); otherwise the path's own suffix is the format. */
    method ResolveImagePath(path: string, selectedFilter: string) returns (r: Option<ImageTarget>)
      modifies this`imageFiltersByExt
      ensures path == "" ==> r == None && imageFiltersByExt == old(imageFiltersByExt)
      ensures path != "" && Suffix(path) != "" ==>
        r == Some(ImageTarget(path, Suffix(path))) && imageFiltersByExt == old(imageFiltersByExt)
      ensures path != "" && Suffix(path) == "" ==>
        var format := if selectedFilter in old(imageFiltersByExt) then old(imageFiltersByExt)[selectedFilter] else "";
        r == Some(ImageTarget(path + "." + format, format)) &&
        imageFiltersByExt == old(imageFiltersByExt)[selectedFilter := format]
      ensures r.Some? && '.' !in r.value.format && '/' !in r.value.format ==>
        Suffix(r.value.path) == r.value.format
    {
      if path == "" {
        return None;
      }
      var format := Suffix(path);
      var target := path;
      if format == "" {
        if selectedFilter !in imageFiltersByExt {
          imageFiltersByExt := imageFiltersByExt[selectedFilter := ""];
        }
        format := imageFiltersByExt[selectedFilter];
        target := path + "." + format;
        if '.' !in format && '/' !in format {
          SuffixOfAppended(path, format);
        }
      }
      return Some(ImageTarget(target, format));
    }

    /** MainWindow::saveAsImage without the dialog and the graph: `path` and
        `selectedFilter` are what the dialog returned. */
    method SaveAsImage(plugins: Option<seq<string>>, path: string, selectedFilter: string)
      returns (r: Option<ImageTarget>)
      modifies this`imageFilters, this`imageFiltersByExt, this`imageFiltersUpdated
      ensures imageFiltersUpdated == (old(imageFiltersUpdated) || plugins.Some?)
      ensures !old(imageFiltersUpdated) && plugins.Some? ==>
        imageFilters == old(imageFilters) + Join(Entries(plugins.value), ";;")
      ensures old(imageFiltersUpdated) || plugins.None? ==> imageFilters == old(imageFilters)
      ensures !old(imageFiltersUpdated) && plugins.None? ==>
        r == None && imageFiltersByExt == old(imageFiltersByExt)
      ensures old(imageFiltersUpdated) || plugins.Some? ==>
        var filters := if old(imageFiltersUpdated) then old(imageFiltersByExt)
          else old(imageFiltersByExt) + ExtensionMap(plugins.value);
        var format := if selectedFilter in filters then filters[selectedFilter] else "";
        && (path == "" ==> r == None && imageFiltersByExt == filters)
        && (path != "" && Suffix(path) != "" ==>
              r == Some(ImageTarget(path, Suffix(path))) && imageFiltersByExt == filters)
        && (path != "" && Suffix(path) == "" ==>
              r == Some(ImageTarget(path + "." + format, format)) &&
              imageFiltersByExt == filters[selectedFilter := format])
      ensures r.Some? ==> path <= r.value.path
      ensures r.Some? && '.' !in r.value.format && '/' !in r.value.format ==>
        Suffix(r.value.path) == r.value.format
    {
      var ok := UpdateImageFilters(plugins);
      if !ok {
        return None;
      }
      r := ResolveImagePath(path, selectedFilter);
    }

    /** MainWindow::onTranslationFound: a language that already has an action is ignored;
        otherwise exactly one action is added, checked for "en", labelled with the
        capitalised native name, and the system-language action takes the path when the
        language is the system locale's. */
    method OnTranslationFound(lang: string, path: string, nativeName: string, systemLocale: string)
      modifies this`langActions, this`systemLanguagePath, this`systemLanguageEnabled
      ensures lang in old(langActions) ==>
        langActions == old(langActions) && systemLanguagePath == old(systemLanguagePath) &&
        systemLanguageEnabled == old(systemLanguageEnabled)
      ensures lang !in old(langActions) ==>
        && langActions.Keys == old(langActions).Keys + {lang}
        && (forall l :: l in old(langActions) ==> langActions[l] == old(langActions)[l])
        && langActions[lang].path == path
        && langActions[lang].checked == (lang == "en")
        && CapitalisedWords(nativeName, langActions[lang].text)
      ensures lang !in old(langActions) && lang == Mid(systemLocale, 0, 2) ==>
        systemLanguagePath == path && systemLanguageEnabled
      ensures lang !in old(langActions) && lang != Mid(systemLocale, 0, 2) ==>
        systemLanguagePath == old(systemLanguagePath) && systemLanguageEnabled == old(systemLanguageEnabled)
    {
      if lang in langActions {
        return;
      }
      var text := UcFirst(nativeName);
      var newLang := LangAction(path, text, lang == "en");
      if lang == Mid(systemLocale, 0, 2) {
        systemLanguagePath := path;
        systemLanguageEnabled := true;
      }
      langActions := langActions[lang := newLang];
    }
  }

  /** The filter string after the first i plugins of `list`: the entries so far, joined by
      ";;", and the separator that follows an entry that is not the last. */
  ghost function PartialFilters(base: string, list: seq<string>, i: nat): string
    requires i <= |list|
  {
    base + Join(Entries(list[..i]), ";;") + (if 0 < i < |list| then ";;" else "")
  }

  lemma PartialFiltersStep(base: string, list: seq<string>, i: nat)
    requires i < |list|
    ensures PartialFilters(base, list, i) + FilterEntry(list[i]) + (if i < |list| - 1 then ";;" else "")
         == PartialFilters(base, list, i + 1)
  {
    AppendEntry(list, i);
    if i == 0 {
      assert list[..0] == [];
      assert Entries(list[..0]) == [];
    }
  }

  lemma UnionUpdate(m: map<string, string>, a: map<string, string>, k: string, v: string)
    ensures (m + a)[k := v] == m + a[k := v]
  {
  }

  /** One step of the filter loop: the entry list grows by one, and so does the map. */
  lemma AppendEntry(list: seq<string>, i: nat)
    requires i < |list|
    ensures Entries(list[..i + 1]) == Entries(list[..i]) + [FilterEntry(list[i])]
    ensures i > 0 ==> Join(Entries(list[..i + 1]), ";;") == Join(Entries(list[..i]), ";;") + ";;" + FilterEntry(list[i])
    ensures i == 0 ==> Join(Entries(list[..i + 1]), ";;") == FilterEntry(list[i])
    ensures ExtensionMap(list[..i + 1]) == ExtensionMap(list[..i])[FilterEntry(list[i]) := list[i]]
  {
    var before := Entries(list[..i]);
    var after := Entries(list[..i + 1]);
    assert after == before + [FilterEntry(list[i])];
    if i > 0 {
      JoinSnoc(before, FilterEntry(list[i]), ";;");
    }
    EntryExtensionOf(list[i]);
  }

  // ---------------------------------------------------------------------------
  // Extension defaulting

  /** The path saveAsDot writes: none for a cancelled dialog, ".dot" appended when the
      path has no suffix, otherwise the path unchanged. */
  function DotPath(path: string): (r: Option<string>)
    ensures r.None? <==> path == ""
    ensures r.Some? ==> path <= r.value && Suffix(r.value) != ""
    ensures r.Some? && Suffix(path) == "" ==> Suffix(r.value) == "dot"
    ensures r.Some? && Suffix(path) != "" ==> r.value == path
    ensures r.Some? && Suffix(path) == "" ==> r.value == path + ".dot"
  {
    if path == "" then None
    else if Suffix(path) == "" then
      SuffixOfAppended(path, "dot");
      assert path + "." + "dot" == path + ".dot";
      Some(path + ".dot")
    else Some(path)
  }

  /** The path newProject creates: none for an empty name, otherwise the name with
      ".dProj" appended unless it already ends with it. */
  function ProjectPath(file: string): (r: Option<string>)
    ensures r.None? <==> file == ""
    ensures r.Some? ==> EndsWith(r.value, ".dProj") && file <= r.value
    ensures r.Some? && EndsWith(file, ".dProj") ==> r.value == file
    ensures r.Some? && !EndsWith(file, ".dProj") ==> r.value == file + ".dProj"
  {
    if file == "" then None
    else if EndsWith(file, ".dProj") then Some(file)
    else Some(file + ".dProj")
  }

  /** Normalising a project path twice is the same as once. */
  lemma ProjectPathIdempotent(file: string)
    requires file != ""
    ensures ProjectPath(ProjectPath(file).value) == ProjectPath(file)
  {
  }

  // ---------------------------------------------------------------------------
  // onUpdateReply

  /** What the update request produced: a network error or the reply body. */
  datatype Reply = NetworkError(errorString: string) | Body(text: string)

  /** What onUpdateReply tells the user. */
  datatype UpdateResult =
    | Failed(errorString: string)
    | UpToDate
    | NewVersion(version: string)
    | ServerError(message: string)

  /** The replies onUpdateReply shows as a critical message rather than information. */
  predicate IsError(r: UpdateResult)
  {
    r.Failed? || r.ServerError?
  }

  /** The list without its empty strings, in order. */
  function NonEmpty(ws: seq<string>): (r: seq<string>)
    ensures |r| <= |ws|
    ensures forall w :: w in r <==> w in ws && w != ""
    ensures |ws| == 1 ==> r == (if ws[0] == "" then [] else ws)
  {
    if ws == [] then []
    else if ws[0] == "" then NonEmpty(ws[1..])
    else [ws[0]] + NonEmpty(ws[1..])
  }

  /** Dropping empty strings works piece by piece; with the one-element case this fixes
      NonEmpty on every list, order and repetitions included. */
  lemma {:induction false} NonEmptyAppend(a: seq<string>, b: seq<string>)
    ensures NonEmpty(a + b) == NonEmpty(a) + NonEmpty(b)
  {
    if a != [] {
      assert (a + b)[0] == a[0];
      assert (a + b)[1..] == a[1..] + b;
      NonEmptyAppend(a[1..], b);
    } else {
      assert a + b == b;
    }
  }

  /** Dropping empty strings from a list that has none changes nothing. */
  lemma {:induction false} NonEmptyNoop(ws: seq<string>)
    requires forall w :: w in ws ==> w != ""
    ensures NonEmpty(ws) == ws
  {
    if ws != [] {
      assert ws[0] in ws;
      assert forall w :: w in ws[1..] ==> w in ws;
      NonEmptyNoop(ws[1..]);
      assert [ws[0]] + ws[1..] == ws;
    }
  }

  /** QString::split('\n', QString::SkipEmptyParts). */
  function Lines(text: string): (r: seq<string>)
    ensures forall l :: l in r ==> l != "" && '\n' !in l
    ensures '\n' !in text ==> r == (if text == "" then [] else [text])
  {
    if '\n' in text then NonEmpty(Split(text, '\n'))
    else
      SplitNoSeparator(text, '\n');
      NonEmpty(Split(text, '\n'))
  }

  /** A newline separates lines: the lines of the text before it, then those after it.
      With the newline-free case this fixes Lines on every text. */
  lemma LinesAppend(a: string, b: string)
    ensures Lines(a + "\n" + b) == Lines(a) + Lines(b)
  {
    SplitAppend(a, '\n', b);
    NonEmptyAppend(Split(a, '\n'), Split(b, '\n'));
  }

  /** The reply classification of onUpdateReply. The body must hold at least two
      non-empty lines: the code reads the first two without checking. */
  function ClassifyUpdateReply(reply: Reply): (r: UpdateResult)
    requires reply.Body? ==> |Lines(reply.text)| >= 2
    ensures IsError(r) <==> reply.NetworkError? || Lines(reply.text)[0] != "OK"
    ensures r.Failed? <==> reply.NetworkError?
    ensures reply.Body? ==> !r.Failed? && (r.ServerError? ==> r.message == Lines(reply.text)[1])
    ensures r.NewVersion? ==> r.version == Lines(reply.text)[1] && r.version != "NO"
    ensures reply.Body? && Lines(reply.text)[0] == "OK" ==>
      r == (if Lines(reply.text)[1] == "NO" then UpToDate else NewVersion(Lines(reply.text)[1]))
  {
    match reply
    case NetworkError(e) => Failed(e)
    case Body(text) =>
      var res := Lines(text);
      if res[0] == "OK" then
        if res[1] == "NO" then UpToDate else NewVersion(res[1])
      else ServerError(res[1])
  }

  /** A body written line by line, with no empty line, splits back into those lines. */
  lemma LinesOfJoin(ls: seq<string>)
    requires |ls| >= 1
    requires forall l :: l in ls ==> l != "" && '\n' !in l
    ensures Lines(Join(ls, "\n")) == ls
  {
    SplitJoin(ls, '\n');
    NonEmptyNoop(ls);
  }

  /** A server announcing version v: "OK", then v, in any reply laid out line by line
      (blank lines anywhere are skipped), is read as that new version. */
  lemma NewVersionAnnounced(v: string, blanks: nat)
    requires v != "" && v != "NO" && '\n' !in v
    ensures Lines("OK\n" + v + Newlines(blanks)) == ["OK", v]
    ensures ClassifyUpdateReply(Body("OK\n" + v + Newlines(blanks))) == NewVersion(v)
  {
    var text := "OK\n" + v + Newlines(blanks);
    TrailingBlankLines(["OK", v], blanks);
    assert Join(["OK", v], "\n") == "OK\n" + v;
  }

  /** n newline characters. */
  function Newlines(n: nat): (r: string)
    ensures |r| == n && forall i :: 0 <= i < n ==> r[i] == '\n'
  {
    seq(n, i => '\n')
  }

  /** Blank lines at the end of a reply are skipped. */
  lemma {:induction false} TrailingBlankLines(ls: seq<string>, n: nat)
    requires |ls| >= 1
    requires forall l :: l in ls ==> l != "" && '\n' !in l
    ensures Lines(Join(ls, "\n") + Newlines(n)) == ls
  {
    if n == 0 {
      assert Join(ls, "\n") + Newlines(0) == Join(ls, "\n");
      LinesOfJoin(ls);
    } else {
      var ws := ls + Blanks(n);
      BlanksJoin(ls, n);
      SplitJoin(ws, '\n');
      NonEmptyBlanks(ls, n);
    }
  }

  /** n empty strings. */
  function Blanks(n: nat): (r: seq<string>)
    ensures |r| == n && forall i :: 0 <= i < n ==> r[i] == ""
  {
    seq(n, i => "")
  }

  lemma {:induction false} BlanksJoin(ls: seq<string>, n: nat)
    requires |ls| >= 1
    ensures Join(ls + Blanks(n), "\n") == Join(ls, "\n") + Newlines(n)
  {
    if n == 0 {
      assert ls + Blanks(0) == ls;
    } else {
      BlanksJoin(ls, n - 1);
      assert ls + Blanks(n) == (ls + Blanks(n - 1)) + [""];
      JoinSnoc(ls + Blanks(n - 1), "", "\n");
      assert Newlines(n) == Newlines(n - 1) + "\n";
    }
  }

  lemma {:induction false} NonEmptyBlanks(ls: seq<string>, n: nat)
    requires forall l :: l in ls ==> l != ""
    ensures NonEmpty(ls + Blanks(n)) == ls
  {
    if ls == [] {
      BlanksDropped(n);
      assert ls + Blanks(n) == Blanks(n);
    } else {
      assert ls[0] in ls;
      assert (ls + Blanks(n))[0] == ls[0];
      assert (ls + Blanks(n))[1..] == ls[1..] + Blanks(n);
      assert forall l :: l in ls[1..] ==> l in ls;
      NonEmptyBlanks(ls[1..], n);
      assert [ls[0]] + ls[1..] == ls;
    }
  }

  lemma {:induction false} BlanksDropped(n: nat)
    ensures NonEmpty(Blanks(n)) == []
  {
    if n > 0 {
      assert Blanks(n)[1..] == Blanks(n - 1);
      BlanksDropped(n - 1);
    }
  }

  // ---------------------------------------------------------------------------
  // _lookForRequiredImageFormats

  /** The foreach of _lookForRequiredImageFormats: false at the first format missing
      from `supported`, true when none is. */
  function AllSupported(formats: seq<string>, supported: seq<string>): (r: bool)
    ensures r <==> forall f :: f in formats ==> f in supported
  {
    if formats == [] then true
    else if formats[0] !in supported then false
    else AllSupported(formats[1..], supported)
  }

  /** MainWindow::_lookForRequiredImageFormats over the reader's format list. */
  function HasRequiredImageFormats(supported: seq<string>): (r: bool)
    ensures r <==> "ico" in supported && "png" in supported
  {
    AllSupported(["ico", "png"], supported)
  }
}
