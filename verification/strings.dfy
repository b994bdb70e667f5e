/**
 * The handful of QString operations the settings store and the main window
 * rely on, written out on `seq<char>`: splitting on a separator with empty
 * parts kept, joining with a separator, removing spaces, ASCII upper-casing,
 * suffix tests and the file-name suffix that QFileInfo reports.
 */
module Strings {

  /** QString::split(sep) with empty parts kept: "a  b" gives ["a", "", "b"]. */
  function Split(s: string, sep: char): (r: seq<string>)
    ensures |r| >= 1
    ensures forall w :: w in r ==> sep !in w
  {
    if |s| == 0 then [""]
    else
      var rest := Split(s[1..], sep);
      if s[0] == sep then [""] + rest
      else [[s[0]] + rest[0]] + rest[1..]
  }

  /** QStringList::join(sep): the words in order, the separator between neighbours. */
  function Join(ws: seq<string>, sep: string): (r: string)
    ensures ws == [] ==> r == ""
    ensures ws != [] ==> ws[0] <= r
    ensures |ws| >= 2 ==> ws[0] + sep <= r
  {
    if |ws| == 0 then ""
    else if |ws| == 1 then ws[0]
    else ws[0] + sep + Join(ws[1..], sep)
  }

  /** Joining a list of at least two words puts the separator after the first. */
  lemma JoinCons(ws: seq<string>, sep: string)
    requires |ws| >= 1
    ensures Join(ws, sep) == if |ws| == 1 then ws[0] else ws[0] + sep + Join(ws[1..], sep)
  {
  }

  /** Appending a word to a non-empty list appends the separator and the word. */
  lemma {:induction false} JoinSnoc(ws: seq<string>, w: string, sep: string)
    requires |ws| >= 1
    ensures Join(ws + [w], sep) == Join(ws, sep) + sep + w
  {
    var vs := ws + [w];
    assert vs[0] == ws[0] && vs[1..] == ws[1..] + [w];
    if |ws| > 1 {
      JoinSnoc(ws[1..], w, sep);
    }
  }

  /** A word free of the separator, followed by the separator, is split off whole. */
  lemma {:induction false} SplitAfterWord(w: string, sep: char, t: string)
    requires sep !in w
    ensures Split(w + [sep] + t, sep) == [w] + Split(t, sep)
  {
    var s := w + [sep] + t;
    if w == [] {
      assert s[1..] == t;
    } else {
      assert s[1..] == w[1..] + [sep] + t;
      SplitAfterWord(w[1..], sep, t);
      assert [w[0]] + w[1..] == w;
    }
  }

  /** A string free of the separator splits into itself alone. */
  lemma {:induction false} SplitNoSeparator(w: string, sep: char)
    requires sep !in w
    ensures Split(w, sep) == [w]
  {
    if w != [] {
      SplitNoSeparator(w[1..], sep);
      assert [w[0]] + w[1..] == w;
    }
  }

  /** A separator between two strings splits them apart: the parts of the first, then
      the parts of the second. */
  lemma {:induction false} SplitAppend(a: string, sep: char, b: string)
    ensures Split(a + [sep] + b, sep) == Split(a, sep) + Split(b, sep)
  {
    var s := a + [sep] + b;
    if a == [] {
      assert s[1..] == b;
    } else {
      assert s[1..] == a[1..] + [sep] + b;
      SplitAppend(a[1..], sep, b);
    }
  }

  /** Splitting undoes joining, when no word holds the separator. */
  lemma {:induction false} SplitJoin(ws: seq<string>, sep: char)
    requires |ws| >= 1
    requires forall w :: w in ws ==> sep !in w
    ensures Split(Join(ws, [sep]), sep) == ws
  {
    if |ws| == 1 {
      SplitNoSeparator(ws[0], sep);
    } else {
      SplitJoin(ws[1..], sep);
      SplitAfterWord(ws[0], sep, Join(ws[1..], [sep]));
      assert ws[0] + [sep] + Join(ws[1..], [sep]) == Join(ws, [sep]);
      assert [ws[0]] + ws[1..] == ws;
    }
  }

  /** Joining undoes splitting. */
  lemma {:induction false} JoinSplit(s: string, sep: char)
    ensures Join(Split(s, sep), [sep]) == s
  {
    if |s| > 0 {
      var rest := Split(s[1..], sep);
      JoinSplit(s[1..], sep);
      JoinCons(rest, [sep]);
      if s[0] == sep {
        JoinCons([""] + rest, [sep]);
        assert ([""] + rest)[1..] == rest;
        assert [sep] + s[1..] == s;
      } else {
        var ws := [[s[0]] + rest[0]] + rest[1..];
        JoinCons(ws, [sep]);
        assert ws[1..] == rest[1..];
        assert [s[0]] + s[1..] == s;
      }
    }
  }

  /** QString::replace(' ', "") : the string with every space removed. */
  function RemoveSpaces(s: string): (r: string)
    ensures ' ' !in r
    ensures |r| <= |s|
  {
    if |s| == 0 then ""
    else if s[0] == ' ' then RemoveSpaces(s[1..])
    else [s[0]] + RemoveSpaces(s[1..])
  }

  /** Removing spaces from a string that has none changes nothing. */
  lemma {:induction false} RemoveSpacesNoop(s: string)
    requires ' ' !in s
    ensures RemoveSpaces(s) == s
  {
    if |s| > 0 {
      RemoveSpacesNoop(s[1..]);
      assert [s[0]] + s[1..] == s;
    }
  }

  /** Removing spaces is idempotent. */
  lemma RemoveSpacesIdempotent(s: string)
    ensures RemoveSpaces(RemoveSpaces(s)) == RemoveSpaces(s)
  {
    RemoveSpacesNoop(RemoveSpaces(s));
  }

  /** Removing spaces keeps every other character, in order. */
  lemma {:induction false} RemoveSpacesKeeps(a: string, b: string)
    requires ' ' !in a
    ensures RemoveSpaces(a + " " + b) == a + RemoveSpaces(b)
  {
    if |a| == 0 {
      assert (a + " " + b)[1..] == b;
    } else {
      assert (a + " " + b)[1..] == a[1..] + " " + b;
      RemoveSpacesKeeps(a[1..], b);
      assert [a[0]] + (a[1..] + RemoveSpaces(b)) == a + RemoveSpaces(b);
    }
  }

  /** QChar::toUpper, restricted to the ASCII letters. */
  function Upper(c: char): (u: char)
    ensures ('a' <= c <= 'z') ==> ('A' <= u <= 'Z' && u as int == c as int - 32)
    ensures !('a' <= c <= 'z') ==> u == c
  {
    if 'a' <= c <= 'z' then (c as int - 32) as char else c
  }

  /** QString::toUpper, character by character. */
  function ToUpper(s: string): (r: string)
    ensures |r| == |s|
    ensures forall i :: 0 <= i < |s| ==> r[i] == Upper(s[i])
  {
    seq(|s|, i requires 0 <= i < |s| => Upper(s[i]))
  }

  /** QString::endsWith. */
  predicate EndsWith(s: string, suffix: string)
  {
    |suffix| <= |s| && s[|s| - |suffix|..] == suffix
  }

  /** QString::lastIndexOf(c): the last position holding c, or -1. */
  function LastIndexOf(s: string, c: char): (r: int)
    ensures -1 <= r < |s|
    ensures r >= 0 ==> s[r] == c
    ensures forall i :: r < i < |s| ==> s[i] != c
  {
    if |s| == 0 then -1
    else if s[|s| - 1] == c then |s| - 1
    else LastIndexOf(s[..|s| - 1], c)
  }

  /** The last occurrence is fixed by the two facts LastIndexOf promises. */
  lemma LastIndexOfUnique(s: string, c: char, k: int)
    requires -1 <= k < |s|
    requires k >= 0 ==> s[k] == c
    requires forall i :: k < i < |s| ==> s[i] != c
    ensures LastIndexOf(s, c) == k
  {
  }

  /** QString::indexOf(c): the first position holding c, or -1. */
  function IndexOf(s: string, c: char): (r: int)
    ensures -1 <= r < |s|
    ensures r >= 0 ==> s[r] == c
    ensures forall i :: 0 <= i < |s| && (r < 0 || i < r) ==> s[i] != c
  {
    if |s| == 0 then -1
    else if s[0] == c then 0
    else
      var k := IndexOf(s[1..], c);
      if k < 0 then -1 else k + 1
  }

  /** The first separator after a separator-free word is the one right after it. */
  lemma IndexOfAfterWord(a: string, c: char, b: string)
    requires c !in a
    ensures IndexOf(a + [c] + b, c) == |a|
  {
    var s := a + [c] + b;
    assert s[|a|] == c;
    assert forall i :: 0 <= i < |a| ==> s[i] == a[i];
  }

  /** QFileInfo::fileName: the part of a path after its last '/'. */
  function FileName(path: string): (n: string)
    ensures '/' !in n
    ensures |n| <= |path| && path[|path| - |n|..] == n
  {
    path[LastIndexOf(path, '/') + 1..]
  }

  /** QFileInfo::suffix: the text after the last '.' of the file name, or "". */
  function Suffix(path: string): (x: string)
    ensures '.' !in x && '/' !in x
  {
    var n := FileName(path);
    var d := LastIndexOf(n, '.');
    if d < 0 then "" else n[d + 1..]
  }

  /** A tail free of '/' stays inside the file name. */
  lemma FileNameOfAppended(path: string, tail: string)
    requires '/' !in tail
    ensures FileName(path + tail) == FileName(path) + tail
  {
    var p := path + tail;
    var slash := LastIndexOf(path, '/');
    forall i | slash < i < |p| ensures p[i] != '/' {
      if i < |path| { assert p[i] == path[i]; }
      else { assert p[i] == tail[i - |path|]; }
    }
    LastIndexOfUnique(p, '/', slash);
    assert p[slash + 1..] == path[slash + 1..] + tail;
  }

  /** In a word, a dot and a dot-free tail, the last dot is the one after the word. */
  lemma LastDotAfterWord(n: string, w: string, ext: string)
    requires '.' !in ext && n == w + "." + ext
    ensures LastIndexOf(n, '.') == |w|
    ensures n[|w| + 1..] == ext
  {
    assert n[|w|] == '.';
    assert forall i :: |w| < i < |n| ==> n[i] == ext[i - |w| - 1];
    LastIndexOfUnique(n, '.', |w|);
  }

  /** Appending "." + ext to any path makes ext its suffix. */
  lemma SuffixOfAppended(path: string, ext: string)
    requires '.' !in ext && '/' !in ext
    ensures Suffix(path + "." + ext) == ext
  {
    FileNameOfAppended(path, "." + ext);
    assert path + "." + ext == path + ("." + ext);
    assert FileName(path) + ("." + ext) == FileName(path) + "." + ext;
    LastDotAfterWord(FileName(path) + "." + ext, FileName(path), ext);
  }
}
