/**
 * The desktop-entry file FS::createShortCut writes on Linux: where it goes
 * and the text it holds.
 */
module Shortcut {
  import Paths

  /** QStringList::join: the parts with `sep` between neighbours. */
  function Join(parts: seq<string>, sep: string): string
  {
    if |parts| == 0 then ""
    else if |parts| == 1 then parts[0]
    else parts[0] + sep + Join(parts[1..], sep)
  }

  /** The argument suffix of the Exec line: empty, or every argument single-quoted. */
  function ArgString(args: seq<string>): string
  {
    if |args| == 0 then "" else " '" + Join(args, "' '") + "'"
  }

  /** Reference definition: each argument on its own becomes  '<arg>'. */
  function QuotedEach(args: seq<string>): string
  {
    if |args| == 0 then "" else " '" + args[0] + "'" + QuotedEach(args[1..])
  }

  lemma {:induction false} ArgStringQuotesEach(args: seq<string>)
    ensures ArgString(args) == QuotedEach(args)
  {
    if |args| >= 2 {
      ArgStringQuotesEach(args[1..]);
      var rest := Join(args[1..], "' '");
      calc {
        ArgString(args);
        " '" + (args[0] + "' '" + rest) + "'";
        { assert " '" + (args[0] + "' '" + rest) + "'" == (" '" + args[0] + "'") + (" '" + rest + "'"); }
        (" '" + args[0] + "'") + ArgString(args[1..]);
        QuotedEach(args);
      }
    }
  }

  /** The six lines of the file, in order. */
  function DesktopEntryLines(dest: string, args: seq<string>, name: string, icon: string): seq<string>
  {
    [ "[Desktop Entry]",
      "Type=Application",
      "TryExec=" + dest,
      "Exec=" + dest + ArgString(args),
      "Name=" + name,
      "Icon=" + icon ]
  }

  /** Lines written one after another, each ending in a newline. */
  function Unlines(lines: seq<string>): string
  {
    if |lines| == 0 then "" else lines[0] + "\n" + Unlines(lines[1..])
  }

  /** The length of the first line (the whole string when there is no newline). */
  function LineLength(s: string): (n: nat)
    ensures n <= |s|
    ensures forall j :: 0 <= j < n ==> s[j] != '\n'
    ensures n < |s| ==> s[n] == '\n'
  {
    if s == [] || s[0] == '\n' then 0 else 1 + LineLength(s[1..])
  }

  /** Text made of at least one line ends in a newline. */
  lemma {:induction false} UnlinesEndsInNewline(lines: seq<string>)
    requires |lines| > 0
    ensures var text := Unlines(lines); |text| > 0 && text[|text| - 1] == '\n'
  {
    if |lines| > 1 {
      UnlinesEndsInNewline(lines[1..]);
    }
  }

  /** Reading a text back as lines; a final line need not end in a newline. */
  function SplitLines(s: string): seq<string>
    decreases |s|
  {
    if s == [] then []
    else
      var n := LineLength(s);
      if n == |s| then [s] else [s[..n]] + SplitLines(s[n + 1..])
  }

  lemma FirstLineLength(first: string, rest: string)
    requires '\n' !in first
    ensures LineLength(first + "\n" + rest) == |first|
  {
    var s := first + "\n" + rest;
    var n := LineLength(s);
    assert s[|first|] == '\n';
    assert forall j :: 0 <= j < |first| ==> s[j] == first[j];
  }

  /** Lines without a newline of their own read back as exactly those lines. */
  lemma {:induction false} SplitUnlines(lines: seq<string>)
    requires forall i :: 0 <= i < |lines| ==> '\n' !in lines[i]
    ensures SplitLines(Unlines(lines)) == lines
  {
    if |lines| > 0 {
      var s := Unlines(lines);
      var first, rest := lines[0], Unlines(lines[1..]);
      assert s == first + "\n" + rest;
      FirstLineLength(first, rest);
      assert s[..|first|] == first;
      assert s[|first| + 1..] == rest;
      SplitUnlines(lines[1..]);
    }
  }

  lemma {:induction false} JoinHasNoNewline(parts: seq<string>, sep: string)
    requires '\n' !in sep
    requires forall i :: 0 <= i < |parts| ==> '\n' !in parts[i]
    ensures '\n' !in Join(parts, sep)
  {
    if |parts| >= 2 {
      JoinHasNoNewline(parts[1..], sep);
    }
  }

  /** The file createShortCut writes: its path and its text. */
  datatype DesktopFile = DesktopFile(path: string, text: string)

  /**
   * createShortCut on Linux: the file is location/<name>.desktop and the
   * answer is true whether or not the file could be written.
   */
  function CreateShortCut(clean: Paths.Cleaner, location: string, dest: string, args: seq<string>,
                          name: string, icon: string): (r: (bool, DesktopFile))
    ensures r.0
    ensures r.1.path == Paths.PathCombine(clean, location, name + ".desktop")
  {
    (true, DesktopFile(Paths.PathCombine(clean, location, name + ".desktop"),
                       Unlines(DesktopEntryLines(dest, args, name, icon))))
  }

  /** No line of the file holds a newline when no field does. */
  lemma DesktopEntryLinesHaveNoNewline(dest: string, args: seq<string>, name: string, icon: string)
    requires '\n' !in dest && '\n' !in name && '\n' !in icon
    requires forall i :: 0 <= i < |args| ==> '\n' !in args[i]
    ensures forall i :: 0 <= i < 6 ==> '\n' !in DesktopEntryLines(dest, args, name, icon)[i]
  {
    JoinHasNoNewline(args, "' '");
  }

  /**
   * When no field holds a newline, the file reads back as exactly its six
   * lines, and the Exec line single-quotes each argument on its own.
   */
  lemma DesktopEntryReadsBack(clean: Paths.Cleaner, location: string, dest: string, args: seq<string>,
                              name: string, icon: string)
    requires '\n' !in dest && '\n' !in name && '\n' !in icon
    requires forall i :: 0 <= i < |args| ==> '\n' !in args[i]
    ensures var text := CreateShortCut(clean, location, dest, args, name, icon).1.text;
      var lines := SplitLines(text);
      && lines == DesktopEntryLines(dest, args, name, icon)
      && lines[3] == "Exec=" + dest + QuotedEach(args)
      && |text| > 0 && text[|text| - 1] == '\n'
  {
    UnlinesEndsInNewline(DesktopEntryLines(dest, args, name, icon));
    DesktopEntryLinesHaveNoNewline(dest, args, name, icon);
    SplitUnlines(DesktopEntryLines(dest, args, name, icon));
    ArgStringQuotesEach(args);
  }
}
