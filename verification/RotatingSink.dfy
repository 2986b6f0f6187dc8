/** The size-based rotating file sink over a map of files. */
module RotatingSink {
  import opened Decimal

  // ---- Names ----

  /** The last position of a character of cs in s, or -1. */
  function FindLastOf(s: string, cs: string): (r: int)
    ensures -1 <= r < |s| && (r >= 0 ==> s[r] in cs)
    ensures forall k :: r < k < |s| ==> s[k] !in cs
  {
    if s == "" then -1
    else if s[|s| - 1] in cs then |s| - 1
    else FindLastOf(s[..|s| - 1], cs)
  }

  /** Splits off the extension; seps are the folder separators of the platform. */
  function SplitByExtension(fname: string, seps: string): (r: (string, string))
    ensures r.0 + r.1 == fname
    ensures r.1 != "" ==> |r.1| > 1 && r.1[0] == '.' && '.' !in r.1[1..] && r.0 != ""
  {
    var ext := FindLastOf(fname, ".");
    if ext == -1 || ext == 0 || ext == |fname| - 1 then (fname, "")
    else if FindLastOf(fname, seps) >= ext - 1 then (fname, "")
    else (fname[..ext], fname[ext..])
  }

  /** The name is a stem and an extension: the last dot is not the first character of the file, something follows
      it, and no folder separator does. */
  predicate HasExtension(fname: string, seps: string, stem: string, ext: string) {
    && fname == stem + "." + ext
    && stem != "" && stem[|stem| - 1] !in seps
    && ext != "" && '.' !in ext && '.' !in seps && forall k :: 0 <= k < |ext| ==> ext[k] !in seps
  }

  lemma {:induction false} LastOf(s: string, cs: string, r: int)
    requires -1 <= r < |s| && (r >= 0 ==> s[r] in cs) && forall k :: r < k < |s| ==> s[k] !in cs
    ensures FindLastOf(s, cs) == r
  {
    if r < |s| - 1 { LastOf(s[..|s| - 1], cs, r); }
  }

  lemma ExtensionParts(fname: string, seps: string, stem: string, ext: string)
    requires HasExtension(fname, seps, stem, ext)
    ensures FindLastOf(fname, ".") == |stem| && FindLastOf(fname, seps) < |stem| - 1
    ensures |fname| == |stem| + 1 + |ext| && fname[..|stem|] == stem && fname[|stem|..] == "." + ext
  {
    hide FindLastOf;
    var n := |stem|;
    assert fname[n] == '.' && fname[n - 1] == stem[n - 1];
    assert forall k :: n < k < |fname| ==> fname[k] == ext[k - n - 1];
    LastOf(fname, ".", n);
  }

  /** A name is split exactly if it has an extension, and then in front of the last dot. */
  lemma SplitExactly(fname: string, seps: string)
    ensures forall stem, ext :: HasExtension(fname, seps, stem, ext) ==>
              SplitByExtension(fname, seps) == (stem, "." + ext)
    ensures (forall stem, ext :: !HasExtension(fname, seps, stem, ext)) ==> SplitByExtension(fname, seps) == (fname, "")
  {
    hide FindLastOf, HasExtension;
    forall stem, ext | HasExtension(fname, seps, stem, ext)
      ensures SplitByExtension(fname, seps) == (stem, "." + ext)
    {
      ExtensionParts(fname, seps, stem, ext);
      NotEmpty(fname, seps, stem, ext);
    }
    if SplitByExtension(fname, seps).1 != "" {
      var n := FindLastOf(fname, ".");
      SplitHasExtension(fname, seps, n);
    }
  }

  lemma NotEmpty(fname: string, seps: string, stem: string, ext: string)
    requires HasExtension(fname, seps, stem, ext)
    ensures stem != "" && ext != ""
  {}

  lemma SplitHasExtension(fname: string, seps: string, n: int)
    requires n == FindLastOf(fname, ".") && 0 < n < |fname| - 1 && FindLastOf(fname, seps) < n - 1
    ensures HasExtension(fname, seps, fname[..n], fname[n + 1..])
  {
    hide FindLastOf;
    assert fname == fname[..n] + "." + fname[n + 1..];
    assert '.' == fname[n];
  }

  /** The name of the i-th file back. */
  function Name(base: string, seps: string, i: nat): string {
    if i == 0 then base
    else
      var (stem, ext) := SplitByExtension(base, seps);
      stem + "." + DecimalString(i) + ext
  }

  /** The number goes in front of the extension if there is one, and else to the end. */
  lemma NameExactly(base: string, seps: string, i: nat)
    requires i > 0
    ensures Name(base, seps, 0) == base
    ensures forall stem, ext :: HasExtension(base, seps, stem, ext) ==>
              Name(base, seps, i) == stem + "." + DecimalString(i) + "." + ext
    ensures (forall stem, ext :: !HasExtension(base, seps, stem, ext)) ==>
              Name(base, seps, i) == base + "." + DecimalString(i)
  {
    hide SplitByExtension, HasExtension, DecimalString;
    SplitExactly(base, seps);
    var d := "." + DecimalString(i);
    forall stem, ext | HasExtension(base, seps, stem, ext)
      ensures Name(base, seps, i) == stem + "." + DecimalString(i) + "." + ext
    {
      assert SplitByExtension(base, seps) == (stem, "." + ext);
      assert (stem + "." + DecimalString(i)) + ("." + ext) == stem + "." + DecimalString(i) + "." + ext;
    }
    assert base + "." + DecimalString(i) + "" == base + "." + DecimalString(i);
  }

  lemma DecimalStringInjective(i: nat, j: nat)
    requires DecimalString(i) == DecimalString(j)
    ensures i == j
  {
    DecimalStringDenotes(i);
    DecimalStringDenotes(j);
  }

  lemma MiddleUnique(a: string, x: string, y: string, b: string)
    requires a + x + b == a + y + b
    ensures x == y
  {
    var s := a + x + b;
    assert s[|a|..|s| - |b|] == x;
    assert s[|a|..|s| - |b|] == y;
  }

  /** Files of different age have different names. */
  lemma NamesDistinct(base: string, seps: string, i: nat, j: nat)
    requires i != j
    ensures Name(base, seps, i) != Name(base, seps, j)
  {
    hide SplitByExtension, DecimalString;
    var (stem, ext) := SplitByExtension(base, seps);
    if i > 0 && j > 0 && Name(base, seps, i) == Name(base, seps, j) {
      MiddleUnique(stem + ".", DecimalString(i), DecimalString(j), ext);
      DecimalStringInjective(i, j);
    }
  }

  // ---- What a rotation does to the files ----

  type Files = map<string, string>

  /** A family of files: the one written to and the older ones, up to max. */
  datatype Config = Config(base: string, seps: string, maxSize: nat, maxFiles: nat) {
    function At(i: nat): string { Name(base, seps, i) }
  }

  function Content(fs: Files, name: string): string { if name in fs then fs[name] else "" }

  function Moved(fs: Files, src: string, target: string): Files
    requires src in fs
  {
    (fs - {src})[target := fs[src]]
  }

  /** Every file from i - 1 down moves one up; a file that does not exist is passed over. */
  function Shifted(c: Config, fs: Files, i: nat): Files
    decreases i
  {
    if i == 0 then fs
    else Shifted(c, if c.At(i - 1) in fs then Moved(fs, c.At(i - 1), c.At(i)) else fs, i - 1)
  }

  function Rotated(c: Config, fs: Files): Files {
    Shifted(c, fs, c.maxFiles)[c.base := ""]
  }

  /** What the files up to i hold, oldest first. */
  function History(c: Config, fs: Files, i: nat): string {
    Content(fs, c.At(i)) + if i == 0 then "" else History(c, fs, i - 1)
  }

  /** Names above i and names outside the family are not touched. */
  lemma {:induction false} ShiftedFrame(c: Config, fs: Files, i: nat, name: string)
    requires forall k :: 0 <= k <= i ==> name != c.At(k)
    ensures name in Shifted(c, fs, i) <==> name in fs
    ensures Content(Shifted(c, fs, i), name) == Content(fs, name)
    decreases i
  {
    hide Name;
    if i > 0 {
      ShiftedFrame(c, if c.At(i - 1) in fs then Moved(fs, c.At(i - 1), c.At(i)) else fs, i - 1, name);
    }
  }

  /** Where every file of the family ends up: one place up, the last one only if something takes its place. */
  lemma {:induction false} ShiftedFile(c: Config, fs: Files, i: nat, j: nat)
    ensures var fs', source := Shifted(c, fs, i), if 0 < j < i || (0 < j == i && c.At(j - 1) in fs) then j - 1 else j;
            && Content(fs', c.At(j)) == (if j == 0 < i then "" else Content(fs, c.At(source)))
            && (c.At(j) in fs' <==> !(j == 0 < i) && c.At(source) in fs)
    decreases i
  {
    hide Name, Moved;
    if i > 0 {
      var fs1 := if c.At(i - 1) in fs then Moved(fs, c.At(i - 1), c.At(i)) else fs;
      ShiftedFile(c, fs1, i - 1, j);
      if c.At(i - 1) in fs {
        MovedFile(c, fs, i, j);
        if j > 0 { MovedFile(c, fs, i, j - 1); }
      }
    }
  }

  lemma MovedFile(c: Config, fs: Files, i: nat, j: nat)
    requires i > 0 && c.At(i - 1) in fs
    ensures var fs' := Moved(fs, c.At(i - 1), c.At(i));
            && (c.At(j) in fs' <==> j == i || (j != i - 1 && c.At(j) in fs))
            && Content(fs', c.At(j)) ==
                 (if j == i then Content(fs, c.At(i - 1)) else if j == i - 1 then "" else Content(fs, c.At(j)))
  {
    hide Name;
    NamesDistinct(c.base, c.seps, i, i - 1);
    if j != i { NamesDistinct(c.base, c.seps, i, j); }
    if j != i - 1 { NamesDistinct(c.base, c.seps, i - 1, j); }
  }

  /** Files one place up hold the history of one place down. */
  lemma {:induction false} HistoryUp(c: Config, fs: Files, fs': Files, j: nat)
    requires Content(fs', c.At(0)) == "" && forall k :: 0 < k <= j ==> Content(fs', c.At(k)) == Content(fs, c.At(k - 1))
    ensures History(c, fs', j) == if j == 0 then "" else History(c, fs, j - 1)
  {
    hide Name, Content;
    if j > 0 { HistoryUp(c, fs, fs', j - 1); }
    if j == 1 { assert Content(fs', c.At(1)) + "" == Content(fs', c.At(1)); }
  }

  /** What a rotation gives up: the oldest file, when something takes its place. */
  function Dropped(c: Config, fs: Files): string {
    if c.maxFiles == 0 || c.At(c.maxFiles - 1) in fs then Content(fs, c.At(c.maxFiles)) else ""
  }

  lemma RotatedFile(c: Config, fs: Files, k: nat)
    ensures k > 0 ==> Content(Rotated(c, fs), c.At(k)) == Content(Shifted(c, fs, c.maxFiles), c.At(k))
    ensures Content(Rotated(c, fs), c.At(0)) == "" && c.At(0) == c.base
  {
    hide SplitByExtension, Shifted;
    if k > 0 { NamesDistinct(c.base, c.seps, 0, k); }
  }

  lemma RotatedContent(c: Config, fs: Files, k: nat)
    requires k <= c.maxFiles
    ensures Content(Rotated(c, fs), c.At(k)) ==
              if k == 0 then ""
              else if k < c.maxFiles || c.At(k - 1) in fs then Content(fs, c.At(k - 1))
              else Content(fs, c.At(k))
  {
    hide Name, Shifted, Content, Rotated;
    RotatedFile(c, fs, k);
    ShiftedFile(c, fs, c.maxFiles, k);
  }

  lemma RotatedBelow(c: Config, fs: Files, j: nat)
    requires j <= c.maxFiles && (j == c.maxFiles && j > 0 ==> c.At(j - 1) in fs)
    ensures History(c, Rotated(c, fs), j) == if j == 0 then "" else History(c, fs, j - 1)
  {
    hide Name, Shifted, Content, Rotated, History;
    RotatedContent(c, fs, 0);
    forall k | 0 < k <= j ensures Content(Rotated(c, fs), c.At(k)) == Content(fs, c.At(k - 1)) {
      RotatedContent(c, fs, k);
    }
    HistoryUp(c, fs, Rotated(c, fs), j);
  }

  /** What the files up to j hold after a rotation. */
  lemma RotatedUpTo(c: Config, fs: Files, j: nat)
    requires j <= c.maxFiles && c.base in fs
    ensures History(c, Rotated(c, fs), j) ==
              if j == 0 then ""
              else if j < c.maxFiles || c.At(j - 1) in fs then History(c, fs, j - 1)
              else History(c, fs, j)
  {
    hide Name, Shifted, Content, Rotated;
    BaseName(c);
    if j < c.maxFiles || j == 0 || c.At(j - 1) in fs {
      hide History;
      RotatedBelow(c, fs, j);
    } else {
      RotatedContent(c, fs, j);
      RotatedBelow(c, fs, j - 1);
      ContentAbsent(fs, c.At(j - 1));
      assert History(c, fs, j - 1) == "" + History(c, fs, j - 2);
    }
  }

  lemma ContentAbsent(fs: Files, name: string)
    requires name !in fs
    ensures Content(fs, name) == ""
  {}

  /** A rotation empties the base file and loses the dropped file, nothing else. */
  lemma RotatedHistory(c: Config, fs: Files)
    requires c.base in fs
    ensures History(c, fs, c.maxFiles) == Dropped(c, fs) + History(c, Rotated(c, fs), c.maxFiles)
    ensures Content(Rotated(c, fs), c.base) == ""
  {
    hide Name, Shifted, Content, Rotated;
    RotatedFile(c, fs, 0);
    RotatedUpTo(c, fs, c.maxFiles);
  }

  lemma BaseName(c: Config)
    ensures c.At(0) == c.base
  {}

  // ---- The sink ----

  /** The files and the size counter. */
  datatype State = State(fs: Files, size: nat)

  function Append(fs: Files, name: string, text: string): Files { fs[name := Content(fs, name) + text] }

  /** Opening for appending creates the file; the counter keeps the old size even when a rotation follows. */
  function Opened(c: Config, fs: Files, rotateOnOpen: bool): State {
    var fs1 := Append(fs, c.base, "");
    var size := |fs1[c.base]|;
    State(if rotateOnOpen && size > 0 then Rotated(c, fs1) else fs1, size)
  }

  predicate Rotates(c: Config, st: State, msg: string) { st.size + |msg| > c.maxSize }

  function Logged(c: Config, st: State, msg: string): State {
    if Rotates(c, st, msg) then State(Append(Rotated(c, st.fs), c.base, msg), |msg|)
    else State(Append(st.fs, c.base, msg), st.size + |msg|)
  }

  class Sink {
    const c: Config
    var fs: Files
    var currentSize: nat

    function Now(): State
      reads this
    {
      State(fs, currentSize)
    }

    constructor (c: Config, files: Files, rotateOnOpen: bool)
      ensures this.c == c && Now() == Opened(c, files, rotateOnOpen)
    {
      this.c := c;
      fs := files;
      currentSize := 0;
      new;
      Open(false);
      currentSize := |fs[c.base]|;
      if rotateOnOpen && currentSize > 0 {
        Rotate();
      }
    }

    /** Truncates the base file if asked to, and opens it for appending. */
    method Open(truncate: bool)
      modifies `fs
      ensures fs == if truncate then old(fs)[c.base := ""] else Append(old(fs), c.base, "")
    {
      if truncate {
        fs := fs[c.base := ""];
      }
      if c.base !in fs {
        fs := fs[c.base := ""];
      }
      assert Content(old(fs), c.base) + "" == Content(old(fs), c.base);
    }

    /** Removes the target, then renames; works says whether the system lets it. */
    method RenameFile(src: string, target: string, works: bool) returns (ok: bool)
      requires src in fs && src != target
      modifies `fs
      ensures ok == works && fs == if works then Moved(old(fs), src, target) else old(fs) - {target}
    {
      fs := fs - {target};
      if works {
        fs := (fs - {src})[target := fs[src]];
      }
      return works;
    }

    /** Every rename is taken to work. */
    method Rotate()
      modifies `fs
      ensures fs == Rotated(c, old(fs))
    {
      hide Name, Moved;
      var i := c.maxFiles;
      while i > 0
        invariant Shifted(c, fs, i) == Shifted(c, old(fs), c.maxFiles)
      {
        var src := c.At(i - 1);
        if src in fs {
          var target := c.At(i);
          NamesDistinct(c.base, c.seps, i - 1, i);
          var ok := RenameFile(src, target, true);
        }
        i := i - 1;
      }
      Open(true);
    }

    method SinkIt(formatted: string)
      modifies this
      ensures Now() == Logged(c, old(Now()), formatted)
    {
      currentSize := currentSize + |formatted|;
      if currentSize > c.maxSize {
        Rotate();
        currentSize := |formatted|;
      }
      fs := Append(fs, c.base, formatted);
    }
  }

  // ---- Runs ----

  function Run(c: Config, st: State, msgs: seq<string>): State
    decreases |msgs|
  {
    if msgs == [] then st else Run(c, Logged(c, st, msgs[0]), msgs[1..])
  }

  function Flat(msgs: seq<string>): string {
    if msgs == [] then "" else msgs[0] + Flat(msgs[1..])
  }

  /** What a message does to the history, exactly. */
  lemma LoggedHistory(c: Config, st: State, msg: string)
    requires c.base in st.fs
    ensures var lost := if Rotates(c, st, msg) then Dropped(c, st.fs) else "";
            var st' := Logged(c, st, msg);
            && c.base in st'.fs
            && History(c, st.fs, c.maxFiles) + msg == lost + History(c, st'.fs, c.maxFiles)
  {
    hide Name, Dropped, Rotated;
    var n := c.maxFiles;
    if Rotates(c, st, msg) {
      RotatedHistory(c, st.fs);
      AppendHistory(c, Rotated(c, st.fs), msg, n);
    } else {
      AppendHistory(c, st.fs, msg, n);
    }
  }

  lemma {:induction false} AppendHistory(c: Config, fs: Files, msg: string, n: nat)
    ensures History(c, Append(fs, c.base, msg), n) == History(c, fs, n) + msg
  {
    hide Name;
    BaseName(c);
    if n > 0 {
      NamesDistinct(c.base, c.seps, 0, n);
      AppendHistory(c, fs, msg, n - 1);
    }
  }

  lemma {:induction false} FlatAppend(a: seq<string>, b: seq<string>)
    ensures Flat(a + b) == Flat(a) + Flat(b)
  {
    if a == [] {
      assert a + b == b;
    } else {
      assert (a + b)[1..] == a[1..] + b;
      FlatAppend(a[1..], b);
    }
  }

  /** The text is an end of the parts that begins with a whole part. */
  ghost predicate EndsParts(parts: seq<string>, text: string) {
    exists k :: 0 <= k <= |parts| && text == Flat(parts[k..])
  }

  /** Wherever one file ends and the next begins, a part ends and the next begins. */
  ghost predicate Whole(c: Config, fs: Files, parts: seq<string>) {
    forall j :: 0 <= j <= c.maxFiles ==> EndsParts(parts, History(c, fs, j))
  }

  lemma EndsNothing(parts: seq<string>)
    ensures EndsParts(parts, "")
  {
    assert parts[|parts|..] == [];
  }

  lemma EndsMore(parts: seq<string>, text: string, msg: string)
    requires EndsParts(parts, text)
    ensures EndsParts(parts + [msg], text + msg)
  {
    var k :| 0 <= k <= |parts| && text == Flat(parts[k..]);
    FlatAppend(parts[k..], [msg]);
    assert (parts + [msg])[k..] == parts[k..] + [msg];
    assert Flat([msg]) == msg + "";
  }

  lemma AppendWhole(c: Config, fs: Files, parts: seq<string>, msg: string)
    requires Whole(c, fs, parts)
    ensures Whole(c, Append(fs, c.base, msg), parts + [msg])
  {
    hide History, EndsParts;
    forall j | 0 <= j <= c.maxFiles ensures EndsParts(parts + [msg], History(c, Append(fs, c.base, msg), j)) {
      AppendHistory(c, fs, msg, j);
      EndsMore(parts, History(c, fs, j), msg);
    }
  }

  lemma RotatedWhole(c: Config, fs: Files, parts: seq<string>)
    requires Whole(c, fs, parts) && c.base in fs
    ensures Whole(c, Rotated(c, fs), parts)
  {
    hide History, EndsParts, Rotated, Name;
    forall j | 0 <= j <= c.maxFiles ensures EndsParts(parts, History(c, Rotated(c, fs), j)) {
      RotatedUpTo(c, fs, j);
      EndsNothing(parts);
    }
  }

  lemma RotatedBase(c: Config, fs: Files)
    ensures c.base in Rotated(c, fs)
  {}

  lemma LoggedWhole(c: Config, st: State, parts: seq<string>, msg: string)
    requires Whole(c, st.fs, parts) && c.base in st.fs
    ensures Whole(c, Logged(c, st, msg).fs, parts + [msg]) && c.base in Logged(c, st, msg).fs
  {
    hide Whole, Rotated;
    if Rotates(c, st, msg) {
      RotatedWhole(c, st.fs, parts);
      AppendWhole(c, Rotated(c, st.fs), parts, msg);
    } else {
      AppendWhole(c, st.fs, parts, msg);
    }
  }

  lemma {:induction false} RunWhole(c: Config, st: State, parts: seq<string>, msgs: seq<string>)
    requires Whole(c, st.fs, parts) && c.base in st.fs
    ensures Whole(c, Run(c, st, msgs).fs, parts + msgs)
    decreases |msgs|
  {
    hide Whole, Logged;
    if msgs == [] {
      assert parts + msgs == parts;
    } else {
      LoggedWhole(c, st, parts, msgs[0]);
      RunWhole(c, Logged(c, st, msgs[0]), parts + [msgs[0]], msgs[1..]);
      assert (parts + [msgs[0]]) + msgs[1..] == parts + msgs;
    }
  }

  /** The files there were, oldest first. */
  function OldFiles(c: Config, files: Files, i: nat): (r: seq<string>)
    ensures |r| == i + 1
  {
    [Content(files, c.At(i))] + if i == 0 then [] else OldFiles(c, files, i - 1)
  }

  lemma {:induction false} OldFilesFlat(c: Config, files: Files, i: nat)
    ensures Flat(OldFiles(c, files, i)) == History(c, files, i)
  {
    hide Content, Name;
    if i > 0 { OldFilesFlat(c, files, i - 1); }
  }

  lemma DropFirst(x: string, rest: seq<string>, m: nat)
    requires 0 < m <= |rest| + 1
    ensures ([x] + rest)[m..] == rest[m - 1..]
  {}

  lemma {:induction false} OldFilesEnd(c: Config, files: Files, i: nat, j: nat)
    requires j <= i
    ensures OldFiles(c, files, i)[i - j..] == OldFiles(c, files, j)
  {
    hide Content, Name;
    if i > j {
      DropFirst(Content(files, c.At(i)), OldFiles(c, files, i - 1), i - j);
      OldFilesEnd(c, files, i - 1, j);
    }
  }

  lemma OldFilesWhole(c: Config, files: Files)
    ensures Whole(c, files, OldFiles(c, files, c.maxFiles))
  {
    hide History, OldFiles, Name;
    var parts := OldFiles(c, files, c.maxFiles);
    forall j | 0 <= j <= c.maxFiles ensures EndsParts(parts, History(c, files, j)) {
      OldFilesEnd(c, files, c.maxFiles, j);
      OldFilesFlat(c, files, j);
      assert parts[c.maxFiles - j..] == OldFiles(c, files, j);
    }
  }

  /** From opening on: the files, read oldest to newest, hold the last of the old files and messages, each
      whole, and every file begins with a whole one. */
  lemma FilesAreWhole(c: Config, files: Files, rotateOnOpen: bool, msgs: seq<string>)
    ensures Whole(c, Run(c, Opened(c, files, rotateOnOpen), msgs).fs, OldFiles(c, files, c.maxFiles) + msgs)
  {
    hide Whole, Rotated, Run, OldFiles, Name;
    var parts, fs1 := OldFiles(c, files, c.maxFiles), Append(files, c.base, "");
    OldFilesWhole(c, files);
    SameHistories(c, files, parts);
    if rotateOnOpen && |fs1[c.base]| > 0 {
      RotatedWhole(c, fs1, parts);
      RotatedBase(c, fs1);
    }
    RunWhole(c, Opened(c, files, rotateOnOpen), parts, msgs);
  }

  /** Creating the base file changes no history. */
  lemma SameHistories(c: Config, files: Files, parts: seq<string>)
    requires Whole(c, files, parts)
    ensures Whole(c, Append(files, c.base, ""), parts)
  {
    hide History, EndsParts, Name;
    forall j | 0 <= j <= c.maxFiles ensures EndsParts(parts, History(c, Append(files, c.base, ""), j)) {
      AppendHistory(c, files, "", j);
      assert History(c, files, j) + "" == History(c, files, j);
    }
  }

  /** With no old files: the last messages, none of them cut. */
  lemma MessagesAreWhole(c: Config, files: Files, rotateOnOpen: bool, msgs: seq<string>) returns (k: nat)
    requires forall i :: 0 <= i <= c.maxFiles ==> c.At(i) !in files
    ensures k <= |msgs|
    ensures History(c, Run(c, Opened(c, files, rotateOnOpen), msgs).fs, c.maxFiles) == Flat(msgs[k..])
  {
    hide History, Run, OldFiles, Name, Opened, Flat;
    var parts, n := OldFiles(c, files, c.maxFiles), c.maxFiles;
    FilesAreWhole(c, files, rotateOnOpen, msgs);
    var h := History(c, Run(c, Opened(c, files, rotateOnOpen), msgs).fs, n);
    assert EndsParts(parts + msgs, h);
    var m :| 0 <= m <= |parts + msgs| && h == Flat((parts + msgs)[m..]);
    OldFilesFlat(c, files, n);
    if m <= n {
      OldFilesEnd(c, files, n, n - m);
      OldFilesFlat(c, files, n - m);
      NoOldFiles(c, files, n - m);
      assert (parts + msgs)[m..] == parts[m..] + msgs;
      FlatAppend(parts[m..], msgs);
      assert "" + Flat(msgs) == Flat(msgs) && msgs[0..] == msgs;
      k := 0;
    } else {
      k := m - (n + 1);
      assert (parts + msgs)[m..] == msgs[k..];
    }
  }

  lemma {:induction false} NoOldFiles(c: Config, files: Files, i: nat)
    requires forall k :: 0 <= k <= i ==> c.At(k) !in files
    ensures History(c, files, i) == ""
  {
    hide Name;
    if i > 0 { NoOldFiles(c, files, i - 1); }
  }

  /** In particular the files hold an end of what was there and all that was written. */
  lemma FilesAreSuffix(c: Config, files: Files, rotateOnOpen: bool, msgs: seq<string>) returns (lost: string)
    ensures var st := Run(c, Opened(c, files, rotateOnOpen), msgs);
            History(c, files, c.maxFiles) + Flat(msgs) == lost + History(c, st.fs, c.maxFiles)
  {
    hide History, Run, OldFiles, Name, Opened, Flat;
    var parts, n := OldFiles(c, files, c.maxFiles), c.maxFiles;
    FilesAreWhole(c, files, rotateOnOpen, msgs);
    var h := History(c, Run(c, Opened(c, files, rotateOnOpen), msgs).fs, n);
    assert EndsParts(parts + msgs, h);
    var m :| 0 <= m <= |parts + msgs| && h == Flat((parts + msgs)[m..]);
    OldFilesFlat(c, files, n);
    FlatAppend(parts, msgs);
    FlatAppend((parts + msgs)[..m], (parts + msgs)[m..]);
    assert (parts + msgs)[..m] + (parts + msgs)[m..] == parts + msgs;
    lost := Flat((parts + msgs)[..m]);
  }

  // ---- Sizes ----

  /** Every file of the family satisfies the test. */
  ghost predicate AllFiles(c: Config, fs: Files, test: string -> bool) {
    forall k :: 0 <= k <= c.maxFiles && c.At(k) in fs ==> test(fs[c.At(k)])
  }

  lemma {:induction false} ShiftedFiles(c: Config, fs: Files, i: nat, test: string -> bool)
    requires i <= c.maxFiles && AllFiles(c, fs, test)
    ensures AllFiles(c, Shifted(c, fs, i), test)
    decreases i
  {
    hide Name;
    if i > 0 {
      if c.At(i - 1) in fs { NamesDistinct(c.base, c.seps, i - 1, i); }
      ShiftedFiles(c, if c.At(i - 1) in fs then Moved(fs, c.At(i - 1), c.At(i)) else fs, i - 1, test);
    }
  }

  lemma RotatedFiles(c: Config, fs: Files, test: string -> bool)
    requires AllFiles(c, fs, test) && test("")
    ensures AllFiles(c, Rotated(c, fs), test)
  {
    hide Name, Shifted;
    ShiftedFiles(c, fs, c.maxFiles, test);
  }

  lemma AppendFiles(c: Config, fs: Files, text: string, test: string -> bool)
    requires AllFiles(c, fs, test) && test(Content(fs, c.base) + text)
    ensures AllFiles(c, Append(fs, c.base, text), test)
  {
    hide Name;
  }

  /** The counter never falls behind the base file. */
  predicate Counted(c: Config, st: State) { c.base in st.fs && |st.fs[c.base]| <= st.size }

  lemma OpenedCounts(c: Config, files: Files, rotateOnOpen: bool)
    ensures Counted(c, Opened(c, files, rotateOnOpen))
  {
    hide Shifted;
  }

  lemma LoggedCounts(c: Config, st: State, msg: string)
    requires Counted(c, st)
    ensures Counted(c, Logged(c, st, msg))
  {
    hide Shifted;
  }

  lemma LoggedFiles(c: Config, st: State, msg: string, test: string -> bool)
    requires Counted(c, st) && AllFiles(c, st.fs, test)
    requires test(msg) && forall text: string :: |text| <= c.maxSize ==> test(text)
    ensures AllFiles(c, Logged(c, st, msg).fs, test)
  {
    hide Name, Rotated;
    if Rotates(c, st, msg) {
      RotatedFiles(c, st.fs, test);
      EmptyBase(c, st.fs);
      assert "" + msg == msg;
      AppendFiles(c, Rotated(c, st.fs), msg, test);
    } else {
      AppendFiles(c, st.fs, msg, test);
    }
  }

  lemma EmptyBase(c: Config, fs: Files)
    ensures Content(Rotated(c, fs), c.base) == ""
  {}

  lemma {:induction false} RunFiles(c: Config, st: State, msgs: seq<string>, test: string -> bool)
    requires Counted(c, st) && AllFiles(c, st.fs, test)
    requires forall text: string :: |text| <= c.maxSize || text in msgs ==> test(text)
    ensures AllFiles(c, Run(c, st, msgs).fs, test)
    decreases |msgs|
  {
    hide Name, Logged, Counted, AllFiles;
    if msgs != [] {
      LoggedCounts(c, st, msgs[0]);
      LoggedFiles(c, st, msgs[0], test);
      RunFiles(c, Logged(c, st, msgs[0]), msgs[1..], test);
    }
  }

  /** A file is within the limit, or a single message, or one that was there before. */
  ghost predicate Explained(c: Config, files: Files, msgs: seq<string>, text: string) {
    || |text| <= c.maxSize
    || text in msgs
    || exists j :: 0 <= j <= c.maxFiles && c.At(j) in files && files[c.At(j)] == text
  }

  lemma FilesAreBounded(c: Config, files: Files, rotateOnOpen: bool, msgs: seq<string>, k: nat)
    requires k <= c.maxFiles
    ensures var st := Run(c, Opened(c, files, rotateOnOpen), msgs);
            c.At(k) in st.fs ==> Explained(c, files, msgs, st.fs[c.At(k)])
  {
    hide Name, Rotated;
    var test := text => Explained(c, files, msgs, text);
    var fs1 := Append(files, c.base, "");
    BaseName(c);
    assert AllFiles(c, files, test);
    assert Content(files, c.base) + "" == Content(files, c.base);
    assert test(Content(files, c.base)) by {
      if c.base in files { assert c.At(0) in files && files[c.At(0)] == files[c.base]; }
    }
    AppendFiles(c, files, "", test);
    RotatedFiles(c, fs1, test);
    OpenedCounts(c, files, rotateOnOpen);
    RunFiles(c, Opened(c, files, rotateOnOpen), msgs, test);
  }

  // ---- Other files ----

  /** No name but those of the family appears, disappears or changes. */
  lemma {:induction false} RunElsewhere(c: Config, st: State, msgs: seq<string>, name: string)
    requires forall k :: 0 <= k <= c.maxFiles ==> name != c.At(k)
    ensures var fs := Run(c, st, msgs).fs;
            (name in fs <==> name in st.fs) && Content(fs, name) == Content(st.fs, name)
    decreases |msgs|
  {
    hide Name, Shifted;
    if msgs != [] {
      BaseName(c);
      ShiftedFrame(c, st.fs, c.maxFiles, name);
      RunElsewhere(c, Logged(c, st, msgs[0]), msgs[1..], name);
    }
  }

  lemma FilesElsewhere(c: Config, files: Files, rotateOnOpen: bool, msgs: seq<string>, name: string)
    requires forall k :: 0 <= k <= c.maxFiles ==> name != c.At(k)
    ensures var fs := Run(c, Opened(c, files, rotateOnOpen), msgs).fs;
            (name in fs <==> name in files) && Content(fs, name) == Content(files, name)
  {
    hide Name, Shifted, Run;
    BaseName(c);
    ShiftedFrame(c, Append(files, c.base, ""), c.maxFiles, name);
    RunElsewhere(c, Opened(c, files, rotateOnOpen), msgs, name);
  }

  // ---- The size counter ----

  predicate Exact(c: Config, st: State) { c.base in st.fs && st.size == |st.fs[c.base]| }

  predicate RotatesIn(c: Config, st: State, msgs: seq<string>)
    decreases |msgs|
  {
    msgs != [] && (Rotates(c, st, msgs[0]) || RotatesIn(c, Logged(c, st, msgs[0]), msgs[1..]))
  }

  /** A sink opened with a rotation of a non-empty file does not know that its file is empty now. */
  lemma OpenedExact(c: Config, files: Files, rotateOnOpen: bool)
    ensures Exact(c, Opened(c, files, rotateOnOpen)) <==> !(rotateOnOpen && Content(files, c.base) != "")
  {
    hide Shifted;
    assert Content(files, c.base) + "" == Content(files, c.base);
  }

  lemma LoggedExact(c: Config, st: State, msg: string)
    requires Counted(c, st)
    ensures Exact(c, Logged(c, st, msg)) <==> Exact(c, st) || Rotates(c, st, msg)
  {
    hide Shifted;
  }

  /** The counter is the size of the file exactly when it was at first or a message has rotated since. */
  lemma {:induction false} CounterExact(c: Config, st: State, msgs: seq<string>)
    requires Counted(c, st)
    ensures Exact(c, Run(c, st, msgs)) <==> Exact(c, st) || RotatesIn(c, st, msgs)
    decreases |msgs|
  {
    hide Logged, Exact, Counted, Rotates;
    if msgs != [] {
      LoggedExact(c, st, msgs[0]);
      LoggedCounts(c, st, msgs[0]);
      CounterExact(c, Logged(c, st, msgs[0]), msgs[1..]);
    }
  }

  /** With the counter right, the message is appended exactly if it fits, and else starts the file anew. */
  lemma BaseAfter(c: Config, st: State, msg: string)
    requires Exact(c, st)
    ensures var held := Content(st.fs, c.base);
            Content(Logged(c, st, msg).fs, c.base) == if |held| + |msg| <= c.maxSize then held + msg else msg
  {
    hide Shifted;
    assert "" + msg == msg;
  }

  /**
   * What the stale counter costs: the first message may rotate an empty file although it would fit, and
   * with one old file kept, everything that was there before is gone.
   */
  lemma NeedlessRotation(c: Config, files: Files, msg: string)
    requires Content(files, c.base) != "" && |msg| <= c.maxSize
    ensures var st := Opened(c, files, true);
            && Content(st.fs, c.base) == ""
            && (Rotates(c, st, msg) <==> |Content(files, c.base)| + |msg| > c.maxSize)
            && (Rotates(c, st, msg) && c.maxFiles == 1 ==> History(c, Logged(c, st, msg).fs, 1) == msg)
  {
    hide Name, Rotated;
    var st := Opened(c, files, true);
    assert Content(files, c.base) + "" == Content(files, c.base);
    EmptyBase(c, Append(files, c.base, ""));
    RotatedBase(c, Append(files, c.base, ""));
    if Rotates(c, st, msg) && c.maxFiles == 1 {
      BaseName(c);
      RotatedHistory(c, st.fs);
      assert History(c, st.fs, 1) == Content(st.fs, c.At(1)) + "";
      assert |History(c, Rotated(c, st.fs), 1)| == 0;
      AppendHistory(c, Rotated(c, st.fs), msg, 1);
      assert "" + msg == msg;
    }
  }
}
