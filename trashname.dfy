/**
 * The destination rmtrash moves a file to: the file's final path element,
 * split into stem and extension, with a timestamp inserted between them,
 * under `/Users/<user>/.Trash/`. As in the Go code, the extension already
 * begins with '.' and another '.' is written before it, so `notes.txt`
 * becomes `notes.<timestamp>..txt`.
 */
module TrashName {
  import opened PathNames
  import opened Timestamp

  /** `/Users/<uname>/.Trash/`, the macOS per-user trash directory. */
  function TrashDir(uname: string): (dir: string)
    ensures |dir| == |uname| + 15
    ensures dir[..7] == "/Users/" && dir[7..|dir| - 8] == uname && dir[|dir| - 8..] == "/.Trash/"
  {
    "/Users/" + uname + "/.Trash/"
  }

  /**
   * The name a file called `file` gets in the trash when stamped with `ts`:
   * longer than `file`, and starting with the stem, a '.' and the timestamp.
   */
  function Stamped(file: string, ts: string): (name: string)
    ensures |name| > |file|
    ensures |name| >= |Stem(file)| + 1 + |ts|
    ensures name[..|Stem(file)| + 1 + |ts|] == Stem(file) + "." + ts
  {
    var fext := Ext(file);
    var name := Stem(file) + "." + ts;
    if fext != "" then name + "." + fext else name
  }

  /**
   * The destination path for moving the absolute path `src` into `uname`'s
   * trash: inside the trash directory, and longer than the directory and the
   * file name together.
   */
  function Dest(uname: string, src: string, ts: string): (dst: string)
    ensures |dst| > |TrashDir(uname)| + |Base(src)|
    ensures dst[..|TrashDir(uname)|] == TrashDir(uname)
  {
    TrashDir(uname) + Stamped(Base(src), ts)
  }

  /** A file without extension gets `<file>.<ts>`: the destination ends with the timestamp, with no trailing dot after it. */
  lemma DestWithoutExt(uname: string, src: string, ts: string)
    requires Ext(Base(src)) == []
    ensures Dest(uname, src, ts) == TrashDir(uname) + (Base(src) + "." + ts)
    ensures Dest(uname, src, ts)[|Dest(uname, src, ts)| - |ts|..] == ts
  {
    var f := Base(src);
    StemExtJoin(f);
    assert Stem(f) + [] == Stem(f);
    SuffixOfConcat(TrashDir(uname) + f + ".", ts);
    assert TrashDir(uname) + (f + "." + ts) == TrashDir(uname) + f + "." + ts;
  }

  /**
   * A file with extension `.x` gets `<stem>.<ts>..x`: two dots stand between
   * the timestamp and the extension's text.
   */
  lemma DestWithExt(uname: string, src: string, ts: string)
    requires Ext(Base(src)) != []
    ensures var e := Ext(Base(src));
      Dest(uname, src, ts) == TrashDir(uname) + (Stem(Base(src)) + "." + ts + ".." + e[1..])
  {
    StampedWithExt(Base(src), ts);
  }

  /** The stamped name of a file with an extension, written with the double dot. */
  lemma StampedWithExt(file: string, ts: string)
    requires Ext(file) != []
    ensures Stamped(file, ts) == Stem(file) + "." + ts + ".." + Ext(file)[1..]
  {
  }

  /** The stamped name has no separator, so it is exactly the final element of the destination. */
  lemma SplitDest(uname: string, src: string, ts: string)
    requires '/' !in ts
    ensures Split(Dest(uname, src, ts)) == (TrashDir(uname), Stamped(Base(src), ts))
  {
    var file := Base(src);
    StemExtNoSeparator(file);
    var stamped := Stamped(file, ts);
    assert '/' !in stamped;
    SplitUnique(Dest(uname, src, ts), TrashDir(uname), stamped);
  }

  /** Moving a file never targets its own path: rmtrash's rename always removes the source. */
  lemma DestIsNotSource(uname: string, src: string, ts: string)
    requires '/' !in ts
    ensures Dest(uname, src, ts) != src
  {
    SplitDest(uname, src, ts);
  }

  /**
   * Recover the original file name from a name in the trash, given the
   * timestamp it carries; a name not of that shape is returned unchanged.
   */
  function Restore(name: string, ts: string): string {
    var e := Ext(name);
    if e != [] && |name| >= |e| + 2 + |ts| && name[|name| - |e| - 1] == '.' then
      name[..|name| - |e| - 2 - |ts|] + e
    else if |name| >= |ts| + 1 then
      name[..|name| - |ts| - 1]
    else
      name
  }

  /** Stamping with a timestamp free of '.' and '/' loses nothing: Restore undoes it. */
  lemma RestoreStamped(file: string, ts: string)
    requires '/' !in file
    requires '.' !in ts && '/' !in ts
    ensures Restore(Stamped(file, ts), ts) == file
  {
    if Ext(file) == [] {
      ExtEmptyIff(file);
      RestoreWithoutExt(file, ts);
    } else {
      RestoreWithExt(file, ts);
    }
  }

  lemma RestoreWithoutExt(file: string, ts: string)
    requires '.' !in file
    requires '.' !in ts && '/' !in ts
    ensures Restore(file + "." + ts, ts) == file
  {
    DotTimestampIsExt(file, ts);
    RestorePlainAt(file, ts);
  }

  lemma DotTimestampIsExt(file: string, ts: string)
    requires '.' !in ts && '/' !in ts
    ensures Ext(file + "." + ts) == "." + ts
  {
    var e := "." + ts;
    assert file + "." + ts == file + e;
    assert e[1..] == ts;
    ExtOfSuffix(file, e);
  }

  lemma RestorePlainAt(file: string, ts: string)
    requires Ext(file + "." + ts) == "." + ts
    requires '.' !in file
    ensures Restore(file + "." + ts, ts) == file
  {
  }

  lemma RestoreWithExt(file: string, ts: string)
    requires '.' !in ts && '/' !in ts
    requires Ext(file) != []
    ensures Restore(Stamped(file, ts), ts) == file
  {
    var e := Ext(file);
    var head := Stem(file) + "." + ts + ".";
    assert Stamped(file, ts) == head + e;
    ExtOfSuffix(head, e);
    RestoreAt(Stem(file), ts, e);
    StemExtJoin(file);
  }

  lemma RestoreAt(s: string, ts: string, e: string)
    requires e != [] && Ext(s + "." + ts + "." + e) == e
    ensures Restore(s + "." + ts + "." + e, ts) == s + e
  {
    var name := s + "." + ts + "." + e;
    assert name[|name| - |e| - 1] == '.';
    assert name[..|name| - |e| - 2 - |ts|] == s;
  }

  /**
   * Under one timestamp, two destinations are equal exactly when they are
   * for the same user and for sources with the same file name: files with
   * different names, or sent to different users, never collide.
   */
  lemma DestDetermines(u1: string, src1: string, u2: string, src2: string, ts: string)
    requires '.' !in ts && '/' !in ts
    ensures Dest(u1, src1, ts) == Dest(u2, src2, ts) <==> u1 == u2 && Base(src1) == Base(src2)
  {
    if Dest(u1, src1, ts) == Dest(u2, src2, ts) {
      SplitDest(u1, src1, ts);
      SplitDest(u2, src2, ts);
      assert TrashDir(u1) == TrashDir(u2);
      RestoreStamped(Base(src1), ts);
      RestoreStamped(Base(src2), ts);
    }
  }

  /** `b` is the last `|b|` characters of `a + b`. */
  lemma SuffixOfConcat(a: string, b: string)
    ensures (a + b)[|a + b| - |b|..] == b
  {
  }

  /** The timestamp sits in the destination right after the trash directory, the stem and a '.'. */
  lemma DestTimestampAt(uname: string, src: string, ts: string)
    ensures var at := |TrashDir(uname)| + |Stem(Base(src))| + 1;
      at + |ts| <= |Dest(uname, src, ts)| && Dest(uname, src, ts)[at..at + |ts|] == ts
  {
    var name := Stamped(Base(src), ts);
    var k := |Stem(Base(src))| + 1;
    StampedTimestampAt(Base(src), ts);
    SliceShift(TrashDir(uname), name, k, k + |ts|);
  }

  /** In the stamped name, the timestamp follows the stem and a '.'. */
  lemma StampedTimestampAt(file: string, ts: string)
    ensures var k := |Stem(file)| + 1;
      k + |ts| <= |Stamped(file, ts)| && Stamped(file, ts)[k..k + |ts|] == ts
  {
    var k := |Stem(file)| + 1;
    var head := Stamped(file, ts)[..k + |ts|];
    assert head == (Stem(file) + ".") + ts;
    assert head[k..] == ts;
  }

  /** A slice of `n` is found `|a|` places further on in `a + n`. */
  lemma SliceShift(a: string, n: string, i: nat, j: nat)
    requires i <= j <= |n|
    ensures (a + n)[|a| + i..|a| + j] == n[i..j]
  {
  }

  /** Under one user and one source, destinations with timestamps of equal length are equal only for equal timestamps. */
  lemma DestTimestampsAgree(uname: string, src: string, ts1: string, ts2: string)
    requires |ts1| == |ts2|
    requires Dest(uname, src, ts1) == Dest(uname, src, ts2)
    ensures ts1 == ts2
  {
    DestTimestampAt(uname, src, ts1);
    DestTimestampAt(uname, src, ts2);
  }

  /**
   * For one user and one source, the destination changes with every second:
   * two valid readings before year 10000 give the same destination exactly
   * when they are the same reading.
   */
  lemma DestSeparatesSeconds(uname: string, src: string, c1: Clock, c2: Clock)
    requires ValidClock(c1) && c1.year < 10000
    requires ValidClock(c2) && c2.year < 10000
    ensures Dest(uname, src, Layout(c1)) == Dest(uname, src, Layout(c2)) <==> c1 == c2
  {
    if Dest(uname, src, Layout(c1)) == Dest(uname, src, Layout(c2)) {
      LayoutFields(c1);
      LayoutFields(c2);
      DestTimestampsAgree(uname, src, Layout(c1), Layout(c2));
      LayoutInjective(c1, c2);
    }
  }
}
