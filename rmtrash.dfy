/**
 * The body of rmtrash's `main`: a fail-fast sequence of checks that ends in
 * one rename of the first file argument into the user's trash. The
 * filesystem is a set of existing paths; the parsed flags, the current user,
 * `filepath.Abs`, the clock and the permission verdict of `os.Rename` are
 * inputs.
 */
module Rmtrash {
  import opened Options
  import opened PathNames
  import opened Timestamp
  import opened TrashName

  /** The parsed command line: `len(os.Args)`, `-v`, `-u` and `flag.Args()`. */
  datatype Invocation = Invocation(argc: nat, version: bool, user: string, args: seq<string>)

  /** What the host answers when asked; none of it is computed by rmtrash. */
  datatype Host = Host(
    currentUser: Option<string>,               // user.Current(), or its error
    abs: string -> Option<string>,              // filepath.Abs, or its error
    now: Clock,                                 // time.Now()
    renameAllowed: (string, string) -> bool)    // whether the OS permits os.Rename(src, dst)

  /** The three answers of `os.Stat` that `main` tells apart. */
  datatype StatResult = Exists | NotExist | OtherError

  /**
   * A filesystem: the paths that exist, and the paths whose `os.Stat` fails
   * with an error other than "does not exist" (no permission to look).
   */
  datatype Disk = Disk(paths: set<string>, unreadable: set<string>)

  /** `os.Stat(p)` as `main` reads it: no permission to look wins over existence. */
  function StatOf(d: Disk, p: string): (r: StatResult)
    ensures r == OtherError <==> p in d.unreadable
    ensures r == Exists <==> p !in d.unreadable && p in d.paths
    ensures r == NotExist <==> p !in d.unreadable && p !in d.paths
  {
    if p in d.unreadable then OtherError
    else if p in d.paths then Exists
    else NotExist
  }

  /** `os.Rename` succeeds when the source exists and the OS allows the move. */
  predicate RenameSucceeds(d: Disk, host: Host, src: string, dst: string) {
    src in d.paths && host.renameAllowed(src, dst)
  }

  /** `/Users/<uname>`, the home directory whose existence `-u` is checked against. */
  function UserHome(uname: string): (home: string)
    ensures |home| == |uname| + 7 && home[..7] == "/Users/" && home[7..] == uname
  {
    "/Users/" + uname
  }

  /**
   * The observable result of one run: the exit status, the `os.Rename`
   * call made if any, and the paths that exist afterwards.
   */
  datatype Outcome = Outcome(code: int, rename: Option<(string, string)>, paths: set<string>)

  /** What one run of `main` does, in the order the Go code checks. */
  function Main(inv: Invocation, host: Host, d: Disk): (o: Outcome)
    ensures o.code in {0, 1, 2}
    ensures o.paths == d.paths || (o.code == 0 && o.rename.Some?)
    ensures o.rename.Some? ==> |inv.args| >= 1 && Some(o.rename.value.0) == host.abs(inv.args[0])
  {
    if inv.argc < 1 then Outcome(2, None, d.paths)
    else if inv.version then Outcome(0, None, d.paths)
    else if |inv.args| < 1 then Outcome(2, None, d.paths)
    else if host.currentUser.None? then Outcome(1, None, d.paths)
    else
      var uname := if inv.user != "" then inv.user else host.currentUser.value;
      if inv.user != "" && StatOf(d, UserHome(uname)) == NotExist then Outcome(1, None, d.paths)
      else match host.abs(inv.args[0])
        case None => Outcome(1, None, d.paths)
        case Some(src) =>
          if StatOf(d, src) == NotExist then Outcome(1, None, d.paths)
          else
            Attempt(d, host, src, Dest(uname, src, Layout(host.now)))
  }

  /** The final step: one `os.Rename`, status 0 if it succeeds and 1 if it fails. */
  function Attempt(d: Disk, host: Host, src: string, dst: string): (o: Outcome)
    ensures o.rename == Some((src, dst))
    ensures o.code == 0 <==> RenameSucceeds(d, host, src, dst)
    ensures o.code != 0 ==> o.code == 1 && o.paths == d.paths
    ensures o.code == 0 ==> o.paths == d.paths - {src} + {dst}
  {
    if RenameSucceeds(d, host, src, dst) then Outcome(0, Some((src, dst)), d.paths - {src} + {dst})
    else Outcome(1, Some((src, dst)), d.paths)
  }

  /** With `-v` the run prints the version and exits 0, whatever else is given, touching nothing. */
  lemma VersionExitsZero(inv: Invocation, host: Host, d: Disk)
    requires inv.argc >= 1 && inv.version
    ensures Main(inv, host, d) == Outcome(0, None, d.paths)
  {
  }

  /** Without `-v` and without a file argument the run prints usage and exits 2 before any rename. */
  lemma NoArgumentsExitsTwo(inv: Invocation, host: Host, d: Disk)
    requires !inv.version && inv.args == []
    ensures Main(inv, host, d) == Outcome(2, None, d.paths)
  {
  }

  /**
   * A `-u` user without `/Users/<name>` ends the run with status 1 before the
   * argument is resolved or examined: the outcome is the same whatever the
   * argument is, whatever `filepath.Abs` answers and whatever rename would do.
   */
  lemma UnknownUserExitsOne(inv: Invocation, host: Host, d: Disk, args': seq<string>,
                            abs': string -> Option<string>, allowed': (string, string) -> bool)
    requires inv.argc >= 1 && !inv.version && inv.args != [] && host.currentUser.Some?
    requires inv.user != "" && StatOf(d, UserHome(inv.user)) == NotExist
    requires args' != []
    ensures Main(inv, host, d) == Outcome(1, None, d.paths)
    ensures Main(inv.(args := args'), host.(abs := abs', renameAllowed := allowed'), d) == Main(inv, host, d)
  {
  }

  /** A source that does not exist ends the run with status 1 and no rename. */
  lemma MissingSourceExitsOne(inv: Invocation, host: Host, d: Disk, src: string)
    requires inv.argc >= 1 && !inv.version && inv.args != [] && host.currentUser.Some?
    requires inv.user == "" || StatOf(d, UserHome(inv.user)) != NotExist
    requires host.abs(inv.args[0]) == Some(src) && StatOf(d, src) == NotExist
    ensures Main(inv, host, d) == Outcome(1, None, d.paths)
  {
  }

  /**
   * When the current user cannot be looked up, or the argument cannot be
   * made absolute, the run ends with status 1 and no rename.
   */
  lemma LookupFailureExitsOne(inv: Invocation, host: Host, d: Disk)
    requires inv.argc >= 1 && !inv.version && inv.args != []
    requires host.currentUser.None? ||
             ((inv.user == "" || StatOf(d, UserHome(inv.user)) != NotExist) && host.abs(inv.args[0]).None?)
    ensures Main(inv, host, d) == Outcome(1, None, d.paths)
  {
  }

  /** Only the first file argument is looked at: whatever follows it changes nothing. */
  lemma LaterArgumentsIgnored(inv: Invocation, host: Host, d: Disk, rest: seq<string>)
    requires inv.args != []
    ensures Main(inv.(args := [inv.args[0]] + rest), host, d) == Main(inv, host, d)
  {
  }

  /** The trash user: the `-u` name if given, the current user otherwise. */
  function TrashUser(inv: Invocation, host: Host): (uname: string)
    requires host.currentUser.Some?
    ensures inv.user != "" ==> uname == inv.user
    ensures inv.user == "" ==> uname == host.currentUser.value
  {
    if inv.user != "" then inv.user else host.currentUser.value
  }

  /** Once every check has passed, the run ends in the rename step for the first argument. */
  lemma ChecksPassed(inv: Invocation, host: Host, d: Disk, src: string)
    requires inv.argc >= 1 && !inv.version && inv.args != [] && host.currentUser.Some?
    requires inv.user == "" || StatOf(d, UserHome(inv.user)) != NotExist
    requires host.abs(inv.args[0]) == Some(src) && StatOf(d, src) != NotExist
    ensures Main(inv, host, d) == Attempt(d, host, src, Dest(TrashUser(inv, host), src, Layout(host.now)))
  {
  }

  /**
   * A rename that fails leaves status 1 and every path as it was; one that
   * succeeds gives status 0, removes the source, adds the destination and
   * changes no other path.
   */
  lemma AttemptEffect(d: Disk, host: Host, src: string, dst: string)
    requires src != dst
    ensures var o := Attempt(d, host, src, dst);
      && o.rename == Some((src, dst))
      && (o.code == 0 <==> RenameSucceeds(d, host, src, dst))
      && (o.code != 0 ==> o.code == 1 && o.paths == d.paths)
      && (o.code == 0 ==> src in d.paths && src !in o.paths && dst in o.paths &&
                          forall p :: p != src && p != dst ==> (p in o.paths <==> p in d.paths))
  {
  }

  /**
   * Once every check has passed, exactly one rename is attempted, from the
   * first argument's absolute path to its timestamped name in the trash.
   * If it fails the status is 1 and nothing changes; if it succeeds the
   * status is 0, the source is gone, the destination exists, and no other
   * path changes.
   */
  lemma RenameDecides(inv: Invocation, host: Host, d: Disk, src: string)
    requires inv.argc >= 1 && !inv.version && inv.args != [] && host.currentUser.Some?
    requires inv.user == "" || StatOf(d, UserHome(inv.user)) != NotExist
    requires host.abs(inv.args[0]) == Some(src) && StatOf(d, src) != NotExist
    ensures var dst := Dest(TrashUser(inv, host), src, Layout(host.now));
      var o := Main(inv, host, d);
      && o.rename == Some((src, dst))
      && (o.code == 0 <==> RenameSucceeds(d, host, src, dst))
      && (o.code != 0 ==> o.code == 1 && o.paths == d.paths)
      && (o.code == 0 ==> src !in o.paths && dst in o.paths &&
                          forall p :: p != src && p != dst ==> (p in o.paths <==> p in d.paths))
  {
    var dst := Dest(TrashUser(inv, host), src, Layout(host.now));
    ChecksPassed(inv, host, d, src);
    LayoutHasNoDotOrSlash(host.now);
    DestIsNotSource(TrashUser(inv, host), src, Layout(host.now));
    AttemptEffect(d, host, src, dst);
  }

  /** The run moved a file: the renamed source existed before, is gone, and the destination exists. */
  predicate Moved(d: Disk, o: Outcome) {
    o.rename.Some? && o.rename.value.0 in d.paths &&
    o.rename.value.0 !in o.paths && o.rename.value.1 in o.paths
  }

  /**
   * Status 0 means either `-v` was given, or the first argument was moved
   * into the trash; any other status leaves the filesystem as it was.
   */
  lemma ExitZeroMeansMoved(inv: Invocation, host: Host, d: Disk)
    ensures var o := Main(inv, host, d);
      (o.code == 0 <==> (inv.argc >= 1 && inv.version) || Moved(d, o)) &&
      (o.code != 0 ==> o.paths == d.paths)
  {
    var o := Main(inv, host, d);
    if o.rename.Some? {
      var (src, dst) := o.rename.value;
      RenameDecides(inv, host, d, src);
    }
  }

  /** The filesystem rmtrash runs against, changed only by `os.Rename`. */
  class FileSystem {
    var paths: set<string>
    const unreadable: set<string>
    /** Every `os.Rename` call made so far, in order. */
    ghost var renames: seq<(string, string)>

    function Snapshot(): Disk
      reads this
    {
      Disk(paths, unreadable)
    }

    constructor (paths: set<string>, unreadable: set<string>)
      ensures this.paths == paths && this.unreadable == unreadable && renames == []
    {
      this.paths := paths;
      this.unreadable := unreadable;
      renames := [];
    }

    /** `os.Stat`, as far as `main` looks at its answer. */
    method Stat(p: string) returns (r: StatResult)
      ensures r == OtherError <==> p in unreadable
      ensures r == Exists <==> p !in unreadable && p in paths
      ensures r == NotExist <==> p !in unreadable && p !in paths
    {
      if p in unreadable {
        r := OtherError;
      } else if p in paths {
        r := Exists;
      } else {
        r := NotExist;
      }
    }

    /** `os.Rename(src, dst)`; `allowed` is the OS's verdict on permissions and devices. */
    method Rename(src: string, dst: string, allowed: bool) returns (ok: bool)
      modifies this
      ensures ok <==> src in old(paths) && allowed
      ensures paths == if ok then old(paths) - {src} + {dst} else old(paths)
      ensures renames == old(renames) + [(src, dst)]
    {
      renames := renames + [(src, dst)];
      ok := src in paths && allowed;
      if ok {
        paths := paths - {src} + {dst};
      }
    }

    /**
     * `main`, one step at a time, returning the exit status. The status, the
     * paths afterwards and the renames attempted are those Main describes.
     */
    method Run(inv: Invocation, host: Host) returns (code: int)
      modifies this
      ensures var o := Main(inv, host, old(Snapshot()));
        && code == o.code
        && paths == o.paths
        && renames == old(renames) + (if o.rename.Some? then [o.rename.value] else [])
    {
      if inv.argc < 1 {
        return 2;
      }
      if inv.version {
        return 0;
      }
      if |inv.args| < 1 {
        return 2;
      }
      if host.currentUser.None? {
        return 1;
      }
      var uname := host.currentUser.value;
      if inv.user != "" {
        uname := inv.user;
        var home := Stat(UserHome(uname));
        if home == NotExist {
          return 1;
        }
      }
      var arg := inv.args[0];
      var resolved := host.abs(arg);
      if resolved.None? {
        return 1;
      }
      var src := resolved.value;
      var st := Stat(src);
      if st == NotExist {
        return 1;
      }
      var dst := Dest(uname, src, Layout(host.now));
      var ok := Rename(src, dst, host.renameAllowed(src, dst));
      if !ok {
        return 1;
      }
      return 0;
    }
  }
}
