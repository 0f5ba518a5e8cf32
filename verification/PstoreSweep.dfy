/**
 The sweep of the pstore directory: each file is kept, moved to a configured
 directory, or appended to one console file under a header, last name first.

 All files, those of pstore included, are one map from paths to contents, and
 contents are character sequences. Paths fit their buffers, and writes are
 complete.
 */
module PstoreSweep {
  import opened Wrappers
  import opened PstoreNames

  type Text = seq<char>

  type Disk = map<string, Text>

  const MNT := "/dev/pstore"
  const CONSOLE := "/data/dontpanic/apanic_console"
  const BUFFER_SIZE: nat := 4096

  // ----- rules -----

  datatype Rule = Rule(name: Name, action: Option<string>, destination: Option<string>)

  datatype Action = DEFAULT | KEEP | MOVE(destination: string)

  /** config_find: the first rule with the name. */
  function FindRule(rules: seq<Rule>, name: Name): (r: Option<Rule>)
    ensures r.Some? ==> r.value in rules && r.value.name == name
    ensures r.None? ==> forall rule :: rule in rules ==> rule.name != name
  {
    if rules == [] then None
    else if rules[0].name == name then Some(rules[0])
    else FindRule(rules[1..], name)
  }

  /** What is done with a file: its base name's rule decides, and without a usable rule the default. */
  function ActionFor(rules: seq<Rule>, file: Name): Action {
    var rule := FindRule(rules, BaseName(file));
    if rule.None? || rule.value.action.None? then DEFAULT
    else if rule.value.action.value == "move" then
      MOVE(if rule.value.destination.None? then "/dev/null" else rule.value.destination.value)
    else if rule.value.action.value == "keep" then KEEP
    else DEFAULT
  }

  method PerformRuleCheck(rules: seq<Rule>, baseFile: Name) returns (ret: int, action: Action)
    ensures ret == 0 || ret == -1
    ensures forall file :: BaseName(file) == baseFile ==>
      ActionFor(rules, file) == if ret == 0 then action else DEFAULT
  {
    action := DEFAULT;
    var node := FindRule(rules, baseFile);
    if node.None? {
      return -1, DEFAULT;
    }
    if node.value.action.None? {
      return -1, DEFAULT;
    }
    if node.value.action.value == "move" {
      action := MOVE("/dev/null");
      if node.value.destination.Some? {
        action := MOVE(node.value.destination.value);
      }
    } else if node.value.action.value == "keep" {
      action := KEEP;
    }
    ret := 0;
  }

  predicate IsDot(name: Name) { name == "." || name == ".." }

  function Path(directory: string, name: Name): string { directory + "/" + name }

  /** Where a pstore file lies. */
  function Source(name: Name): string { Path(MNT, name) }

  function Header(name: Name): Text { "------ " + name + " ------\n" }

  // ----- the disk after a sweep -----

  function Content(disk: Disk, path: string): Text {
    if path in disk then disk[path] else []
  }

  /** open with O_TRUNC, copy, unlink: the copy reads what is there after the truncation. */
  function Moved(disk: Disk, openable: set<string>, directory: string, name: Name): Disk {
    var dest := Path(directory, name);
    (if dest in openable then disk[dest := Content(disk[dest := []], Source(name))] else disk) - {Source(name)}
  }

  /** open with O_APPEND, write the header, copy, unlink. */
  function Appended(disk: Disk, name: Name): Disk {
    disk[CONSOLE := Content(disk, CONSOLE) + Header(name) + Content(disk, Source(name))] - {Source(name)}
  }

  function OneFile(rules: seq<Rule>, openable: set<string>, disk: Disk, name: Name): Disk {
    match ActionFor(rules, name)
    case MOVE(directory) => Moved(disk, openable, directory, name)
    case KEEP => disk
    case DEFAULT => Appended(disk, name)
  }

  /** The names of `tail` are handled from its end to its beginning. */
  function Swept(rules: seq<Rule>, openable: set<string>, disk: Disk, tail: seq<Name>): Disk {
    if tail == [] then disk
    else
      var before := Swept(rules, openable, disk, tail[1..]);
      if IsDot(tail[0]) then before else OneFile(rules, openable, before, tail[0])
  }

  // ----- the C functions -----

  class FileSystem {
    var disk: Disk

    /**
     Appends one file to another that is open, block by block; reads may be
     short, and if they may fail, a failing copy leaves a prefix.
     */
    method FileCopy(src: string, dst: string, mayFail: bool) returns (ret: int)
      requires dst in disk && (src == dst ==> disk[src] == [])
      modifies this`disk
      ensures ret == 0 || (ret == -1 && (mayFail || src !in old(disk)))
      ensures ret == 0 ==> disk == old(disk)[dst := old(disk)[dst] + Content(old(disk), src)]
      ensures ret == -1 ==> exists part ::
        part <= Content(old(disk), src) && disk == old(disk)[dst := old(disk)[dst] + part]
    {
      ghost var content := Content(disk, src);
      var pos := 0;
      assert disk[dst] + content[..0] == disk[dst] && disk[dst := disk[dst]] == disk;
      if src !in disk {
        return -1;
      }
      while true
        invariant 0 <= pos <= |content|
        invariant disk == old(disk)[dst := old(disk)[dst] + content[..pos]]
        invariant src in disk && disk[src] == content
        decreases |content| - pos
      {
        if mayFail {
          if * {
            return -1;
          }
        }
        var left := |disk[src]| - pos;
        if left == 0 {
          break;
        }
        var readRet: nat :| 0 < readRet <= left && readRet <= BUFFER_SIZE;
        var before, block := disk[dst], disk[src][pos..pos + readRet];
        assert before + block == old(disk)[dst] + content[..pos + readRet];
        disk := disk[dst := before + block];
        pos := pos + readRet;
      }
      assert content[..pos] == content;
      return 0;
    }

    /** main from the removal of the console file on, over the names scandir found. */
    method Sweep(rules: seq<Rule>, namelist: seq<Name>, openable: set<string>)
      requires Listing(namelist, disk)
      modifies this
      ensures disk == Swept(rules, openable, old(disk) - {CONSOLE}, namelist)
    {
      disk := disk - {CONSOLE};
      var n := |namelist| - 1;
      var dstOpen := false;
      ghost var start := disk;
      assert namelist[n + 1..] == [];
      while n >= 0
        invariant -1 <= n < |namelist|
        invariant disk == Swept(rules, openable, start, namelist[n + 1..])
        invariant dstOpen ==> CONSOLE in disk
        decreases n
      {
        var name := namelist[n];
        SweptStep(rules, openable, old(disk), namelist, n);
        if !IsDot(name) {
          dstOpen := HandleFile(rules, name, openable, dstOpen);
        }
        n := n - 1;
      }
      assert namelist[0..] == namelist;
    }

    /** One round of the loop, for a name that is not a dot. */
    method HandleFile(rules: seq<Rule>, name: Name, openable: set<string>, dstOpen: bool) returns (nowOpen: bool)
      requires Source(name) in disk && ProperName(name) && (dstOpen ==> CONSOLE in disk)
      modifies this
      ensures disk == OneFile(rules, openable, old(disk), name)
      ensures nowOpen ==> CONSOLE in disk
    {
      nowOpen := dstOpen;
      var base := BaseOf(name);
      var found, action := PerformRuleCheck(rules, base);
      if found != 0 {
        action := DEFAULT;
      }
      ConsoleIsNoSource(name);
      match action {
        case MOVE(directory) =>
          MoveTo(Source(name), Path(directory, name), openable);
          disk := disk - {Source(name)};
        case KEEP =>
        case DEFAULT =>
          AppendToConsole(name, nowOpen);
          nowOpen := true;
          disk := disk - {Source(name)};
      }
    }

    /** The copy of a MOVE, skipped when the destination cannot be opened. */
    method MoveTo(src: string, dest: string, openable: set<string>)
      requires src in disk
      modifies this`disk
      ensures disk == if dest in openable then old(disk)[dest := Content(old(disk)[dest := []], src)] else old(disk)
    {
      if dest in openable {
        disk := disk[dest := []];
        ghost var content := Content(disk, src);
        var ret := FileCopy(src, dest, false);
        assert [] + content == content;
      }
    }

    /** Header and copy of a file with the default action; the first one opens the console file. */
    method AppendToConsole(name: Name, dstOpen: bool)
      requires Source(name) in disk && Source(name) != CONSOLE && (dstOpen ==> CONSOLE in disk)
      modifies this`disk
      ensures disk == old(disk)[CONSOLE := Content(old(disk), CONSOLE) + Header(name) + Content(old(disk), Source(name))]
    {
      if !dstOpen && CONSOLE !in disk {
        disk := disk[CONSOLE := []];
      }
      disk := disk[CONSOLE := disk[CONSOLE] + Header(name)];
      var ret := FileCopy(Source(name), CONSOLE, false);
    }
  }

  /** A name is copied to a buffer, cut there and read back. */
  method BaseOf(name: Name) returns (base: Name)
    requires ProperName(name)
    ensures base == BaseName(name)
  {
    var d := new char[|name| + 1](i requires 0 <= i <= |name| => if i < |name| then name[i] else '\0');
    var b := new char[|name| + 1](i => '\0');
    assert d[..] == name + ['\0'];
    StringOfTerminated(name);
    CutIsBaseName(d[..], |name| + 1);
    var len := GetBaseFilename(d, b, |name| + 1);
    return b[..len];
  }

  /** File names hold neither NUL nor slash. */
  predicate ProperName(name: Name) { '\0' !in name && '/' !in name }

  lemma {:induction false} StringOfTerminated(name: Name)
    requires '\0' !in name
    ensures StringIn(name + ['\0'], |name| + 1) == name
  {
    if name != [] {
      assert (name + ['\0'])[1..] == name[1..] + ['\0'];
      StringOfTerminated(name[1..]);
    }
  }

  // ----- paths -----

  /** The last component of a path. */
  function FileName(path: string): Name {
    if path == [] || path[|path| - 1] == '/' then [] else FileName(path[..|path| - 1]) + [path[|path| - 1]]
  }

  lemma {:induction false} FileNameOfPath(directory: string, name: Name)
    requires '/' !in name
    ensures FileName(Path(directory, name)) == name
  {
    if name != [] {
      var init, path := name[..|name| - 1], Path(directory, name);
      FileNameOfPath(directory, init);
      assert path[..|path| - 1] == Path(directory, init);
    }
  }

  /** Paths in any two directories differ when the names do. */
  lemma PathsDiffer(d1: string, n1: Name, d2: string, n2: Name)
    requires ProperName(n1) && ProperName(n2) && n1 != n2
    ensures Path(d1, n1) != Path(d2, n2)
  {
    FileNameOfPath(d1, n1);
    FileNameOfPath(d2, n2);
  }

  /** A file is moved onto itself only if it is moved into pstore. */
  lemma MovedOntoItself(directory: string, name: Name)
    ensures Path(directory, name) == Source(name) <==> directory == MNT
  {
    var path := Path(directory, name);
    assert path[..|path| - |name| - 1] == directory;
    assert Source(name)[..|Source(name)| - |name| - 1] == MNT;
  }

  lemma ConsoleIsNoSource(name: Name)
    ensures Source(name) != CONSOLE
  {
    assert Source(name)[2] == 'e' && CONSOLE[2] == 'a';
  }

  // ----- the listing -----

  /** strcmp order. */
  predicate Before(a: Name, b: Name) {
    b != [] && (a == [] || a[0] < b[0] || (a[0] == b[0] && Before(a[1..], b[1..])))
  }

  lemma {:induction false} BeforeIsStrict(a: Name, b: Name)
    requires Before(a, b)
    ensures !Before(b, a) && a != b
  {
    if a != [] && a[0] == b[0] {
      BeforeIsStrict(a[1..], b[1..]);
    }
  }

  ghost predicate Ascending(names: seq<Name>) {
    forall i, j :: 0 <= i < j < |names| ==> Before(names[i], names[j])
  }

  /** What scandir with alphasort finds: every file of pstore in order, and maybe the dot entries. */
  ghost predicate Listing(namelist: seq<Name>, disk: Disk) {
    && Ascending(namelist)
    && (forall name :: name in namelist ==> ProperName(name) && (!IsDot(name) ==> Source(name) in disk))
    && (forall name :: ProperName(name) && !IsDot(name) && Source(name) in disk ==> name in namelist)
  }

  lemma NotLater(names: seq<Name>, i: nat)
    requires Ascending(names) && i < |names|
    ensures names[i] !in names[i + 1..]
  {
    if names[i] in names[i + 1..] {
      var j :| i < j < |names| && names[j] == names[i];
      BeforeIsStrict(names[i], names[j]);
    }
  }

  // ----- what one file changes -----

  /** Handling one file touches its own path, its destination and the console file. */
  lemma OneFileTouches(rules: seq<Rule>, openable: set<string>, disk: Disk, name: Name, path: string)
    requires path != Source(name)
    requires ActionFor(rules, name).MOVE? ==> path != Path(ActionFor(rules, name).destination, name)
    requires ActionFor(rules, name) == DEFAULT ==> path != CONSOLE
    ensures var after := OneFile(rules, openable, disk, name);
      (path in after <==> path in disk) && Content(after, path) == Content(disk, path)
  {
  }

  /** A path that no name of the list touches is as before. */
  lemma {:induction false} OthersUntouched(rules: seq<Rule>, openable: set<string>, disk: Disk, tail: seq<Name>, path: string)
    requires Untouched(rules, tail, path)
    ensures var swept := Swept(rules, openable, disk, tail);
      (path in swept <==> path in disk) && Content(swept, path) == Content(disk, path)
  {
    if tail != [] {
      OthersUntouched(rules, openable, disk, tail[1..], path);
      assert tail[0] in tail;
      if !IsDot(tail[0]) {
        OneFileTouches(rules, openable, Swept(rules, openable, disk, tail[1..]), tail[0], path);
      }
    }
  }

  /** The path is no listed file, no destination of one, and the console file only if no file is appended to it. */
  ghost predicate Untouched(rules: seq<Rule>, tail: seq<Name>, path: string) {
    forall name :: name in tail && !IsDot(name) ==>
      && path != Source(name)
      && (ActionFor(rules, name).MOVE? ==> path != Path(ActionFor(rules, name).destination, name))
      && (ActionFor(rules, name) == DEFAULT ==> path != CONSOLE)
  }

  /** A file of pstore stays as it is until its turn. */
  lemma SourceStays(rules: seq<Rule>, openable: set<string>, disk: Disk, tail: seq<Name>, name: Name)
    requires ProperName(name) && name !in tail && forall other :: other in tail ==> ProperName(other)
    ensures var swept := Swept(rules, openable, disk, tail);
      (Source(name) in swept <==> Source(name) in disk) && Content(swept, Source(name)) == Content(disk, Source(name))
  {
    ConsoleIsNoSource(name);
    forall other | other in tail && !IsDot(other)
      ensures Source(name) != Source(other)
      ensures ActionFor(rules, other).MOVE? ==> Source(name) != Path(ActionFor(rules, other).destination, other)
    {
      PathsDiffer(MNT, name, MNT, other);
      if ActionFor(rules, other).MOVE? {
        PathsDiffer(MNT, name, ActionFor(rules, other).destination, other);
      }
    }
    OthersUntouched(rules, openable, disk, tail, Source(name));
  }

  /** One more name handled; its file is still there when its turn comes. */
  lemma SweptStep(rules: seq<Rule>, openable: set<string>, disk: Disk, namelist: seq<Name>, n: nat)
    requires n < |namelist| && Listing(namelist, disk)
    ensures var before, name := Swept(rules, openable, disk - {CONSOLE}, namelist[n + 1..]), namelist[n];
      && ProperName(name) && (!IsDot(name) ==> Source(name) in before)
      && Swept(rules, openable, disk - {CONSOLE}, namelist[n..])
         == if IsDot(name) then before else OneFile(rules, openable, before, name)
  {
    assert namelist[n..][1..] == namelist[n + 1..];
    NotLater(namelist, n);
    ConsoleIsNoSource(namelist[n]);
    SourceStays(rules, openable, disk - {CONSOLE}, namelist[n + 1..], namelist[n]);
  }
}
