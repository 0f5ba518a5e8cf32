/**
 What a sweep achieves: where every file of pstore is afterwards, which files
 are lost, and that the order in which the directory was read does not matter.
 */
module PstoreOutcome {
  import opened Wrappers
  import opened PstoreNames
  import opened PstoreSweep

  // ----- moved files -----

  /** Distinct proper names: what is left of an ascending listing at any point. */
  ghost predicate GoodTail(tail: seq<Name>) {
    Ascending(tail) && forall name :: name in tail ==> ProperName(name)
  }

  lemma GoodRest(tail: seq<Name>)
    requires tail != [] && GoodTail(tail)
    ensures GoodTail(tail[1..]) && tail[0] !in tail[1..] && ProperName(tail[0])
  {
    NotLater(tail, 0);
    assert tail[0] in tail;
  }

  /** Once a name has been handled, later names leave its destination alone, unless that is the console file. */
  lemma LaterNameKeepsDestination(rules: seq<Rule>, openable: set<string>, disk: Disk, later: Name,
                                  directory: string, name: Name)
    requires ProperName(name) && ProperName(later) && later != name && Path(directory, name) != CONSOLE
    ensures var path, after := Path(directory, name), OneFile(rules, openable, disk, later);
      (path in after <==> path in disk) && Content(after, path) == Content(disk, path)
  {
    PathsDiffer(directory, name, MNT, later);
    if ActionFor(rules, later).MOVE? {
      PathsDiffer(directory, name, ActionFor(rules, later).destination, later);
    }
    OneFileTouches(rules, openable, disk, later, Path(directory, name));
  }

  /**
   Where a moved file ends up. Its own path is gone in any case; its destination
   holds it whole if it can be opened and lies neither in pstore nor at the
   console file; moved into pstore, it is gone from there, too.
   */
  lemma {:induction false} MovedFileEndsUp(rules: seq<Rule>, openable: set<string>, disk: Disk, tail: seq<Name>,
                                           name: Name, directory: string)
    requires GoodTail(tail) && name in tail && !IsDot(name) && ActionFor(rules, name) == MOVE(directory)
    ensures var dest, swept := Path(directory, name), Swept(rules, openable, disk, tail);
      && Source(name) !in swept
      && (directory == MNT ==> dest !in swept)
      && (directory != MNT && dest != CONSOLE && dest in openable ==>
            dest in swept && swept[dest] == Content(disk, Source(name)))
      && (directory != MNT && dest != CONSOLE && dest !in openable ==>
            (dest in swept <==> dest in disk) && Content(swept, dest) == Content(disk, dest))
  {
    var before := Swept(rules, openable, disk, tail[1..]);
    GoodRest(tail);
    ConsoleIsNoSource(name);
    if tail[0] != name {
      MovedFileEndsUp(rules, openable, disk, tail[1..], name, directory);
      if !IsDot(tail[0]) {
        LaterNameKeepsDestination(rules, openable, before, tail[0], MNT, name);
        if Path(directory, name) != CONSOLE {
          LaterNameKeepsDestination(rules, openable, before, tail[0], directory, name);
        }
      }
    } else {
      MovedOntoItself(directory, name);
      SourceStays(rules, openable, disk, tail[1..], name);
      if Path(directory, name) != CONSOLE {
        DestinationUntilThen(rules, openable, disk, tail[1..], directory, name);
      }
    }
  }

  lemma DestinationUntilThen(rules: seq<Rule>, openable: set<string>, disk: Disk, tail: seq<Name>,
                             directory: string, name: Name)
    requires GoodTail(tail) && name !in tail && ProperName(name) && Path(directory, name) != CONSOLE
    ensures var path, swept := Path(directory, name), Swept(rules, openable, disk, tail);
      (path in swept <==> path in disk) && Content(swept, path) == Content(disk, path)
  {
    forall other | other in tail && !IsDot(other)
      ensures Path(directory, name) != Source(other)
      ensures ActionFor(rules, other).MOVE? ==>
        Path(directory, name) != Path(ActionFor(rules, other).destination, other)
    {
      PathsDiffer(directory, name, MNT, other);
      if ActionFor(rules, other).MOVE? {
        PathsDiffer(directory, name, ActionFor(rules, other).destination, other);
      }
    }
    OthersUntouched(rules, openable, disk, tail, Path(directory, name));
  }

  // ----- the console file -----

  /** No file is moved onto the console file. */
  ghost predicate ConsoleIsFree(rules: seq<Rule>, tail: seq<Name>) {
    forall name :: name in tail && ActionFor(rules, name).MOVE? ==>
      Path(ActionFor(rules, name).destination, name) != CONSOLE
  }

  /** Header and contents of the files with the default action, last name first. */
  function ConsoleText(rules: seq<Rule>, disk: Disk, tail: seq<Name>): Text {
    if tail == [] then []
    else
      ConsoleText(rules, disk, tail[1..])
      + if !IsDot(tail[0]) && ActionFor(rules, tail[0]) == DEFAULT then Header(tail[0]) + Content(disk, Source(tail[0]))
        else []
  }

  ghost predicate SomeDefault(rules: seq<Rule>, tail: seq<Name>) {
    exists name :: name in tail && !IsDot(name) && ActionFor(rules, name) == DEFAULT
  }

  lemma SomeDefaultStep(rules: seq<Rule>, tail: seq<Name>)
    requires tail != []
    ensures SomeDefault(rules, tail)
      <==> SomeDefault(rules, tail[1..]) || (!IsDot(tail[0]) && ActionFor(rules, tail[0]) == DEFAULT)
  {
    assert tail == [tail[0]] + tail[1..];
  }

  /** What one file adds to the console file. */
  lemma ConsoleAfterOne(rules: seq<Rule>, openable: set<string>, disk: Disk, name: Name)
    requires ActionFor(rules, name).MOVE? ==> Path(ActionFor(rules, name).destination, name) != CONSOLE
    ensures var after := OneFile(rules, openable, disk, name);
      if ActionFor(rules, name) == DEFAULT then
        CONSOLE in after && after[CONSOLE] == Content(disk, CONSOLE) + (Header(name) + Content(disk, Source(name)))
      else (CONSOLE in after <==> CONSOLE in disk) && Content(after, CONSOLE) == Content(disk, CONSOLE)
  {
    ConsoleIsNoSource(name);
  }

  /** The console file exists exactly if some file has the default action, and holds all of them. */
  lemma {:induction false} ConsoleCollects(rules: seq<Rule>, openable: set<string>, disk: Disk, tail: seq<Name>)
    requires GoodTail(tail) && ConsoleIsFree(rules, tail) && CONSOLE !in disk
    ensures var swept := Swept(rules, openable, disk, tail);
      (CONSOLE in swept <==> SomeDefault(rules, tail)) && Content(swept, CONSOLE) == ConsoleText(rules, disk, tail)
  {
    if tail != [] {
      var before := Swept(rules, openable, disk, tail[1..]);
      GoodRest(tail);
      ConsoleCollects(rules, openable, disk, tail[1..]);
      SomeDefaultStep(rules, tail);
      assert tail[0] in tail;
      if !IsDot(tail[0]) {
        ConsoleAfterOne(rules, openable, before, tail[0]);
        SourceStays(rules, openable, disk, tail[1..], tail[0]);
      }
    }
  }

  // ----- every file -----

  /** A file with the default action or a move leaves its path, and one to keep stays. */
  lemma {:induction false} OwnPathAfter(rules: seq<Rule>, openable: set<string>, disk: Disk, tail: seq<Name>, name: Name)
    requires GoodTail(tail) && name in tail && !IsDot(name)
    ensures var swept := Swept(rules, openable, disk, tail);
      if ActionFor(rules, name) == KEEP then
        (Source(name) in swept <==> Source(name) in disk) && Content(swept, Source(name)) == Content(disk, Source(name))
      else Source(name) !in swept
  {
    var before := Swept(rules, openable, disk, tail[1..]);
    GoodRest(tail);
    ConsoleIsNoSource(name);
    if tail[0] != name {
      OwnPathAfter(rules, openable, disk, tail[1..], name);
      if !IsDot(tail[0]) {
        LaterNameKeepsDestination(rules, openable, before, tail[0], MNT, name);
      }
    } else {
      SourceStays(rules, openable, disk, tail[1..], name);
    }
  }

  /** The console text holds every appended file whole, under its header. */
  lemma {:induction false} ConsoleTextHolds(rules: seq<Rule>, disk: Disk, tail: seq<Name>, name: Name)
    returns (before: Text, after: Text)
    requires name in tail && !IsDot(name) && ActionFor(rules, name) == DEFAULT
    ensures ConsoleText(rules, disk, tail) == before + (Header(name) + Content(disk, Source(name))) + after
  {
    var rest := ConsoleText(rules, disk, tail[1..]);
    if tail[0] == name {
      before, after := rest, [];
    } else {
      before, after := ConsoleTextHolds(rules, disk, tail[1..], name);
      var last := if !IsDot(tail[0]) && ActionFor(rules, tail[0]) == DEFAULT
                  then Header(tail[0]) + Content(disk, Source(tail[0])) else [];
      Regroup(before, Header(name) + Content(disk, Source(name)), after, last);
      after := after + last;
    }
  }

  lemma Regroup(a: Text, b: Text, c: Text, d: Text)
    ensures a + b + c + d == a + b + (c + d)
  {
  }

  /** The file is whole where its action puts it. */
  ghost predicate InPlace(rules: seq<Rule>, name: Name, content: Text, swept: Disk) {
    match ActionFor(rules, name)
    case KEEP => Source(name) in swept && swept[Source(name)] == content
    case MOVE(directory) => Path(directory, name) in swept && swept[Path(directory, name)] == content
    case DEFAULT =>
      CONSOLE in swept && exists before, after :: swept[CONSOLE] == before + (Header(name) + content) + after
  }

  /** The rule sends the file into pstore, or to where no file can be opened. */
  predicate SentNowhere(rules: seq<Rule>, openable: set<string>, name: Name) {
    var action := ActionFor(rules, name);
    action.MOVE? && (action.destination == MNT || Path(action.destination, name) !in openable)
  }

  /**
   No file is lost but those sent nowhere: each other file of pstore is whole in
   its place after the sweep, and those are gone, with nothing new anywhere.
   */
  lemma EveryFileAccountedFor(rules: seq<Rule>, openable: set<string>, disk: Disk, namelist: seq<Name>, name: Name)
    requires Listing(namelist, disk) && ConsoleIsFree(rules, namelist)
    requires ProperName(name) && !IsDot(name) && Source(name) in disk
    ensures var swept := Swept(rules, openable, disk - {CONSOLE}, namelist);
      if SentNowhere(rules, openable, name) then
        && Source(name) !in swept
        && var dest := Path(ActionFor(rules, name).destination, name);
           dest in swept ==> dest in disk && swept[dest] == disk[dest]
      else InPlace(rules, name, disk[Source(name)], swept)
  {
    var start := disk - {CONSOLE};
    ConsoleIsNoSource(name);
    match ActionFor(rules, name)
    case KEEP => OwnPathAfter(rules, openable, start, namelist, name);
    case MOVE(directory) => MovedFileEndsUp(rules, openable, start, namelist, name, directory);
    case DEFAULT =>
      ConsoleCollects(rules, openable, start, namelist);
      var before, after := ConsoleTextHolds(rules, start, namelist, name);
  }

  // ----- what the rules say -----

  /** Rule `i` is the first one named like the base of the file. */
  predicate FirstRule(rules: seq<Rule>, i: nat, file: Name) {
    i < |rules| && rules[i].name == BaseName(file) && forall j :: 0 <= j < i ==> rules[j].name != BaseName(file)
  }

  /** No rule is named like the base of the file. */
  predicate NoRule(rules: seq<Rule>, file: Name) {
    forall j :: 0 <= j < |rules| ==> rules[j].name != BaseName(file)
  }

  lemma {:induction false} FirstRuleIsFound(rules: seq<Rule>, i: nat, file: Name)
    requires FirstRule(rules, i, file)
    ensures FindRule(rules, BaseName(file)) == Some(rules[i])
  {
    if i > 0 {
      assert rules[0].name != BaseName(file);
      FirstRuleIsFound(rules[1..], i - 1, file);
    }
  }

  lemma {:induction false} NoRuleIsFound(rules: seq<Rule>, file: Name)
    requires NoRule(rules, file)
    ensures FindRule(rules, BaseName(file)) == None
  {
    if rules != [] {
      NoRuleIsFound(rules[1..], file);
    }
  }

  /** A file whose rule says "keep" stays in pstore as it is. */
  lemma KeepMeansKept(rules: seq<Rule>, openable: set<string>, disk: Disk, namelist: seq<Name>, name: Name, i: nat)
    requires Listing(namelist, disk)
    requires ProperName(name) && !IsDot(name) && "/dev/pstore/" + name in disk
    requires FirstRule(rules, i, name) && rules[i].action == Some("keep")
    ensures var swept, path := Swept(rules, openable, disk - {CONSOLE}, namelist), "/dev/pstore/" + name;
      path in swept && swept[path] == disk[path]
  {
    assert "/dev/pstore/" + name == Source(name);
    FirstRuleIsFound(rules, i, name);
    ConsoleIsNoSource(name);
    OwnPathAfter(rules, openable, disk - {CONSOLE}, namelist, name);
  }

  /** A file whose rule says "move" is whole in the directory the rule names, "/dev/null" if it names none. */
  lemma MoveMeansMoved(rules: seq<Rule>, openable: set<string>, disk: Disk, namelist: seq<Name>, name: Name, i: nat)
    requires Listing(namelist, disk)
    requires ProperName(name) && !IsDot(name) && "/dev/pstore/" + name in disk
    requires FirstRule(rules, i, name) && rules[i].action == Some("move")
    ensures var swept, path := Swept(rules, openable, disk - {CONSOLE}, namelist), "/dev/pstore/" + name;
      var directory := if rules[i].destination.Some? then rules[i].destination.value else "/dev/null";
      var dest := directory + "/" + name;
      && path !in swept
      && (dest in openable && directory != "/dev/pstore" && dest != "/data/dontpanic/apanic_console" ==>
            dest in swept && swept[dest] == disk[path])
  {
    var directory := if rules[i].destination.Some? then rules[i].destination.value else "/dev/null";
    assert "/dev/pstore/" + name == Source(name);
    FirstRuleIsFound(rules, i, name);
    ConsoleIsNoSource(name);
    MovedFileEndsUp(rules, openable, disk - {CONSOLE}, namelist, name, directory);
  }

  /** No rule that says "move" names the console file for a listed file. */
  predicate ConsoleUntargeted(rules: seq<Rule>, namelist: seq<Name>) {
    forall name, i | name in namelist && 0 <= i < |rules| && FirstRule(rules, i, name) ::
      rules[i].action == Some("move") && rules[i].destination.Some? ==>
        rules[i].destination.value + "/" + name != "/data/dontpanic/apanic_console"
  }

  lemma {:induction false} FirstRuleOrNone(rules: seq<Rule>, file: Name) returns (i: nat)
    ensures FirstRule(rules, i, file) || NoRule(rules, file)
  {
    i := 0;
    if rules != [] && rules[0].name != BaseName(file) {
      var k := FirstRuleOrNone(rules[1..], file);
      if FirstRule(rules[1..], k, file) {
        i := k + 1;
      } else {
        assert NoRule(rules[1..], file);
        assert forall j :: 1 <= j < |rules| ==> rules[j] == rules[1..][j - 1];
      }
    }
  }

  lemma UntargetedIsFree(rules: seq<Rule>, namelist: seq<Name>)
    requires ConsoleUntargeted(rules, namelist)
    ensures ConsoleIsFree(rules, namelist)
  {
    forall name | name in namelist && ActionFor(rules, name).MOVE?
      ensures Path(ActionFor(rules, name).destination, name) != CONSOLE
    {
      var i := FirstRuleOrNone(rules, name);
      if FirstRule(rules, i, name) {
        FirstRuleIsFound(rules, i, name);
        assert Path("/dev/null", name)[2] == 'e' && CONSOLE[2] == 'a';
      } else {
        NoRuleIsFound(rules, name);
      }
    }
  }

  /** The file has no rule, or one without an action, or with a word that is neither "keep" nor "move". */
  predicate NoUsableRule(rules: seq<Rule>, file: Name) {
    || NoRule(rules, file)
    || exists i :: 0 <= i < |rules| && FirstRule(rules, i, file)
         && rules[i].action != Some("keep") && rules[i].action != Some("move")
  }

  /** Such a file leaves pstore, and the console file has it whole under its name. */
  lemma OtherwiseAppended(rules: seq<Rule>, openable: set<string>, disk: Disk, namelist: seq<Name>, name: Name)
    returns (before: Text, after: Text)
    requires Listing(namelist, disk) && ConsoleUntargeted(rules, namelist)
    requires ProperName(name) && !IsDot(name) && "/dev/pstore/" + name in disk && NoUsableRule(rules, name)
    ensures var swept, path := Swept(rules, openable, disk - {CONSOLE}, namelist), "/dev/pstore/" + name;
      var console := "/data/dontpanic/apanic_console";
      && path !in swept && console in swept
      && swept[console] == before + ("------ " + name + " ------\n" + disk[path]) + after
  {
    assert "/dev/pstore/" + name == Source(name);
    assert ActionFor(rules, name) == DEFAULT by {
      if NoRule(rules, name) {
        NoRuleIsFound(rules, name);
      } else {
        var i :| 0 <= i < |rules| && FirstRule(rules, i, name)
          && rules[i].action != Some("keep") && rules[i].action != Some("move");
        FirstRuleIsFound(rules, i, name);
      }
    }
    ConsoleIsNoSource(name);
    UntargetedIsFree(rules, namelist);
    OwnPathAfter(rules, openable, disk - {CONSOLE}, namelist, name);
    ConsoleCollects(rules, openable, disk - {CONSOLE}, namelist);
    before, after := ConsoleTextHolds(rules, disk - {CONSOLE}, namelist, name);
  }

  /** The dot entries are passed over. */
  lemma DotsAreSkipped(rules: seq<Rule>, openable: set<string>, disk: Disk, tail: seq<Name>)
    requires tail != [] && (tail[0] == "." || tail[0] == "..")
    ensures Swept(rules, openable, disk, tail) == Swept(rules, openable, disk, tail[1..])
  {
  }

  // ----- the order of the listing -----

  function WithoutDots(names: seq<Name>): (r: seq<Name>)
    ensures forall name :: name in r <==> name in names && !IsDot(name)
  {
    if names == [] then []
    else (if IsDot(names[0]) then [] else [names[0]]) + WithoutDots(names[1..])
  }

  lemma {:induction false} WithoutDotsAscending(names: seq<Name>)
    requires Ascending(names)
    ensures Ascending(WithoutDots(names))
  {
    if names != [] {
      WithoutDotsAscending(names[1..]);
      var r := WithoutDots(names[1..]);
      forall j | 0 <= j < |r|
        ensures Before(names[0], r[j])
      {
        assert r[j] in names[1..];
      }
    }
  }

  lemma WithoutDotsStep(names: seq<Name>)
    requires names != []
    ensures IsDot(names[0]) ==> WithoutDots(names) == WithoutDots(names[1..])
    ensures !IsDot(names[0]) ==>
      var r := WithoutDots(names); r != [] && r[0] == names[0] && r[1..] == WithoutDots(names[1..])
  {
  }

  lemma {:induction false} DotsDoNotMatter(rules: seq<Rule>, openable: set<string>, disk: Disk, names: seq<Name>)
    ensures Swept(rules, openable, disk, WithoutDots(names)) == Swept(rules, openable, disk, names)
  {
    if names != [] {
      DotsDoNotMatter(rules, openable, disk, names[1..]);
      WithoutDotsStep(names);
    }
  }

  /** Ascending lists of the same names are the same list. */
  lemma {:induction false} AscendingIsUnique(a: seq<Name>, b: seq<Name>)
    requires Ascending(a) && Ascending(b) && forall name :: name in a <==> name in b
    ensures a == b
  {
    assert a != [] ==> a[0] in b;
    assert b != [] ==> b[0] in a;
    if a != [] {
      if a[0] != b[0] {
        BeforeIsStrict(a[0], b[0]);
      }
      NotLater(a, 0);
      NotLater(b, 0);
      forall name
        ensures name in a[1..] <==> name in b[1..]
      {
        assert name in a <==> name in b;
      }
      assert a == [a[0]] + a[1..] && b == [b[0]] + b[1..];
      AscendingIsUnique(a[1..], b[1..]);
    }
  }

  /** What a sweep leaves is a function of the disk: it does not depend on how the directory was read. */
  lemma ListingDoesNotMatter(rules: seq<Rule>, openable: set<string>, disk: Disk, a: seq<Name>, b: seq<Name>)
    requires Listing(a, disk) && Listing(b, disk)
    ensures Swept(rules, openable, disk - {CONSOLE}, a) == Swept(rules, openable, disk - {CONSOLE}, b)
  {
    WithoutDotsAscending(a);
    WithoutDotsAscending(b);
    AscendingIsUnique(WithoutDots(a), WithoutDots(b));
    DotsDoNotMatter(rules, openable, disk - {CONSOLE}, a);
    DotsDoNotMatter(rules, openable, disk - {CONSOLE}, b);
  }
}
